/**
 * The catalogue compiler: selects the translated units of a PO catalogue,
 * keys each by the FNV-1a hash of its (context-qualified) source text and
 * serialises the result into the packed YMO table
 *
 *   count: u16 LE | count rows of (hash: u32 LE, offset: u16 LE) | payloads
 *
 * where every payload is the encoded target followed by two zero bytes and
 * every offset is measured from the start of the table.
 */
module Ymo {
  import opened Wrappers
  import opened Bytes
  import Slices
  import Fnv

  /**
   * A catalogue unit as the PO reader delivers it. Its texts are already
   * encoded; an empty `context` is a unit without context.
   */
  datatype Unit = Unit(context: seq<u8>, source: seq<u8>, target: seq<u8>, translated: bool, fuzzy: bool)

  /** The byte that joins a context to its source text (`'\004'`). */
  const ContextSeparator: u8 := 0x04

  /** Translated units are emitted, and so are fuzzy ones with a target when fuzzy units are included. */
  predicate Emitted(u: Unit, includeFuzzy: bool) {
    u.translated || (u.fuzzy && includeFuzzy && |u.target| > 0)
  }

  /** The text that is hashed: `context + '\004' + source` when a context exists, else the source. */
  function HashedKey(u: Unit): (k: seq<u8>)
    ensures |u.context| > 0 ==> |k| == |u.context| + 1 + |u.source|
    ensures |u.context| > 0 ==> k[..|u.context|] == u.context && k[|u.context|] == ContextSeparator
    ensures |u.context| > 0 ==> k[|u.context| + 1..] == u.source
    ensures |u.context| == 0 ==> k == u.source
  {
    if |u.context| > 0 then u.context + [ContextSeparator] + u.source else u.source
  }

  /**
   * A hash over encoded text. The dictionary logic below is stated for any
   * hash; the compiler instantiates it with 32-bit FNV-1a.
   */
  type Hasher = seq<u8> -> u32

  /** The key a unit is stored under. */
  function KeyHash(u: Unit, hash: Hasher): u32 {
    hash(HashedKey(u))
  }

  /** What the catalogue stores for a unit: its target and two zero bytes. */
  function Payload(u: Unit): (d: seq<u8>)
    ensures |d| == |u.target| + 2 && d[..|u.target|] == u.target
    ensures d[|u.target|] == 0 && d[|u.target| + 1] == 0
  {
    u.target + [0, 0]
  }

  /** One row of the compiler's hash-keyed dictionary. */
  datatype Entry = Entry(hash: u32, data: seq<u8>)

  /** A dictionary never holds a key twice. */
  predicate DistinctHashes(t: seq<Entry>) {
    forall i, j :: 0 <= i < j < |t| ==> t[i].hash != t[j].hash
  }

  /** Position of key `h` in the dictionary, if present. */
  function Find(t: seq<Entry>, h: u32): (r: Option<nat>)
    ensures r.Some? ==> r.value < |t| && t[r.value].hash == h
    ensures r.Some? ==> forall i :: 0 <= i < r.value ==> t[i].hash != h
    ensures r.None? ==> forall i :: 0 <= i < |t| ==> t[i].hash != h
    decreases |t|
  {
    if |t| == 0 then None
    else if t[0].hash == h then Some(0)
    else match Find(t[1..], h)
      case None => None
      case Some(i) => Some(i + 1)
  }

  /** The value stored under `h`, if any. */
  function Lookup(t: seq<Entry>, h: u32): Option<seq<u8>> {
    match Find(t, h)
    case None => None
    case Some(i) => Some(t[i].data)
  }

  /**
   * Dictionary assignment `t[h] = d`: replaces the value in place when the key
   * is present (keeping its position) and appends otherwise.
   */
  function Put(t: seq<Entry>, h: u32, d: seq<u8>): (r: seq<Entry>)
    requires DistinctHashes(t)
    ensures DistinctHashes(r)
    ensures Lookup(r, h) == Some(d)
    ensures forall k :: k != h ==> Lookup(r, k) == Lookup(t, k)
    ensures |r| == |t| || |r| == |t| + 1
    ensures forall i :: 0 <= i < |t| && t[i].hash != h ==> r[i] == t[i]
  {
    match Find(t, h)
    case Some(i) =>
      var r := t[i := Entry(h, d)];
      assert forall k :: k != h ==> Find(r, k) == Find(t, k) by {
        forall k | k != h ensures Find(r, k) == Find(t, k) {
          FindAgree(r, t, k);
        }
      }
      FindFirst(r, h, i);
      r
    case None =>
      var r := t + [Entry(h, d)];
      assert forall k :: k != h ==> Find(r, k) == Find(t, k) by {
        forall k | k != h ensures Find(r, k) == Find(t, k) {
          FindAgree(r, t, k);
        }
      }
      FindFirst(r, h, |t|);
      r
  }

  /** `Find` only depends on where key `k` occurs. */
  lemma FindAgree(a: seq<Entry>, b: seq<Entry>, k: u32)
    requires forall i :: 0 <= i < |a| ==> (a[i].hash == k <==> i < |b| && b[i].hash == k)
    requires forall i :: 0 <= i < |b| ==> (b[i].hash == k <==> i < |a| && a[i].hash == k)
    requires forall i :: 0 <= i < |a| && i < |b| && a[i].hash == k ==> a[i] == b[i]
    ensures Find(a, k) == Find(b, k)
  {
    var fa := Find(a, k);
    var fb := Find(b, k);
    if fa.Some? {
      assert b[fa.value].hash == k;
    }
    if fb.Some? {
      assert a[fb.value].hash == k;
    }
  }

  /** The first occurrence of a key is where `Find` points. */
  lemma FindFirst(t: seq<Entry>, h: u32, i: nat)
    requires i < |t| && t[i].hash == h
    requires forall j :: 0 <= j < i ==> t[j].hash != h
    ensures Find(t, h) == Some(i)
  {
  }

  /**
   * The compiler's dictionary after visiting `units` in order: every emitted
   * unit assigns its payload under its key hash.
   */
  function BuildTable(units: seq<Unit>, includeFuzzy: bool, hash: Hasher): (t: seq<Entry>)
    ensures DistinctHashes(t)
    decreases |units|
  {
    if |units| == 0 then []
    else
      var t := BuildTable(units[..|units| - 1], includeFuzzy, hash);
      var u := units[|units| - 1];
      if Emitted(u, includeFuzzy) then Put(t, KeyHash(u, hash), Payload(u)) else t
  }

  /** Unit `i` is the last emitted unit whose key hashes to `h`. */
  ghost predicate LastWithHash(units: seq<Unit>, includeFuzzy: bool, hash: Hasher, h: u32, i: int) {
    && 0 <= i < |units|
    && Keyed(units[i], includeFuzzy, hash, h)
    && forall j :: i < j < |units| ==> !Keyed(units[j], includeFuzzy, hash, h)
  }

  /** The effect of the last unit on a lookup. */
  lemma BuildTableStep(units: seq<Unit>, includeFuzzy: bool, hash: Hasher, h: u32)
    requires |units| > 0
    ensures var u := units[|units| - 1];
      Lookup(BuildTable(units, includeFuzzy, hash), h)
        == if Emitted(u, includeFuzzy) && KeyHash(u, hash) == h then Some(Payload(u))
           else Lookup(BuildTable(units[..|units| - 1], includeFuzzy, hash), h)
  {
  }

  /** Unit `u` is emitted and its key hashes to `h`. */
  predicate Keyed(u: Unit, includeFuzzy: bool, hash: Hasher, h: u32) {
    Emitted(u, includeFuzzy) && KeyHash(u, hash) == h
  }

  /** The dictionary holds a hash exactly when some emitted unit has it. */
  lemma {:induction false} BuildTableHas(units: seq<Unit>, includeFuzzy: bool, hash: Hasher, h: u32)
    ensures Lookup(BuildTable(units, includeFuzzy, hash), h).Some?
        <==> (exists i :: 0 <= i < |units| && Keyed(units[i], includeFuzzy, hash, h))
    decreases |units|
  {
    if |units| > 0 {
      var n := |units| - 1;
      var front := units[..n];
      BuildTableHas(front, includeFuzzy, hash, h);
      BuildTableStep(units, includeFuzzy, hash, h);
      var now := Lookup(BuildTable(units, includeFuzzy, hash), h).Some?;
      var before := Lookup(BuildTable(front, includeFuzzy, hash), h).Some?;
      if Keyed(units[n], includeFuzzy, hash, h) {
        assert now;
      } else {
        assert now == before;
        if before {
          var i :| 0 <= i < n && Keyed(front[i], includeFuzzy, hash, h);
          assert units[i] == front[i];
        }
        forall i | 0 <= i < |units| && Keyed(units[i], includeFuzzy, hash, h)
          ensures before
        {
          assert i != n;
          assert front[i] == units[i];
        }
      }
    }
  }

  /**
   * The dictionary holds the payload of the last emitted unit with a given
   * hash: a later unit with the same hash replaces an earlier one.
   */
  lemma {:induction false} BuildTableLastWins(units: seq<Unit>, includeFuzzy: bool, hash: Hasher, h: u32, i: nat)
    requires LastWithHash(units, includeFuzzy, hash, h, i)
    ensures Lookup(BuildTable(units, includeFuzzy, hash), h) == Some(Payload(units[i]))
    decreases |units|
  {
    var n := |units| - 1;
    var front := units[..n];
    BuildTableStep(units, includeFuzzy, hash, h);
    if i < n {
      assert !Keyed(units[n], includeFuzzy, hash, h);
      assert front[i] == units[i];
      assert LastWithHash(front, includeFuzzy, hash, h, i);
      BuildTableLastWins(front, includeFuzzy, hash, h, i);
    }
  }

  /** Every value in the dictionary is some emitted unit's payload. */
  lemma {:induction false} BuildTablePayloads(units: seq<Unit>, includeFuzzy: bool, hash: Hasher, k: nat)
    requires k < |BuildTable(units, includeFuzzy, hash)|
    ensures exists i :: (0 <= i < |units| && Emitted(units[i], includeFuzzy)
        && BuildTable(units, includeFuzzy, hash)[k] == Entry(KeyHash(units[i], hash), Payload(units[i])))
    decreases |units|
  {
    var n := |units| - 1;
    var front := units[..n];
    var t := BuildTable(front, includeFuzzy, hash);
    var u := units[n];
    var r := BuildTable(units, includeFuzzy, hash);
    if Emitted(u, includeFuzzy) && (k >= |t| || t[k].hash == KeyHash(u, hash)) {
      if k < |t| {
        assert Find(t, KeyHash(u, hash)) == Some(k);
      }
      assert r[k] == Entry(KeyHash(u, hash), Payload(u));
    } else {
      BuildTablePayloads(front, includeFuzzy, hash, k);
      var i :| 0 <= i < n && Emitted(front[i], includeFuzzy)
        && t[k] == Entry(KeyHash(front[i], hash), Payload(front[i]));
      assert units[i] == front[i];
    }
  }

  /** Why serialisation can fail: a count or an offset does not fit in 16 bits. */
  datatype EncodeError = CountTooLarge | OffsetTooLarge

  /** Sum of the payload lengths of the first `i` entries. */
  function PrefixLen(t: seq<Entry>, i: nat): nat
    requires i <= |t|
  {
    if i == 0 then 0 else PrefixLen(t, i - 1) + |t[i - 1].data|
  }

  /** Where entry `i`'s payload starts in the serialised table. */
  function Offset(t: seq<Entry>, i: nat): nat
    requires i <= |t|
  {
    2 + 6 * |t| + PrefixLen(t, i)
  }

  /** Prefix sums of a tail are prefix sums of the whole, shifted by the head. */
  lemma {:induction false} PrefixLenTail(t: seq<Entry>, i: nat)
    requires 0 < |t| && i < |t|
    ensures PrefixLen(t, i + 1) == |t[0].data| + PrefixLen(t[1..], i)
  {
    if i > 0 {
      PrefixLenTail(t, i - 1);
    }
  }

  /**
   * The row block: for each entry its hash and the running offset, which
   * starts at `offset` and grows by each payload's length. Fails as soon as
   * an offset does not fit in 16 bits.
   */
  function Rows(t: seq<Entry>, offset: nat): Result<seq<u8>, EncodeError>
    decreases |t|
  {
    if |t| == 0 then Success([])
    else if offset >= 0x1_0000 then Failure(OffsetTooLarge)
    else match Rows(t[1..], offset + |t[0].data|)
      case Failure(e) => Failure(e)
      case Success(rest) => Success(LE32(t[0].hash) + LE16(offset) + rest)
  }

  /** All payloads, in dictionary order. */
  function Payloads(t: seq<Entry>): seq<u8>
    decreases |t|
  {
    if |t| == 0 then [] else t[0].data + Payloads(t[1..])
  }

  /** The serialised table: the count, the rows, the payloads. */
  function Encode(t: seq<Entry>): Result<seq<u8>, EncodeError> {
    if |t| >= 0x1_0000 then Failure(CountTooLarge)
    else match Rows(t, 2 + 6 * |t|)
      case Failure(e) => Failure(e)
      case Success(rows) => Success(LE16(|t|) + rows + Payloads(t))
  }

  /** The row block is produced exactly when every running offset fits in 16 bits. */
  lemma {:induction false} RowsSucceed(t: seq<Entry>, offset: nat)
    ensures Rows(t, offset).Success? <==> (forall i :: 0 <= i < |t| ==> offset + PrefixLen(t, i) < 0x1_0000)
    ensures Rows(t, offset).Failure? ==> Rows(t, offset).error == OffsetTooLarge
    decreases |t|
  {
    if |t| > 0 {
      var o := offset + |t[0].data|;
      RowsSucceed(t[1..], o);
      if Rows(t, offset).Success? {
        assert offset < 0x1_0000 && Rows(t[1..], o).Success?;
        forall i | 0 <= i < |t| ensures offset + PrefixLen(t, i) < 0x1_0000 {
          if i > 0 {
            PrefixLenTail(t, i - 1);
            assert o + PrefixLen(t[1..], i - 1) < 0x1_0000;
          }
        }
      } else if offset < 0x1_0000 {
        assert Rows(t[1..], o).Failure?;
        var i :| 0 <= i < |t| - 1 && !(o + PrefixLen(t[1..], i) < 0x1_0000);
        PrefixLenTail(t, i);
        assert !(offset + PrefixLen(t, i + 1) < 0x1_0000);
      } else {
        assert !(offset + PrefixLen(t, 0) < 0x1_0000);
      }
    }
  }

  /** A produced row block has six bytes per entry. */
  lemma {:induction false} RowsLength(t: seq<Entry>, offset: nat)
    requires Rows(t, offset).Success?
    ensures |Rows(t, offset).value| == 6 * |t|
    decreases |t|
  {
    if |t| > 0 {
      RowsLength(t[1..], offset + |t[0].data|);
    }
  }

  /** Row `i` of a produced row block holds entry `i`'s hash and running offset. */
  lemma {:induction false} RowsContent(t: seq<Entry>, offset: nat, i: nat)
    requires Rows(t, offset).Success? && i < |t|
    ensures 6 * i + 6 <= |Rows(t, offset).value|
    ensures offset + PrefixLen(t, i) < 0x1_0000
    ensures Rows(t, offset).value[6 * i..6 * i + 4] == LE32(t[i].hash)
    ensures Rows(t, offset).value[6 * i + 4..6 * i + 6] == LE16(offset + PrefixLen(t, i))
    decreases i
  {
    RowsLength(t, offset);
    var o := offset + |t[0].data|;
    var rest := Rows(t[1..], o).value;
    var head := LE32(t[0].hash) + LE16(offset);
    assert Rows(t, offset).value == head + rest;
    if i == 0 {
      Slices.SliceLeft(head, rest, 0, 4);
      Slices.SliceLeft(head, rest, 4, 6);
      assert head[0..4] == LE32(t[0].hash);
      assert head[4..6] == LE16(offset);
    } else {
      RowsContent(t[1..], o, i - 1);
      PrefixLenTail(t, i - 1);
      ShiftRow(head, rest, i);
      assert t[1..][i - 1] == t[i];
    }
  }

  /** Row `i` of a row block that starts with one extra row is row `i - 1` of the rest. */
  lemma ShiftRow(head: seq<u8>, rest: seq<u8>, i: nat)
    requires |head| == 6 && 0 < i && 6 * i + 6 <= |head| + |rest|
    ensures (head + rest)[6 * i..6 * i + 4] == rest[6 * (i - 1)..6 * (i - 1) + 4]
    ensures (head + rest)[6 * i + 4..6 * i + 6] == rest[6 * (i - 1) + 4..6 * (i - 1) + 6]
  {
    Slices.SliceRight(head, rest, 6 * i, 6 * i + 4);
    Slices.SliceRight(head, rest, 6 * i + 4, 6 * i + 6);
  }

  /** The payload block is as long as all payloads together. */
  lemma {:induction false} PayloadsLength(t: seq<Entry>)
    ensures |Payloads(t)| == PrefixLen(t, |t|)
    decreases |t|
  {
    if |t| > 0 {
      PayloadsLength(t[1..]);
      PrefixLenTail(t, |t| - 1);
    }
  }

  /** Payload `i` sits at its prefix sum inside the payload block. */
  lemma {:induction false} PayloadsContent(t: seq<Entry>, i: nat)
    requires i < |t|
    ensures PayloadAt(Payloads(t), PrefixLen(t, i), t[i].data)
    decreases i
  {
    PayloadsLength(t);
    PayloadsLength(t[1..]);
    var rest := Payloads(t[1..]);
    assert Payloads(t) == t[0].data + rest;
    if i == 0 {
      Slices.SliceLeft(t[0].data, rest, 0, |t[0].data|);
    } else {
      PayloadsContent(t[1..], i - 1);
      PrefixLenTail(t, i - 1);
      assert t[1..][i - 1] == t[i];
      Slices.SliceRight(t[0].data, rest, PrefixLen(t, i), PrefixLen(t, i) + |t[i].data|);
    }
  }

  /** `data` occurs in `buf` at position `at`. */
  ghost predicate PayloadAt(buf: seq<u8>, at: int, data: seq<u8>) {
    0 <= at && at + |data| <= |buf| && buf[at..at + |data|] == data
  }

  /**
   * Serialisation fails exactly when the count or some payload offset does
   * not fit in 16 bits, reporting the count first.
   */
  lemma EncodeFailure(t: seq<Entry>)
    ensures Encode(t).Failure? <==> exists i :: 0 <= i < |t| && Offset(t, i) >= 0x1_0000
    ensures Encode(t) == Failure(CountTooLarge) <==> |t| >= 0x1_0000
  {
    RowsSucceed(t, 2 + 6 * |t|);
    if |t| >= 0x1_0000 {
      assert Offset(t, 0) >= 0x1_0000;
    } else if Encode(t).Failure? {
      var i :| 0 <= i < |t| && !(2 + 6 * |t| + PrefixLen(t, i) < 0x1_0000);
      assert Offset(t, i) >= 0x1_0000;
    } else {
      forall i | 0 <= i < |t| ensures Offset(t, i) < 0x1_0000 {
        assert 2 + 6 * |t| + PrefixLen(t, i) < 0x1_0000;
      }
    }
  }

  /**
   * The layout of a successful serialisation: total size, the count, each
   * row's hash and offset, and each payload at its offset, with the first
   * offset right after the rows and each next one after the previous payload.
   */
  lemma EncodeLayout(t: seq<Entry>, buf: seq<u8>)
    requires Encode(t) == Success(buf)
    ensures |buf| == Offset(t, |t|)
    ensures buf[..2] == LE16(|t|)
    ensures Offset(t, 0) == 2 + 6 * |t|
    ensures forall i :: 0 < i <= |t| ==> Offset(t, i) == Offset(t, i - 1) + |t[i - 1].data|
    ensures forall i :: 0 <= i < |t| ==> RowAt(buf, i, t[i].hash, Offset(t, i))
    ensures forall i :: 0 <= i < |t| ==> PayloadAt(buf, Offset(t, i), t[i].data)
  {
    EncodeShape(t, buf);
    forall i | 0 <= i < |t|
      ensures RowAt(buf, i, t[i].hash, Offset(t, i))
    {
      EncodeRow(t, buf, i);
    }
    forall i | 0 <= i < |t|
      ensures PayloadAt(buf, Offset(t, i), t[i].data)
    {
      EncodePayload(t, buf, i);
    }
  }

  /** A serialised table: the count, then the rows, then the payloads. */
  lemma EncodeShape(t: seq<Entry>, buf: seq<u8>)
    requires Encode(t) == Success(buf)
    ensures |t| < 0x1_0000 && Rows(t, 2 + 6 * |t|).Success?
    ensures buf == LE16(|t|) + Rows(t, 2 + 6 * |t|).value + Payloads(t)
    ensures |buf| == Offset(t, |t|)
    ensures buf[..2] == LE16(|t|)
  {
    EncodeParts(t, buf);
    RowsLength(t, 2 + 6 * |t|);
    PayloadsLength(t);
    PartsLength(t, buf, Rows(t, 2 + 6 * |t|).value, Payloads(t));
    PartsCount(t, buf);
  }

  /** A successful serialisation is the count, the row block and the payload block. */
  lemma EncodeParts(t: seq<Entry>, buf: seq<u8>)
    requires Encode(t) == Success(buf)
    ensures |t| < 0x1_0000 && Rows(t, 2 + 6 * |t|).Success?
    ensures buf == LE16(|t|) + Rows(t, 2 + 6 * |t|).value + Payloads(t)
  {
  }

  /** The three blocks together reach the end of the last payload. */
  lemma PartsLength(t: seq<Entry>, buf: seq<u8>, rows: seq<u8>, pay: seq<u8>)
    requires |t| < 0x1_0000 && |rows| == 6 * |t| && |pay| == PrefixLen(t, |t|)
    requires buf == LE16(|t|) + rows + pay
    ensures |buf| == Offset(t, |t|)
  {
  }

  /** The first two bytes of the serialised table are the count. */
  lemma PartsCount(t: seq<Entry>, buf: seq<u8>)
    requires |t| < 0x1_0000 && Rows(t, 2 + 6 * |t|).Success?
    requires buf == LE16(|t|) + Rows(t, 2 + 6 * |t|).value + Payloads(t)
    ensures buf[..2] == LE16(|t|)
  {
  }

  /** Row `i` of a serialised table. */
  lemma EncodeRow(t: seq<Entry>, buf: seq<u8>, i: nat)
    requires Encode(t) == Success(buf) && i < |t|
    ensures RowAt(buf, i, t[i].hash, Offset(t, i))
  {
    EncodeShape(t, buf);
    var rows := Rows(t, 2 + 6 * |t|).value;
    RowsContent(t, 2 + 6 * |t|, i);
    RowInBuffer(LE16(|t|), rows, Payloads(t), i, t[i].hash, Offset(t, i));
  }

  /** Payload `i` of a serialised table. */
  lemma EncodePayload(t: seq<Entry>, buf: seq<u8>, i: nat)
    requires Encode(t) == Success(buf) && i < |t|
    ensures PayloadAt(buf, Offset(t, i), t[i].data)
  {
    EncodeShape(t, buf);
    RowsLength(t, 2 + 6 * |t|);
    var head := LE16(|t|) + Rows(t, 2 + 6 * |t|).value;
    var pay := Payloads(t);
    assert buf == head + pay;
    PayloadsContent(t, i);
    PrefixLenMonotone(t, i + 1, |t|);
    Slices.SliceRight(head, pay, Offset(t, i), Offset(t, i) + |t[i].data|);
  }

  /** A row of the row block is a row of the whole table. */
  lemma RowInBuffer(count: seq<u8>, rows: seq<u8>, pay: seq<u8>, i: nat, hash: u32, offset: u16)
    requires |count| == 2 && 6 * i + 6 <= |rows|
    requires rows[6 * i..6 * i + 4] == LE32(hash) && rows[6 * i + 4..6 * i + 6] == LE16(offset)
    ensures RowAt(count + rows + pay, i, hash, offset)
  {
    Slices.SliceRight(count, rows, 2 + 6 * i, 6 + 6 * i);
    Slices.SliceRight(count, rows, 6 + 6 * i, 8 + 6 * i);
    Slices.SliceLeft(count + rows, pay, 2 + 6 * i, 6 + 6 * i);
    Slices.SliceLeft(count + rows, pay, 6 + 6 * i, 8 + 6 * i);
  }

  /** Row `i` of a serialised table holds `hash` and `offset`. */
  ghost predicate RowAt(buf: seq<u8>, i: nat, hash: u32, offset: int) {
    && 8 + 6 * i <= |buf|
    && buf[2 + 6 * i..6 + 6 * i] == LE32(hash)
    && 0 <= offset < 0x1_0000
    && buf[6 + 6 * i..8 + 6 * i] == LE16(offset)
  }

  /** Prefix sums never decrease. */
  lemma {:induction false} PrefixLenMonotone(t: seq<Entry>, i: nat, j: nat)
    requires i <= j <= |t|
    ensures PrefixLen(t, i) <= PrefixLen(t, j)
    decreases j - i
  {
    if i < j {
      PrefixLenMonotone(t, i, j - 1);
    }
  }

  /** The catalogue compiler: dictionary of emitted units, serialised. */
  function Compile(units: seq<Unit>, includeFuzzy: bool): Result<seq<u8>, EncodeError> {
    Encode(BuildTable(units, includeFuzzy, Fnv.Fnv1a32))
  }
}
