/**
 * The catalogue's two halves together: the runtime loader reads back
 * exactly the dictionary the compiler serialised, and a compiled catalogue
 * translates each unit's key to the target of the last unit with that key.
 */
module RoundTrip {
  import opened Wrappers
  import opened Bytes
  import Fnv
  import Ymo
  import I18n

  /** A stored payload without its two terminating zero bytes. */
  function TargetOf(d: seq<u8>): seq<u8>
    requires |d| >= 2
  {
    d[..|d| - 2]
  }

  /** Every payload is a NUL-free text followed by two zero bytes. */
  predicate CPayloads(t: seq<Ymo.Entry>) {
    forall i :: 0 <= i < |t| ==>
      |t[i].data| >= 2 && t[i].data[|t[i].data| - 2..] == [0, 0] && 0 !in TargetOf(t[i].data)
  }

  /** The C string at a payload's offset is the payload's text. */
  lemma {:induction false} CStringOfPayload(buf: seq<u8>, at: nat, s: seq<u8>)
    requires at + |s| < |buf| && buf[at..at + |s|] == s && buf[at + |s|] == 0 && 0 !in s
    ensures I18n.CString(buf, at) == Some(s)
    decreases |s|
  {
    if |s| > 0 {
      assert buf[at] == s[0];
      assert buf[at + 1..at + 1 + |s[1..]|] == s[1..];
      CStringOfPayload(buf, at + 1, s[1..]);
      assert s == [buf[at]] + s[1..];
    }
  }

  /** The loader reads row `i` of a serialised table as the compiler wrote it. */
  lemma DecodeRow(t: seq<Ymo.Entry>, buf: seq<u8>, i: nat)
    requires Ymo.Encode(t) == Success(buf) && i < |t|
    ensures 2 + 6 * |t| <= |buf| && I18n.Count(buf) == |t| && Ymo.Offset(t, i) < 0x1_0000
    ensures I18n.ReadRows(buf, |t|)[i] == I18n.Row(t[i].hash, Ymo.Offset(t, i))
  {
    Ymo.EncodeShape(t, buf);
    Ymo.EncodeRow(t, buf, i);
    ReadLE16Written(buf, 0, |t|);
    ReadLE32Written(buf, 2 + 6 * i, t[i].hash);
    ReadLE16Written(buf, 6 + 6 * i, Ymo.Offset(t, i));
  }

  /** A stored payload's text is the C string at the payload's position. */
  lemma PayloadText(buf: seq<u8>, at: nat, d: seq<u8>)
    requires Ymo.PayloadAt(buf, at, d)
    requires |d| >= 2 && d[|d| - 2..] == [0, 0] && 0 !in TargetOf(d)
    ensures I18n.CString(buf, at) == Some(TargetOf(d))
  {
    var s := TargetOf(d);
    assert buf[at..at + |s|] == buf[at..at + |d|][..|s|];
    assert buf[at + |s|] == buf[at..at + |d|][|s|] == d[|d| - 2..][0];
    CStringOfPayload(buf, at, s);
  }

  /** The loader reads entry `i`'s text at the offset of row `i`. */
  lemma DecodePayload(t: seq<Ymo.Entry>, buf: seq<u8>, i: nat)
    requires Ymo.Encode(t) == Success(buf) && i < |t| && CPayloads(t)
    ensures I18n.CString(buf, Ymo.Offset(t, i)) == Some(TargetOf(t[i].data))
  {
    Ymo.EncodePayload(t, buf, i);
    PayloadText(buf, Ymo.Offset(t, i), t[i].data);
  }

  /** The rows the loader reads carry dictionary `t`'s keys and point at its texts. */
  ghost predicate RowsMatch(rows: seq<I18n.Row>, buf: seq<u8>, t: seq<Ymo.Entry>) {
    && |rows| == |t|
    && CPayloads(t)
    && forall i :: 0 <= i < |t| ==>
      rows[i].hash == t[i].hash && I18n.CString(buf, rows[i].offset) == Some(TargetOf(t[i].data))
  }

  /** The loader reads a serialised dictionary's rows as the dictionary. */
  lemma EncodeHolds(t: seq<Ymo.Entry>, buf: seq<u8>)
    requires CPayloads(t) && Ymo.Encode(t) == Success(buf)
    ensures 2 <= |buf| && 2 + 6 * I18n.Count(buf) <= |buf| && I18n.Count(buf) == |t|
    ensures RowsMatch(I18n.ReadRows(buf, |t|), buf, t)
  {
    Ymo.EncodeShape(t, buf);
    ReadLE16Written(buf, 0, |t|);
    var rows := I18n.ReadRows(buf, |t|);
    forall i | 0 <= i < |t|
      ensures rows[i].hash == t[i].hash && I18n.CString(buf, rows[i].offset) == Some(TargetOf(t[i].data))
    {
      DecodeRow(t, buf, i);
      DecodePayload(t, buf, i);
    }
  }

  /** Loading rows that match a dictionary with distinct keys binds exactly its keys, each to its text. */
  lemma LoadHeld(t: seq<Ymo.Entry>, buf: seq<u8>, rows: seq<I18n.Row>)
    requires Ymo.DistinctHashes(t) && RowsMatch(rows, buf, t)
    ensures I18n.LoadRows(map[], buf, rows).Some?
    ensures forall k :: k in I18n.LoadRows(map[], buf, rows).value <==> exists i :: 0 <= i < |t| && t[i].hash == k
    ensures forall i :: 0 <= i < |t| ==> (t[i].hash in I18n.LoadRows(map[], buf, rows).value
      && I18n.LoadRows(map[], buf, rows).value[t[i].hash] == TargetOf(t[i].data))
  {
    LoadHeldKeys(t, buf, rows);
    forall i | 0 <= i < |t|
      ensures t[i].hash in I18n.LoadRows(map[], buf, rows).value
        && I18n.LoadRows(map[], buf, rows).value[t[i].hash] == TargetOf(t[i].data)
    {
      HeldEntry(t, buf, rows, i);
    }
  }

  /** The rows load, and bind exactly the dictionary's keys. */
  lemma LoadHeldKeys(t: seq<Ymo.Entry>, buf: seq<u8>, rows: seq<I18n.Row>)
    requires RowsMatch(rows, buf, t)
    ensures I18n.LoadRows(map[], buf, rows).Some?
    ensures forall k :: k in I18n.LoadRows(map[], buf, rows).value <==> exists i :: 0 <= i < |t| && t[i].hash == k
  {
    assert I18n.StringsInside(buf, rows);
    I18n.LoadRowsSucceeds(map[], buf, rows);
    I18n.LoadRowsKeys(map[], buf, rows);
    var m := I18n.LoadRows(map[], buf, rows).value;
    forall k ensures k in m <==> exists i :: 0 <= i < |t| && t[i].hash == k {
      assert k in m <==> exists i :: 0 <= i < |rows| && rows[i].hash == k;
    }
  }

  /** Entry `i` of a dictionary with distinct keys is bound to its text. */
  lemma HeldEntry(t: seq<Ymo.Entry>, buf: seq<u8>, rows: seq<I18n.Row>, i: nat)
    requires Ymo.DistinctHashes(t) && RowsMatch(rows, buf, t) && i < |t|
    ensures I18n.LoadRows(map[], buf, rows).Some?
    ensures t[i].hash in I18n.LoadRows(map[], buf, rows).value
      && I18n.LoadRows(map[], buf, rows).value[t[i].hash] == TargetOf(t[i].data)
  {
    assert I18n.StringsInside(buf, rows);
    I18n.LoadRowsSucceeds(map[], buf, rows);
    assert I18n.FirstRow(rows, t[i].hash, i);
    I18n.LoadRowsFirstWins(map[], buf, rows, t[i].hash, i);
  }

  /** A dictionary lookup finds exactly the keys that occur. */
  lemma LookupFinds(t: seq<Ymo.Entry>, k: u32)
    ensures Ymo.Lookup(t, k).Some? <==> exists i :: 0 <= i < |t| && t[i].hash == k
  {
  }

  /**
   * Round trip: loading a serialised dictionary into the empty map binds
   * exactly the dictionary's keys, each to its payload's text.
   */
  lemma EncodeThenLoad(t: seq<Ymo.Entry>, buf: seq<u8>)
    requires Ymo.DistinctHashes(t) && CPayloads(t) && Ymo.Encode(t) == Success(buf)
    ensures I18n.LoadTranslateData(map[], buf).Some?
    ensures forall k :: k in I18n.LoadTranslateData(map[], buf).value <==> Ymo.Lookup(t, k).Some?
    ensures forall i :: 0 <= i < |t| ==> (t[i].hash in I18n.LoadTranslateData(map[], buf).value
      && I18n.LoadTranslateData(map[], buf).value[t[i].hash] == TargetOf(t[i].data))
  {
    EncodeLoadsRows(t, buf);
    var rows := I18n.ReadRows(buf, |t|);
    LoadHeld(t, buf, rows);
    var m := I18n.LoadRows(map[], buf, rows).value;
    forall k ensures k in m <==> Ymo.Lookup(t, k).Some? {
      LookupFinds(t, k);
    }
  }

  /** Loading a serialised dictionary loads its rows, which match the dictionary. */
  lemma EncodeLoadsRows(t: seq<Ymo.Entry>, buf: seq<u8>)
    requires CPayloads(t) && Ymo.Encode(t) == Success(buf)
    ensures 2 + 6 * |t| <= |buf|
    ensures RowsMatch(I18n.ReadRows(buf, |t|), buf, t)
    ensures I18n.LoadTranslateData(map[], buf) == I18n.LoadRows(map[], buf, I18n.ReadRows(buf, |t|))
  {
    EncodeHolds(t, buf);
  }

  /** Every emitted unit's target is a C string. */
  predicate NulFreeTargets(units: seq<Ymo.Unit>, includeFuzzy: bool) {
    forall i :: 0 <= i < |units| && Ymo.Emitted(units[i], includeFuzzy) ==> 0 !in units[i].target
  }

  /** The compiler's dictionary stores C strings. */
  lemma CompiledPayloads(units: seq<Ymo.Unit>, includeFuzzy: bool)
    requires NulFreeTargets(units, includeFuzzy)
    ensures CPayloads(Ymo.BuildTable(units, includeFuzzy, Fnv.Fnv1a32))
  {
    var t := Ymo.BuildTable(units, includeFuzzy, Fnv.Fnv1a32);
    forall k | 0 <= k < |t|
      ensures |t[k].data| >= 2 && t[k].data[|t[k].data| - 2..] == [0, 0] && 0 !in TargetOf(t[k].data)
    {
      Ymo.BuildTablePayloads(units, includeFuzzy, Fnv.Fnv1a32, k);
      var i :| 0 <= i < |units| && Ymo.Emitted(units[i], includeFuzzy)
        && t[k] == Ymo.Entry(Ymo.KeyHash(units[i], Fnv.Fnv1a32), Ymo.Payload(units[i]));
      assert TargetOf(t[k].data) == units[i].target;
    }
  }

  /**
   * End to end: loading a compiled catalogue binds exactly the hashes of the
   * emitted units' keys, each to the target of the last emitted unit with
   * that hash.
   */
  lemma CompileThenLoad(units: seq<Ymo.Unit>, includeFuzzy: bool, buf: seq<u8>)
    requires NulFreeTargets(units, includeFuzzy) && Ymo.Compile(units, includeFuzzy) == Success(buf)
    ensures I18n.LoadTranslateData(map[], buf).Some?
    ensures forall h :: (h in I18n.LoadTranslateData(map[], buf).value
      <==> exists i :: 0 <= i < |units| && Ymo.Keyed(units[i], includeFuzzy, Fnv.Fnv1a32, h))
    ensures forall h, i :: Ymo.LastWithHash(units, includeFuzzy, Fnv.Fnv1a32, h, i) ==>
      (h in I18n.LoadTranslateData(map[], buf).value && I18n.LoadTranslateData(map[], buf).value[h] == units[i].target)
  {
    var t := Ymo.BuildTable(units, includeFuzzy, Fnv.Fnv1a32);
    CompiledPayloads(units, includeFuzzy);
    EncodeThenLoad(t, buf);
    TableBindings(units, includeFuzzy, I18n.LoadTranslateData(map[], buf).value);
  }

  /**
   * A map that binds exactly the table's hashes, each to its entry's target,
   * binds exactly the emitted units' key hashes, each to the target of the
   * last emitted unit with that hash.
   */
  lemma TableBindings(units: seq<Ymo.Unit>, includeFuzzy: bool, m: I18n.StringMap)
    requires CPayloads(Ymo.BuildTable(units, includeFuzzy, Fnv.Fnv1a32))
    requires forall k :: k in m <==> Ymo.Lookup(Ymo.BuildTable(units, includeFuzzy, Fnv.Fnv1a32), k).Some?
    requires var t := Ymo.BuildTable(units, includeFuzzy, Fnv.Fnv1a32);
      forall i :: 0 <= i < |t| ==> t[i].hash in m && m[t[i].hash] == TargetOf(t[i].data)
    ensures forall h :: (h in m <==> exists i :: 0 <= i < |units| && Ymo.Keyed(units[i], includeFuzzy, Fnv.Fnv1a32, h))
    ensures forall h, i :: Ymo.LastWithHash(units, includeFuzzy, Fnv.Fnv1a32, h, i) ==> h in m && m[h] == units[i].target
  {
    var t := Ymo.BuildTable(units, includeFuzzy, Fnv.Fnv1a32);
    forall h ensures h in m <==> exists i :: 0 <= i < |units| && Ymo.Keyed(units[i], includeFuzzy, Fnv.Fnv1a32, h) {
      Ymo.BuildTableHas(units, includeFuzzy, Fnv.Fnv1a32, h);
    }
    forall h, i | Ymo.LastWithHash(units, includeFuzzy, Fnv.Fnv1a32, h, i)
      ensures h in m && m[h] == units[i].target
    {
      Ymo.BuildTableLastWins(units, includeFuzzy, Fnv.Fnv1a32, h, i);
      var j := Ymo.Find(t, h).value;
      assert t[j].data == Ymo.Payload(units[i]);
      assert TargetOf(t[j].data) == units[i].target;
    }
  }

  /**
   * A compiled catalogue translates a unit's key, looked up by the runtime's
   * hash of it, to the target of the last emitted unit with the same hash.
   */
  lemma CompiledLookup(units: seq<Ymo.Unit>, includeFuzzy: bool, buf: seq<u8>, i: nat)
    requires NulFreeTargets(units, includeFuzzy) && Ymo.Compile(units, includeFuzzy) == Success(buf)
    requires i < |units| && Ymo.LastWithHash(units, includeFuzzy, Fnv.Fnv1a32, Fnv.Fnv1a32(Ymo.HashedKey(units[i])), i)
    ensures I18n.LoadTranslateData(map[], buf).Some?
    ensures I18n.Direct(I18n.LoadTranslateData(map[], buf).value, Ymo.HashedKey(units[i])) == units[i].target
  {
    CompileThenLoad(units, includeFuzzy, buf);
  }
}
