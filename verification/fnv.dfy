/**
 * The 32-bit FNV-1a hash (Fowler/Noll/Vo, variant 1a) that keys the
 * translation catalogue, in its two incarnations: the catalogue compiler's
 * hash over encoded bytes and the runtime's hash over a NUL-terminated
 * `char` string.
 */
module Fnv {
  import opened Bytes

  /** FNV-1a offset basis for 32-bit hashes. */
  const OffsetBasis: u32 := 0x811c9dc5
  /** FNV prime for 32-bit hashes. */
  const Prime: u32 := 0x01000193

  /** One round: xor in the byte, multiply by the prime, keep the low 32 bits. */
  function Step(h: u32, b: u8): u32 {
    (Xor(h, b) * Prime) % TwoTo32
  }

  /**
   * The catalogue compiler's hash: folds `Step` over `data` from the front,
   * starting at `h` (the optional `hval` argument).
   */
  function HashFrom(data: seq<u8>, h: u32): u32
    decreases |data|
  {
    if |data| == 0 then h else HashFrom(data[1..], Step(h, data[0]))
  }

  /** The hash with the default starting value, the offset basis. */
  function Fnv1a32(data: seq<u8>): u32 {
    HashFrom(data, OffsetBasis)
  }

  /** Appending a byte performs exactly one more round. */
  lemma {:induction false} HashFromSnoc(data: seq<u8>, b: u8, h: u32)
    ensures HashFrom(data + [b], h) == Step(HashFrom(data, h), b)
    decreases |data|
  {
    if |data| == 0 {
      assert (data + [b])[1..] == [];
    } else {
      assert (data + [b])[1..] == data[1..] + [b];
      HashFromSnoc(data[1..], b, Step(h, data[0]));
    }
  }

  /** Hashing a concatenation continues from the hash of the first part. */
  lemma {:induction false} HashFromAppend(a: seq<u8>, b: seq<u8>, h: u32)
    ensures HashFrom(a + b, h) == HashFrom(b, HashFrom(a, h))
    decreases |a|
  {
    if |a| == 0 {
      assert a + b == b;
    } else {
      assert (a + b)[1..] == a[1..] + b;
      HashFromAppend(a[1..], b, Step(h, a[0]));
    }
  }

  /** The empty input hashes to the offset basis. */
  lemma EmptyHashIsBasis()
    ensures Fnv1a32([]) == 0x811c9dc5
  {
  }

  /** The published FNV-1a test vector for the single byte "a". */
  lemma KnownAnswerA()
    ensures Fnv1a32([0x61]) == 0xe40c292c
  {
    assert Fnv1a32([0x61]) == HashFrom([], Step(OffsetBasis, 0x61));
  }

  /** Index of the terminating NUL of a C string held in `s`, i.e. `strlen`. */
  function Strlen(s: seq<i8>): (n: nat)
    requires 0 in s
    ensures n < |s| && s[n] == 0
    ensures forall i :: 0 <= i < n ==> s[i] != 0
    decreases |s|
  {
    if s[0] == 0 then 0 else 1 + Strlen(s[1..])
  }

  /** The bytes a run of `char`s occupies in memory. */
  function CharBytes(s: seq<i8>): (r: seq<u8>)
    ensures |r| == |s|
    ensures forall i :: 0 <= i < |s| ==> r[i] == CharByte(s[i])
  {
    seq(|s|, i requires 0 <= i < |s| => CharByte(s[i]))
  }

  /**
   * The runtime's hash over the NUL-terminated string held in `str`: one
   * round per `char` before the terminator, each round xoring in the
   * `char` masked with `0xff` and wrapping the product at 32 bits. It agrees
   * with the catalogue compiler's hash of the string's bytes.
   */
  method CppFnv1a32(str: seq<i8>) returns (hval: u32)
    requires 0 in str
    ensures hval == Fnv1a32(CharBytes(str[..Strlen(str)]))
  {
    var len := Strlen(str);
    hval := OffsetBasis;
    var i := 0;
    while i < len
      invariant 0 <= i <= len
      invariant hval == Fnv1a32(CharBytes(str[..i]))
    {
      var b: u8 := (str[i] as int) % 0x100;
      ghost var before := hval;
      hval := Xor(hval, b);
      hval := (hval * Prime) % TwoTo32;
      assert hval == Step(before, CharByte(str[i]));
      assert CharBytes(str[..i + 1]) == CharBytes(str[..i]) + [CharByte(str[i])];
      HashFromSnoc(CharBytes(str[..i]), CharByte(str[i]), OffsetBasis);
      i := i + 1;
    }
  }
}
