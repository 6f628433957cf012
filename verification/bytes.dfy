/**
 * Fixed-width integers and little-endian byte layouts.
 *
 * Machine integers are unbounded `int`s restricted to their range; every
 * wrap-around in the modelled code is written out with `%`.
 */
module Bytes {

  /** An unsigned byte (`uint8_t`). */
  type u8 = x: int | 0 <= x < 0x100
  /** A signed `char`, as MSVC compiles `char` for x86. */
  type i8 = x: int | -0x80 <= x < 0x80
  /** `uint16_t` */
  type u16 = x: int | 0 <= x < 0x1_0000
  /** `int16_t`, the element type of a code patch. */
  type i16 = x: int | -0x8000 <= x < 0x8000
  /** `uint32_t`, also the bit pattern of an `NTSTATUS` or a `DWORD`. */
  type u32 = x: int | 0 <= x < 0x1_0000_0000

  const TwoTo32: int := 0x1_0000_0000

  /** Bitwise exclusive or of a 32-bit word with a byte. */
  function Xor(h: u32, b: u8): u32 {
    ((h as bv32) ^ (b as bv32)) as int
  }

  /** The two bytes of `v` in little-endian order (`int.to_bytes(2, 'little')`). */
  function LE16(v: u16): (r: seq<u8>)
    ensures |r| == 2
  {
    [v % 0x100, v / 0x100]
  }

  /** The four bytes of `v` in little-endian order (`int.to_bytes(4, 'little')`). */
  function LE32(v: u32): (r: seq<u8>)
    ensures |r| == 4
  {
    [v % 0x100, (v / 0x100) % 0x100, (v / 0x1_0000) % 0x100, v / 0x100_0000]
  }

  /** The `uint16_t` stored little-endian at `s[at]`, `s[at + 1]`. */
  function ReadLE16(s: seq<u8>, at: nat): u16
    requires at + 2 <= |s|
  {
    s[at] as int + 0x100 * s[at + 1] as int
  }

  /** The `uint32_t` stored little-endian at `s[at] .. s[at + 3]`. */
  function ReadLE32(s: seq<u8>, at: nat): u32
    requires at + 4 <= |s|
  {
    s[at] as int + 0x100 * s[at + 1] as int + 0x1_0000 * s[at + 2] as int + 0x100_0000 * s[at + 3] as int
  }

  /** Reading back a 16-bit value written little-endian gives the value. */
  lemma ReadLE16Written(s: seq<u8>, at: nat, v: u16)
    requires at + 2 <= |s| && s[at..at + 2] == LE16(v)
    ensures ReadLE16(s, at) == v
  {
    assert s[at] == s[at..at + 2][0] && s[at + 1] == s[at..at + 2][1];
  }

  /** Reading back a 32-bit value written little-endian gives the value. */
  lemma ReadLE32Written(s: seq<u8>, at: nat, v: u32)
    requires at + 4 <= |s| && s[at..at + 4] == LE32(v)
    ensures ReadLE32(s, at) == v
  {
    var w := s[at..at + 4];
    assert s[at] == w[0] && s[at + 1] == w[1] && s[at + 2] == w[2] && s[at + 3] == w[3];
    var q1 := v / 0x100;
    var q2 := v / 0x1_0000;
    assert v == v % 0x100 + 0x100 * q1;
    assert q1 == q1 % 0x100 + 0x100 * (q1 / 0x100);
    assert q1 / 0x100 == q2;
    assert q2 == q2 % 0x100 + 0x100 * (q2 / 0x100);
    assert q2 / 0x100 == v / 0x100_0000;
  }

  /** The signed value of an 8-bit two's-complement pattern. */
  function Sext8(b: u8): int {
    if b < 0x80 then b else b - 0x100
  }

  /** The signed value of a 32-bit two's-complement pattern (`int32_t`). */
  function Sext32(v: u32): int {
    if v < 0x8000_0000 then v else v - TwoTo32
  }

  /** The byte a signed `char` occupies in memory, i.e. `c & 0xff` in two's complement. */
  function CharByte(c: i8): u8 {
    (c as int) % 0x100
  }
}

/** Slices of concatenations, used by every layout proof. */
module Slices {

  /** A slice inside the right operand of `a + b` is a slice of `b`. */
  lemma SliceRight<T>(a: seq<T>, b: seq<T>, x: int, y: int)
    requires |a| <= x <= y <= |a| + |b|
    ensures (a + b)[x..y] == b[x - |a|..y - |a|]
  {
  }

  /** A slice inside the left operand of `a + b` is a slice of `a`. */
  lemma SliceLeft<T>(a: seq<T>, b: seq<T>, x: int, y: int)
    requires 0 <= x <= y <= |a|
    ensures (a + b)[x..y] == a[x..y]
  {
  }
}
