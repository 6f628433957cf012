/**
 * The x86-64 relative branches the bypass rewrites, their targets, and the
 * rewrites themselves: a near conditional jump turned into a near jump with
 * the same target, and a short conditional jump turned into a short jump by
 * replacing its opcode.
 */
module X86 {
  import opened Wrappers
  import opened Bytes

  /** A relative branch; `cc` is the condition code, `rel` the signed displacement. */
  datatype Branch =
    | ShortJcc(cc: nat, rel: int)   // 7x rel8
    | NearJcc(cc: nat, rel: int)    // 0F 8x rel32
    | ShortJmp(rel: int)            // EB rel8
    | NearJmp(rel: int)             // E9 rel32

  /** Condition code 7 (`ja`, above). */
  const Above: nat := 7
  /** Condition code 5 (`jnz`, not zero). */
  const NotZero: nat := 5

  /** Encoded length of a branch. */
  function Length(b: Branch): nat {
    match b
    case ShortJcc(_, _) => 2
    case NearJcc(_, _) => 6
    case ShortJmp(_) => 2
    case NearJmp(_) => 5
  }

  /** A branch taken whatever the flags. */
  predicate Unconditional(b: Branch) {
    b.ShortJmp? || b.NearJmp?
  }

  /** Where a branch at `at` goes when taken: the end of the instruction plus the displacement. */
  function Target(at: int, b: Branch): int {
    at + Length(b) + b.rel
  }

  /** Decodes the relative branch at the start of `code`, if there is one. */
  function Decode(code: seq<u8>): (r: Option<Branch>)
    ensures r.Some? ==> Length(r.value) <= |code|
  {
    if |code| >= 2 && 0x70 <= code[0] < 0x80 then Some(ShortJcc(code[0] - 0x70, Sext8(code[1])))
    else if |code| >= 2 && code[0] == 0xEB then Some(ShortJmp(Sext8(code[1])))
    else if |code| >= 5 && code[0] == 0xE9 then Some(NearJmp(Sext32(ReadLE32(code, 1))))
    else if |code| >= 6 && code[0] == 0x0F && 0x80 <= code[1] < 0x90 then Some(NearJcc(code[1] - 0x80, Sext32(ReadLE32(code, 2))))
    else None
  }

  /**
   * The six bytes that replace a near conditional jump with displacement
   * `d`: `E9`, the displacement plus one (wrapping at 32 bits) because the
   * unconditional form is one byte shorter, and a `nop` to keep the length.
   */
  function JccToJmp(d: u32): (r: seq<u8>)
    ensures |r| == 6 && r[0] == 0xE9 && r[5] == 0x90
    ensures r[1..5] == LE32((d + 1) % TwoTo32)
  {
    [0xE9] + LE32((d + 1) % TwoTo32) + [0x90]
  }

  /**
   * A near conditional jump rewritten by `JccToJmp` becomes a near jump of
   * the same length whose target agrees with the original modulo 2^32, and
   * agrees exactly unless the displacement is the largest positive one.
   */
  lemma JccToJmpKeepsTarget(code: seq<u8>, at: int)
    requires |code| >= 6 && code[0] == 0x0F && 0x80 <= code[1] < 0x90
    ensures var d := ReadLE32(code, 2);
      && Decode(JccToJmp(d)).Some? && Unconditional(Decode(JccToJmp(d)).value)
      && Length(Decode(JccToJmp(d)).value) + 1 == Length(Decode(code).value)
      && (Target(at, Decode(JccToJmp(d)).value) - Target(at, Decode(code).value)) % TwoTo32 == 0
      && (Target(at, Decode(JccToJmp(d)).value) == Target(at, Decode(code).value) <==> d != 0x7FFF_FFFF)
  {
    var d := ReadLE32(code, 2);
    var e := (d + 1) % TwoTo32;
    var r := JccToJmp(d);
    ReadLE32Written(r, 1, e);
    assert Decode(r) == Some(NearJmp(Sext32(e)));
    assert Decode(code) == Some(NearJcc(code[1] - 0x80, Sext32(d)));
    SextSucc(d);
  }

  /** Adding one to a 32-bit displacement adds one to its signed value, except at the top of the range. */
  lemma SextSucc(d: u32)
    ensures (Sext32((d + 1) % TwoTo32) - Sext32(d) - 1) % TwoTo32 == 0
    ensures Sext32((d + 1) % TwoTo32) == Sext32(d) + 1 <==> d != 0x7FFF_FFFF
  {
    if d == 0xFFFF_FFFF {
      assert (d + 1) % TwoTo32 == 0;
    } else {
      assert (d + 1) % TwoTo32 == d + 1;
    }
  }

  /** A short conditional jump with its opcode replaced by `EB` (`jnz` becomes `jmp`). */
  function ShortJccToJmp(code: seq<u8>): (r: seq<u8>)
    requires |code| >= 2
    ensures |r| == |code| && r[0] == 0xEB && r[1..] == code[1..]
  {
    [0xEB] + code[1..]
  }

  /** Replacing a short conditional jump's opcode by `EB` keeps its length, displacement and target. */
  lemma ShortJccToJmpKeepsTarget(code: seq<u8>, at: int)
    requires |code| >= 2 && 0x70 <= code[0] < 0x80
    ensures Decode(ShortJccToJmp(code)) == Some(ShortJmp(Decode(code).value.rel))
    ensures Target(at, Decode(ShortJccToJmp(code)).value) == Target(at, Decode(code).value)
  {
    var r := ShortJccToJmp(code);
    assert r[1] == code[1];
  }
}
