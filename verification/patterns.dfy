/**
 * The byte patterns the bypass scans for, with the offsets it adds to a
 * match, and the facts that make those offsets meaningful: each offset
 * lands on the instruction or operand the bypass then reads or rewrites.
 */
module Patterns {
  import opened Bytes
  import opened Scanner

  /** A wildcard token, written `?` in the source's pattern strings. */
  const W: Token := Wild

  /** A pattern and the offset from a match to the interesting instruction or operand. */
  datatype IntegrityCheckPattern = IntegrityCheckPattern(pat: Pattern, offset: nat)

  // ---- RE3: stores to the integrity-check flag -------------------------------------------------

  /** `48 ? ? 18 00 41 ? ? ? 88 0D ? ? ? ?`, offset 11 */
  const Re3A: IntegrityCheckPattern := IntegrityCheckPattern(
    [Exact(0x48), W, W, Exact(0x18), Exact(0x00), Exact(0x41), W, W, W, Exact(0x88), Exact(0x0D), W, W, W, W], 11)
  /** `48 ? ? 18 00 0F ? ? 88 0D ? ? ? ? 49 ? ? ? 48`, offset 10 */
  const Re3B: IntegrityCheckPattern := IntegrityCheckPattern(
    [Exact(0x48), W, W, Exact(0x18), Exact(0x00), Exact(0x0F), W, W, Exact(0x88), Exact(0x0D), W, W, W, W,
     Exact(0x49), W, W, W, Exact(0x48)], 10)
  const Re3Patterns: seq<IntegrityCheckPattern> := [Re3A, Re3B]

  // ---- RE8: `ja` instructions that skip the checksum checks ------------------------------------

  /** `29 c8 0f 87 ? ? ? ? 8b 84`, offset 2 */
  const Re8A: IntegrityCheckPattern := IntegrityCheckPattern(
    [Exact(0x29), Exact(0xC8), Exact(0x0F), Exact(0x87), W, W, W, W, Exact(0x8B), Exact(0x84)], 2)
  /** `29 c8 0f 87 ? ? ? ? 31 C0 2B`, offset 2 */
  const Re8B: IntegrityCheckPattern := IntegrityCheckPattern(
    [Exact(0x29), Exact(0xC8), Exact(0x0F), Exact(0x87), W, W, W, W, Exact(0x31), Exact(0xC0), Exact(0x2B)], 2)
  /** `8b 84 ? ? ? ? ? 29 c8 0f 87 ? ? ? ?`, offset 9 */
  const Re8C: IntegrityCheckPattern := IntegrityCheckPattern(
    [Exact(0x8B), Exact(0x84), W, W, W, W, W, Exact(0x29), Exact(0xC8), Exact(0x0F), Exact(0x87), W, W, W, W], 9)
  const Re8Patterns: seq<IntegrityCheckPattern> := [Re8A, Re8B, Re8C]

  // ---- RE8 at startup ---------------------------------------------------------------------------

  /** The immediate of `sub rax, 128E329h`, as it lies in memory. */
  const SussyConstant: u32 := 0x128E329
  /** The four bytes of `SussyConstant` as a pattern (`scan_data` for the constant). */
  const SussyPattern: Pattern := ExactPattern(LE32(SussyConstant))
  /** `E8 ? ? ? ? 3D F2 01 00 00 0F 84 ? ? ? ? 48 8D 0D ? ? ? ? E8` */
  const Sussy2: Pattern :=
    [Exact(0xE8), W, W, W, W, Exact(0x3D), Exact(0xF2), Exact(0x01), Exact(0x00), Exact(0x00), Exact(0x0F), Exact(0x84),
     W, W, W, W, Exact(0x48), Exact(0x8D), Exact(0x0D), W, W, W, W, Exact(0xE8)]
  /** `8D ? 02 E8 ? ? ? ? 0F B6 C8 48 ? ? 50 48 ? ? 18 0F`, and its variant with `05` for `02` */
  function Sussy3(index: u8): Pattern {
    [Exact(0x8D), W, Exact(index), Exact(0xE8), W, W, W, W, Exact(0x0F), Exact(0xB6), Exact(0xC8), Exact(0x48), W, W,
     Exact(0x50), Exact(0x48), W, W, Exact(0x18), Exact(0x0F)]
  }
  /** `72 ? 41 8B ? E8 ? ? ? ? 0F B6 C8 48 ? ? 50 48 ? ? 18 0F` */
  const Sussy4: Pattern :=
    [Exact(0x72), W, Exact(0x41), Exact(0x8B), W, Exact(0xE8), W, W, W, W, Exact(0x0F), Exact(0xB6), Exact(0xC8),
     Exact(0x48), W, W, Exact(0x50), Exact(0x48), W, W, Exact(0x18), Exact(0x0F)]
  /** Offset of the call displacement in `Sussy3` matches. */
  const Sussy3CallOffset: nat := 4
  /** Offset of the call displacement in `Sussy4` matches. */
  const Sussy4CallOffset: nat := 6

  // ---- RE4 --------------------------------------------------------------------------------------

  /** `48 8B 8D D0 03 00 00 48 29 C1 75 ?`; the `jnz` is at offset 10. */
  const Re4Primary: Pattern :=
    [Exact(0x48), Exact(0x8B), Exact(0x8D), Exact(0xD0), Exact(0x03), Exact(0x00), Exact(0x00), Exact(0x48), Exact(0x29),
     Exact(0xC1), Exact(0x75), W]
  const Re4PrimaryJnz: nat := 10
  /** `88 85 92 01 00 00` (`mov [rbp+192h], al`), the anchor of the fallbacks. */
  const Re4Anchor: Pattern := [Exact(0x88), Exact(0x85), Exact(0x92), Exact(0x01), Exact(0x00), Exact(0x00)]
  /** `75 ? 50 F7 D0`, searched backwards from the anchor. */
  const Re4ShortJnz: Pattern := [Exact(0x75), W, Exact(0x50), Exact(0xF7), Exact(0xD0)]
  /** How far back from the anchor the reverse scan looks. */
  const Re4ReverseWindow: nat := 0x100

  // ---- DD2 --------------------------------------------------------------------------------------

  /** `41 8B ? ? 78 83 ? 07 ? ? 75 ?`; the `jnz` is at offset 10. */
  const Dd2First: Pattern :=
    [Exact(0x41), Exact(0x8B), W, W, Exact(0x78), Exact(0x83), W, Exact(0x07), W, W, Exact(0x75), W]
  const Dd2FirstJnz: nat := 10
  /** `49 3B D0 75 ? ? 8B ? ? ? ? ? ? 8B ? ? ? ? ? ? 8B ? ? 8B ? ? ? ? ?`; the `jnz` is at offset 3. */
  const Dd2Second: Pattern :=
    [Exact(0x49), Exact(0x3B), Exact(0xD0), Exact(0x75), W, W, Exact(0x8B), W, W, W, W, W, W, Exact(0x8B), W, W, W, W,
     W, W, Exact(0x8B), W, W, Exact(0x8B), W, W, W, W, W]
  const Dd2SecondJnz: nat := 3
  /** The UTF-16LE text `/natives/` between two NUL characters. */
  const NativesString: seq<u8> :=
    [0x00, 0x00, 0x2F, 0x00, 0x6E, 0x00, 0x61, 0x00, 0x74, 0x00, 0x69, 0x00, 0x76, 0x00, 0x65, 0x00, 0x73, 0x00,
     0x2F, 0x00, 0x00, 0x00]
  /** Offset of the leading `/` in a `NativesString` match. */
  const NativesSlash: nat := 2

  /** `48 89 11 48 c7 04 24 00 00 00 00 48 81 c4 28 01 00 00`, the stack destroyer. */
  const StackDestroyer: Pattern :=
    [Exact(0x48), Exact(0x89), Exact(0x11), Exact(0x48), Exact(0xC7), Exact(0x04), Exact(0x24), Exact(0x00), Exact(0x00),
     Exact(0x00), Exact(0x00), Exact(0x48), Exact(0x81), Exact(0xC4), Exact(0x28), Exact(0x01), Exact(0x00), Exact(0x00)]

  // ---- where the offsets land -------------------------------------------------------------------

  /** The offset lands on `0F 87` followed by a four-byte wildcard displacement: a near `ja`. */
  predicate JaSite(p: IntegrityCheckPattern) {
    && p.offset + 6 <= |p.pat|
    && p.pat[p.offset] == Exact(0x0F) && p.pat[p.offset + 1] == Exact(0x87)
  }

  /** The offset lands on the displacement of `mov [rip+disp32], cl` (`88 0D`). */
  predicate FlagStoreSite(p: IntegrityCheckPattern) {
    && 2 <= p.offset && p.offset + 4 <= |p.pat|
    && p.pat[p.offset - 2] == Exact(0x88) && p.pat[p.offset - 1] == Exact(0x0D)
  }

  /** Offset `o` of `pat` lands on a short `jnz` (`75 rel8`). */
  predicate JnzSite(pat: Pattern, o: nat) {
    o + 2 <= |pat| && pat[o] == Exact(0x75)
  }

  /** Offset `o` of `pat` lands on the displacement of a `call rel32` (`E8`). */
  predicate CallSite(pat: Pattern, o: nat) {
    1 <= o && o + 4 <= |pat| && pat[o - 1] == Exact(0xE8)
  }

  /** Every RE8 offset lands on a near `ja` and every RE3 offset on a flag store. */
  lemma TablesLand()
    ensures forall i :: 0 <= i < |Re8Patterns| ==> JaSite(Re8Patterns[i])
    ensures forall i :: 0 <= i < |Re3Patterns| ==> FlagStoreSite(Re3Patterns[i])
  {
  }

  /** The `jnz` offsets of RE4 and DD2 land on `75`, and the call offsets of sussy 3 and 4 on a call displacement. */
  lemma OffsetsLand()
    ensures JnzSite(Re4Primary, Re4PrimaryJnz) && JnzSite(Re4ShortJnz, 0)
    ensures JnzSite(Dd2First, Dd2FirstJnz) && JnzSite(Dd2Second, Dd2SecondJnz)
    ensures CallSite(Sussy3(0x02), Sussy3CallOffset) && CallSite(Sussy3(0x05), Sussy3CallOffset)
    ensures CallSite(Sussy4, Sussy4CallOffset)
    ensures NativesString[NativesSlash] == 0x2F && NativesString[NativesSlash + 1] == 0x00
  {
  }

  /** In a match of a `ja` pattern the offset addresses a near `ja` whose displacement lies in the image. */
  lemma JaInMatch(mem: seq<u8>, at: nat, p: IntegrityCheckPattern)
    requires JaSite(p) && MatchesAt(mem, at, p.pat)
    ensures at + p.offset + 6 <= |mem|
    ensures mem[at + p.offset] == 0x0F && mem[at + p.offset + 1] == 0x87
  {
    assert TokenMatches(p.pat[p.offset], mem[at + p.offset]);
    assert TokenMatches(p.pat[p.offset + 1], mem[at + p.offset + 1]);
  }

  /** In a match of a flag pattern the offset addresses the displacement of `mov [rip+disp32], cl`. */
  lemma FlagInMatch(mem: seq<u8>, at: nat, p: IntegrityCheckPattern)
    requires FlagStoreSite(p) && MatchesAt(mem, at, p.pat)
    ensures at + p.offset + 4 <= |mem|
    ensures mem[at + p.offset - 2] == 0x88 && mem[at + p.offset - 1] == 0x0D
  {
    assert TokenMatches(p.pat[p.offset - 2], mem[at + p.offset - 2]);
    assert TokenMatches(p.pat[p.offset - 1], mem[at + p.offset - 1]);
  }

  /** In a match, a `jnz` site addresses a short `jnz` whose displacement lies in the image. */
  lemma JnzInMatch(mem: seq<u8>, at: nat, pat: Pattern, o: nat)
    requires JnzSite(pat, o) && MatchesAt(mem, at, pat)
    ensures at + o + 2 <= |mem| && mem[at + o] == 0x75
  {
    assert TokenMatches(pat[o], mem[at + o]);
  }

  /** In a match, a call site addresses the displacement of a `call`, so the absolute address is the call's target. */
  lemma CallInMatch(mem: seq<u8>, at: nat, pat: Pattern, o: nat)
    requires CallSite(pat, o) && MatchesAt(mem, at, pat)
    ensures at + o + 4 <= |mem| && mem[at + o - 1] == 0xE8
  {
    assert TokenMatches(pat[o - 1], mem[at + o - 1]);
  }
}
