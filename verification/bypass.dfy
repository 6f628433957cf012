/**
 * The integrity-check bypass: which code it rewrites, and with what.
 *
 * Every operation reads the unpatched module image `mem` and returns the
 * patches it creates; a patch writes its bytes at its address. Helpers
 * the source calls but that are not part of this model (the disassembler,
 * function-start search, instruction resolution) are parameters.
 */
module Bypass {
  import opened Wrappers
  import opened Bytes
  import opened Scanner
  import opened Patterns
  import X86

  /** A code patch: `bytes` written over the image at `addr` (`Patch::create`). */
  datatype Patch = Patch(addr: int, bytes: seq<u8>)

  /** A patch lies inside the image. */
  predicate Fits(mem: seq<u8>, p: Patch) {
    0 <= p.addr && p.addr + |p.bytes| <= |mem|
  }

  /** The image after writing a patch. */
  function Apply(mem: seq<u8>, p: Patch): (r: seq<u8>)
    requires Fits(mem, p)
    ensures |r| == |mem| && r[p.addr..p.addr + |p.bytes|] == p.bytes
    ensures forall i :: 0 <= i < |mem| && !(p.addr <= i < p.addr + |p.bytes|) ==> r[i] == mem[i]
  {
    mem[..p.addr] + p.bytes + mem[p.addr + |p.bytes|..]
  }

  /** Patch bytes widened to the `int16_t` elements `Patch::create` takes. */
  function Widen(bytes: seq<u8>): (r: seq<i16>)
    ensures |r| == |bytes|
  {
    seq(|bytes|, i requires 0 <= i < |bytes| => bytes[i] as i16)
  }

  /** Widening keeps every value a byte, so each element is written as the byte it came from. */
  lemma WidenKeepsBytes(bytes: seq<u8>)
    ensures forall i :: 0 <= i < |Widen(bytes)| ==> 0 <= Widen(bytes)[i] < 0x100
    ensures seq(|bytes|, i requires 0 <= i < |bytes| => Widen(bytes)[i] as u8) == bytes
  {
  }

  // ---- RE8: ja -> jmp over every match of every pattern -----------------------------------------

  /** The patch for the near `ja` at `ja`: the jump made unconditional, target kept. */
  function JaPatch(mem: seq<u8>, ja: int): (p: Patch)
    requires 0 <= ja && ja + 6 <= |mem|
    ensures p.addr == ja && |p.bytes| == 6 && Fits(mem, p)
  {
    Patch(ja, X86.JccToJmp(ReadLE32(mem, ja + 2)))
  }

  /** Address `addr` is the offset site of some match of some pattern. */
  ghost predicate Matched(mem: seq<u8>, patterns: seq<IntegrityCheckPattern>, addr: int) {
    exists i, a :: 0 <= i < |patterns| && MatchesAt(mem, a, patterns[i].pat) && addr == a + patterns[i].offset
  }

  /** The patches created so far and the set of patched addresses agree, with no address twice. */
  ghost predicate Recorded(patches: seq<Patch>, patched: set<int>) {
    && (forall a :: a in patched <==> exists k :: 0 <= k < |patches| && patches[k].addr == a)
    && (forall k, l :: 0 <= k < l < |patches| ==> patches[k].addr != patches[l].addr)
  }

  /** Every patch rewrites the `ja` at a match's offset site. */
  ghost predicate Sound(mem: seq<u8>, patterns: seq<IntegrityCheckPattern>, patches: seq<Patch>) {
    forall k :: 0 <= k < |patches| ==>
      0 <= patches[k].addr && patches[k].addr + 6 <= |mem| && patches[k] == JaPatch(mem, patches[k].addr) && Matched(mem, patterns, patches[k].addr)
  }

  /** Every match of pattern `q` below `bound` has its offset site patched. */
  ghost predicate CoveredBelow(mem: seq<u8>, q: IntegrityCheckPattern, bound: int, patched: set<int>) {
    forall a :: 0 <= a < bound && MatchesAt(mem, a, q.pat) ==> a + q.offset in patched
  }

  /**
   * The RE8 bypass loop: for each pattern, every match in the module, from
   * the lowest up, has the `ja` at its offset replaced by a `jmp` to the same
   * target, unless that address was already patched.
   */
  method PatchIntegrityChecks(mem: seq<u8>, patterns: seq<IntegrityCheckPattern>)
    returns (patches: seq<Patch>, patched: set<int>)
    requires forall i :: 0 <= i < |patterns| ==> JaSite(patterns[i])
    ensures Recorded(patches, patched)
    ensures Sound(mem, patterns, patches)
    ensures forall i :: 0 <= i < |patterns| ==> CoveredBelow(mem, patterns[i], |mem| + 1, patched)
  {
    patches := [];
    patched := {};
    for i := 0 to |patterns|
      invariant Recorded(patches, patched)
      invariant Sound(mem, patterns, patches)
      invariant forall j :: 0 <= j < i ==> CoveredBelow(mem, patterns[j], |mem| + 1, patched)
    {
      ghost var before := patched;
      patches, patched := PatchPattern(mem, patterns, i, patches, patched);
      forall j | 0 <= j < i ensures CoveredBelow(mem, patterns[j], |mem| + 1, patched) {
        CoveredMono(mem, patterns[j], |mem| + 1, before, patched);
      }
    }
  }

  /** The loop over the matches of one pattern (`while (integrity_check_ref)`). */
  method PatchPattern(mem: seq<u8>, patterns: seq<IntegrityCheckPattern>, i: nat, patches0: seq<Patch>, patched0: set<int>)
    returns (patches: seq<Patch>, patched: set<int>)
    requires i < |patterns| && JaSite(patterns[i])
    requires Recorded(patches0, patched0) && Sound(mem, patterns, patches0)
    ensures Recorded(patches, patched) && Sound(mem, patterns, patches)
    ensures patched0 <= patched
    ensures CoveredBelow(mem, patterns[i], |mem| + 1, patched)
  {
    var q := patterns[i];
    patches, patched := patches0, patched0;
    var ref := ScanModule(mem, q.pat);
    while ref.Some?
      invariant Recorded(patches, patched) && Sound(mem, patterns, patches)
      invariant patched0 <= patched
      invariant ref.Some? ==> MatchesAt(mem, ref.value, q.pat)
      invariant CoveredBelow(mem, q, if ref.Some? then ref.value else |mem| + 1, patched)
      decreases if ref.Some? then |mem| + 1 - ref.value else 0
    {
      var r := ref.value;
      var ja := r + q.offset;
      JaInMatch(mem, r, q);
      if ja !in patched {
        var p := JaPatch(mem, ja);
        assert Matched(mem, patterns, ja);
        RecordAdd(patches, patched, p);
        SoundAdd(mem, patterns, patches, p);
        CoveredMono(mem, q, r, patched, patched + {ja});
        patches := patches + [p];
        patched := patched + {ja};
      }
      ref := Scan(mem, r + 1, |mem| - (r + 1), q.pat);
      CoveredStep(mem, q, r, ref, patched);
    }
  }

  /** Recording a patch at a fresh address keeps the list and the set in step. */
  lemma RecordAdd(patches: seq<Patch>, patched: set<int>, p: Patch)
    requires Recorded(patches, patched) && p.addr !in patched
    ensures Recorded(patches + [p], patched + {p.addr})
  {
    var r := patches + [p];
    forall a ensures a in patched + {p.addr} <==> exists k :: 0 <= k < |r| && r[k].addr == a {
      if a in patched {
        var k :| 0 <= k < |patches| && patches[k].addr == a;
        assert r[k].addr == a;
      } else if a == p.addr {
        assert r[|patches|].addr == a;
      } else {
        forall k | 0 <= k < |r| ensures r[k].addr != a {
          if k < |patches| {
            assert r[k] == patches[k];
          }
        }
      }
    }
  }

  /** Appending the `ja` patch of a matched site keeps every patch sound. */
  lemma SoundAdd(mem: seq<u8>, patterns: seq<IntegrityCheckPattern>, patches: seq<Patch>, p: Patch)
    requires Sound(mem, patterns, patches)
    requires 0 <= p.addr && p.addr + 6 <= |mem| && p == JaPatch(mem, p.addr) && Matched(mem, patterns, p.addr)
    ensures Sound(mem, patterns, patches + [p])
  {
  }

  /** Patching more addresses never uncovers a match. */
  lemma CoveredMono(mem: seq<u8>, q: IntegrityCheckPattern, bound: int, a: set<int>, b: set<int>)
    requires CoveredBelow(mem, q, bound, a) && a <= b
    ensures CoveredBelow(mem, q, bound, b)
  {
  }

  /** Rescanning from just past a patched match keeps every match below the next one covered. */
  lemma CoveredStep(mem: seq<u8>, q: IntegrityCheckPattern, r: nat, next: Option<nat>, patched: set<int>)
    requires MatchesAt(mem, r, q.pat) && |q.pat| > 0 && r + q.offset in patched
    requires CoveredBelow(mem, q, r, patched)
    requires next == Scan(mem, r + 1, |mem| - (r + 1), q.pat)
    ensures next.Some? ==> MatchesAt(mem, next.value, q.pat)
    ensures CoveredBelow(mem, q, if next.Some? then next.value else |mem| + 1, patched)
  {
  }

  // ---- what a jump rewrite preserves ------------------------------------------------------------

  /**
   * Writing `p` over the image turns the conditional jump at its address
   * into an unconditional jump whose target agrees with the original's
   * modulo 2^32.
   */
  ghost predicate JumpKept(mem: seq<u8>, p: Patch) {
    Fits(mem, p) &&
    var before := X86.Decode(mem[p.addr..]);
    var after := X86.Decode(Apply(mem, p)[p.addr..]);
    && before.Some? && !X86.Unconditional(before.value)
    && after.Some? && X86.Unconditional(after.value)
    && (X86.Target(p.addr, after.value) - X86.Target(p.addr, before.value)) % TwoTo32 == 0
  }

  /** Writing `EB` over a short conditional jump keeps its target. */
  lemma ShortPatchKeepsJump(mem: seq<u8>, a: nat)
    requires a + 2 <= |mem| && 0x70 <= mem[a] < 0x80
    ensures JumpKept(mem, Patch(a, [0xEB]))
  {
    var p := Patch(a, [0xEB]);
    var after := Apply(mem, p)[a..];
    assert after[0] == Apply(mem, p)[a..a + 1][0] == 0xEB;
    assert after[1] == mem[a + 1];
    assert X86.Decode(mem[a..]) == Some(X86.ShortJcc(mem[a] - 0x70, Sext8(mem[a + 1])));
    assert X86.Decode(after) == Some(X86.ShortJmp(Sext8(mem[a + 1])));
  }

  /** Writing `JccToJmp` of its displacement over a near conditional jump keeps its target modulo 2^32. */
  lemma NearPatchKeepsJump(mem: seq<u8>, a: nat)
    requires a + 6 <= |mem| && mem[a] == 0x0F && 0x80 <= mem[a + 1] < 0x90
    ensures JumpKept(mem, Patch(a, X86.JccToJmp(ReadLE32(mem, a + 2))))
  {
    var d := ReadLE32(mem, a + 2);
    var code := mem[a..];
    assert ReadLE32(code, 2) == d;
    X86.JccToJmpKeepsTarget(code, a);
    var w := X86.JccToJmp(d);
    var p := Patch(a, w);
    var after := Apply(mem, p)[a..];
    assert after[..6] == w;
    assert after[0] == w[0] && after[1] == w[1] && after[2] == w[2] && after[3] == w[3] && after[4] == w[4];
    assert ReadLE32(after, 1) == ReadLE32(w, 1);
    assert X86.Decode(after) == X86.Decode(w);
  }

  /** Every patch the RE8 loop records makes its `ja` unconditional and keeps the jump target. */
  lemma Re8PatchesKeepJumps(mem: seq<u8>, patterns: seq<IntegrityCheckPattern>, patches: seq<Patch>)
    requires forall i :: 0 <= i < |patterns| ==> JaSite(patterns[i])
    requires Sound(mem, patterns, patches)
    ensures forall k :: 0 <= k < |patches| ==> JumpKept(mem, patches[k])
  {
    forall k | 0 <= k < |patches| ensures JumpKept(mem, patches[k]) {
      var i, a :| 0 <= i < |patterns| && MatchesAt(mem, a, patterns[i].pat) && patches[k].addr == a + patterns[i].offset;
      JaInMatch(mem, a, patterns[i]);
      NearPatchKeepsJump(mem, a + patterns[i].offset);
    }
  }

  // ---- RE3: the integrity-check flag ------------------------------------------------------------

  /** The address the `mov [rip+disp32], cl` in a match of flag pattern `q` stores to. */
  function FlagOf(mem: seq<u8>, q: IntegrityCheckPattern, at: nat): (r: int)
    requires FlagStoreSite(q) && MatchesAt(mem, at, q.pat)
    ensures at + q.offset + 4 <= |mem|
    ensures r == at + q.offset + 4 + Sext32(ReadLE32(mem, at + q.offset))
  {
    FlagInMatch(mem, at, q);
    CalculateAbsolute(mem, at + q.offset).value
  }

  /** Pattern `i` occurs in the image and no later pattern does. */
  predicate LastFound(mem: seq<u8>, patterns: seq<IntegrityCheckPattern>, i: int) {
    && 0 <= i < |patterns| && ScanModule(mem, patterns[i].pat).Some?
    && forall j :: i < j < |patterns| ==> ScanModule(mem, patterns[j].pat).None?
  }

  /**
   * The RE3 pattern loop: every pattern that occurs overwrites the flag
   * address with the store target at its first match, so the last pattern
   * that occurs decides; when none occurs the flag stays unset.
   */
  method LocateFlag(mem: seq<u8>, patterns: seq<IntegrityCheckPattern>) returns (flag: Option<int>)
    requires forall i :: 0 <= i < |patterns| ==> FlagStoreSite(patterns[i])
    ensures flag.None? <==> forall i, a :: 0 <= i < |patterns| ==> !MatchesAt(mem, a, patterns[i].pat)
    ensures flag.Some? ==> exists i :: (LastFound(mem, patterns, i)
      && flag.value == FlagOf(mem, patterns[i], ScanModule(mem, patterns[i].pat).value))
  {
    flag := None;
    ghost var last := -1;
    for i := 0 to |patterns|
      invariant flag.None? <==> forall j :: 0 <= j < i ==> ScanModule(mem, patterns[j].pat).None?
      invariant flag.Some? ==> 0 <= last < i && ScanModule(mem, patterns[last].pat).Some?
      invariant flag.Some? ==> forall j :: last < j < i ==> ScanModule(mem, patterns[j].pat).None?
      invariant flag.Some? ==> flag.value == FlagOf(mem, patterns[last], ScanModule(mem, patterns[last].pat).value)
    {
      var ref := ScanModule(mem, patterns[i].pat);
      if ref.Some? {
        flag := Some(FlagOf(mem, patterns[i], ref.value));
        last := i;
      }
    }
    if flag.Some? {
      assert LastFound(mem, patterns, last);
    }
  }

  // ---- RE8 at startup ---------------------------------------------------------------------------

  /** The `ret` written over a function's first byte. */
  const Return: seq<u8> := [0xC3]
  /** `mov al, 0; ret`: the function returns false at once. */
  const ReturnFalse: seq<u8> := [0xB0, 0x00, 0xC3]

  /**
   * The constant matches the sussy-1 loop visits: the first in the image,
   * then later ones that end at least 0x100 bytes before the image's end
   * (every rescan window stops 0x100 bytes short of it).
   */
  ghost predicate Sussy1Visits(mem: seq<u8>, a: int) {
    var first := ScanModule(mem, SussyPattern);
    && first.Some?
    && (a == first.value || (first.value < a && a + 4 + 0x100 <= |mem| && MatchesAt(mem, a, SussyPattern)))
  }

  /** The instruction around match `a` resolves and its function's start is found. */
  predicate Sussy1Patchable(a: nat, resolve: nat -> Option<nat>, functionStart: nat -> Option<nat>) {
    resolve(a).Some? && functionStart(resolve(a).value).Some?
  }

  /** `a` is the first visited match that is patchable. */
  ghost predicate Sussy1First(mem: seq<u8>, a: nat, resolve: nat -> Option<nat>, functionStart: nat -> Option<nat>) {
    && Sussy1Visits(mem, a) && Sussy1Patchable(a, resolve, functionStart)
    && forall b: nat :: Sussy1Visits(mem, b) && b < a ==> !Sussy1Patchable(b, resolve, functionStart)
  }

  /** At most one visited match is the first patchable one. */
  lemma Sussy1FirstUnique(mem: seq<u8>, a: nat, b: nat, resolve: nat -> Option<nat>, functionStart: nat -> Option<nat>)
    requires Sussy1First(mem, a, resolve, functionStart) && Sussy1First(mem, b, resolve, functionStart)
    ensures a == b
  {
  }

  /** What sussy 1 should make: a `ret` at the function of the first patchable visited match, if any. */
  ghost function Sussy1Result(mem: seq<u8>, resolve: nat -> Option<nat>, functionStart: nat -> Option<nat>): Option<Patch> {
    if exists a: nat :: Sussy1First(mem, a, resolve, functionStart) then
      var a: nat :| Sussy1First(mem, a, resolve, functionStart);
      Some(Patch(functionStart(resolve(a).value).value, Return))
    else None
  }

  /**
   * Sussy 1: walk the matches of the constant in address order and make the
   * function containing the first one that resolves return at once. A match
   * whose instruction does not resolve, or whose function start is not found,
   * is skipped.
   */
  method PatchSussy1(mem: seq<u8>, resolve: nat -> Option<nat>, functionStart: nat -> Option<nat>)
    returns (p: Option<Patch>)
    ensures p.Some? <==> exists a: nat :: Sussy1Visits(mem, a) && Sussy1Patchable(a, resolve, functionStart)
    ensures p.Some? ==> exists a: nat ::
      Sussy1First(mem, a, resolve, functionStart) && p.value == Patch(functionStart(resolve(a).value).value, Return)
    ensures p == Sussy1Result(mem, resolve, functionStart)
  {
    var ref := ScanModule(mem, SussyPattern);
    while ref.Some?
      invariant ref.Some? ==> Sussy1Visits(mem, ref.value) && MatchesAt(mem, ref.value, SussyPattern)
      invariant forall b: nat :: Sussy1Visits(mem, b) && (ref.None? || b < ref.value) ==> !Sussy1Patchable(b, resolve, functionStart)
      decreases if ref.Some? then |mem| + 1 - ref.value else 0
    {
      var r := ref.value;
      var ins := resolve(r);
      if ins.Some? {
        var start := functionStart(ins.value);
        if start.Some? {
          p := Some(Patch(start.value, Return));
          assert Sussy1First(mem, r, resolve, functionStart);
          Sussy1Pick(mem, r, resolve, functionStart);
          return;
        }
      }
      var rest := |mem| - (r + 1);
      ref := Scan(mem, r + 1, if rest >= 0x100 then rest - 0x100 else 0, SussyPattern);
    }
    return None;
  }

  /** The first patchable visited match decides what sussy 1 should make. */
  lemma Sussy1Pick(mem: seq<u8>, a: nat, resolve: nat -> Option<nat>, functionStart: nat -> Option<nat>)
    requires Sussy1First(mem, a, resolve, functionStart)
    ensures Sussy1Result(mem, resolve, functionStart) == Some(Patch(functionStart(resolve(a).value).value, Return))
  {
    var c: nat :| Sussy1First(mem, c, resolve, functionStart);
    Sussy1FirstUnique(mem, a, c, resolve, functionStart);
  }

  /** Sussy 2: the function containing the first `ProtectionTripResult` call site returns at once. */
  function PatchSussy2(mem: seq<u8>, functionStart: nat -> Option<nat>): (p: Option<Patch>)
    ensures p.Some? <==> exists a: nat :: FirstMatch(mem, a, Sussy2) && functionStart(a).Some?
    ensures p.Some? ==> exists a: nat :: FirstMatch(mem, a, Sussy2) && p.value == Patch(functionStart(a).value, Return)
    ensures p.Some? ==> p.value.bytes == Return
  {
    match ScanModule(mem, Sussy2)
    case None => None
    case Some(a) => if functionStart(a).Some? then Some(Patch(functionStart(a).value, Return)) else None
  }

  /** The target of the `call rel32` at `c`. */
  function CallTarget(mem: seq<u8>, c: nat): int
    requires c + 5 <= |mem|
  {
    c + 5 + Sext32(ReadLE32(mem, c + 1))
  }

  /** The callee of the `call` at offset `o - 1` of the first match of `pat`, made to return false. */
  function PatchCallee(mem: seq<u8>, pat: Pattern, o: nat): (p: Option<Patch>)
    requires CallSite(pat, o)
    ensures p.Some? <==> exists a :: MatchesAt(mem, a, pat)
    ensures p.Some? ==> exists a: nat :: (FirstMatch(mem, a, pat) && mem[a + o - 1] == 0xE8
      && p.value == Patch(CallTarget(mem, a + o - 1), ReturnFalse))
  {
    match ScanModule(mem, pat)
    case None => None
    case Some(a) =>
      CallInMatch(mem, a, pat, o);
      Some(Patch(CalculateAbsolute(mem, a + o).value, ReturnFalse))
  }

  /** Sussy 3: the callee found by the `02` pattern, or when that does not occur, by the `05` one. */
  function PatchSussy3(mem: seq<u8>): (p: Option<Patch>)
    ensures (exists a :: MatchesAt(mem, a, Sussy3(0x02))) ==> exists a: nat ::
      FirstMatch(mem, a, Sussy3(0x02)) && p == Some(Patch(CallTarget(mem, a + 3), ReturnFalse))
    ensures (forall a :: !MatchesAt(mem, a, Sussy3(0x02))) ==>
      && (p.Some? <==> exists a :: MatchesAt(mem, a, Sussy3(0x05)))
      && (p.Some? ==> exists a: nat :: FirstMatch(mem, a, Sussy3(0x05)) && p.value == Patch(CallTarget(mem, a + 3), ReturnFalse))
    ensures p.Some? ==> p.value.bytes == ReturnFalse
  {
    OffsetsLand();
    var primary := PatchCallee(mem, Sussy3(0x02), Sussy3CallOffset);
    if primary.Some? then primary else PatchCallee(mem, Sussy3(0x05), Sussy3CallOffset)
  }

  /** Sussy 4: the callee of the call in the first match of the fourth pattern. */
  function PatchSussy4(mem: seq<u8>): (p: Option<Patch>)
    ensures p.Some? <==> exists a :: MatchesAt(mem, a, Sussy4)
    ensures p.Some? ==> exists a: nat :: FirstMatch(mem, a, Sussy4) && p.value == Patch(CallTarget(mem, a + 5), ReturnFalse)
    ensures p.Some? ==> p.value.bytes == ReturnFalse
  {
    OffsetsLand();
    PatchCallee(mem, Sussy4, Sussy4CallOffset)
  }

  /** How many of the steps made a patch. */
  function Made(steps: seq<Option<Patch>>): nat
    decreases |steps|
  {
    if |steps| == 0 then 0 else (if steps[0].Some? then 1 else 0) + Made(steps[1..])
  }

  /**
   * `r` lists the patches of the steps that made one: exactly those
   * patches, as many as there are, and any two in the order of their steps.
   */
  ghost predicate Lists(r: seq<Patch>, steps: seq<Option<Patch>>) {
    && |r| == Made(steps)
    && (forall x :: x in r <==> Some(x) in steps)
    && (forall i, j :: 0 <= i < j < |steps| && steps[i].Some? && steps[j].Some? ==>
          InOrder(r, steps[i].value, steps[j].value))
  }

  /** `x` occurs in `r` before an occurrence of `y`. */
  ghost predicate InOrder(r: seq<Patch>, x: Patch, y: Patch) {
    exists k, l :: 0 <= k < l < |r| && r[k] == x && r[l] == y
  }

  /** A patch in front of a list comes before every patch of the list. */
  lemma FrontInOrder(x: Patch, rest: seq<Patch>, y: Patch)
    requires y in rest
    ensures InOrder([x] + rest, x, y)
  {
    var l :| 0 <= l < |rest| && rest[l] == y;
    assert ([x] + rest)[0] == x && ([x] + rest)[l + 1] == y;
  }

  /** Putting a patch in front of a list keeps the order of the list's patches. */
  lemma ConsInOrder(p: Patch, rest: seq<Patch>, x: Patch, y: Patch)
    requires InOrder(rest, x, y)
    ensures InOrder([p] + rest, x, y)
  {
    var k, l :| 0 <= k < l < |rest| && rest[k] == x && rest[l] == y;
    assert ([p] + rest)[k + 1] == x && ([p] + rest)[l + 1] == y;
  }

  /** The patches of the steps that made one, in step order. */
  function Present(steps: seq<Option<Patch>>): (r: seq<Patch>)
    ensures |r| <= |steps|
    ensures |steps| > 0 && steps[|steps| - 1].Some? ==> |r| > 0 && r[|r| - 1] == steps[|steps| - 1].value
    ensures |steps| > 0 && steps[0].Some? ==> |r| > 0 && r[0] == steps[0].value
    decreases |steps|
  {
    if |steps| == 0 then []
    else if steps[0].Some? then [steps[0].value] + Present(steps[1..])
    else Present(steps[1..])
  }

  /** `Present` keeps exactly the patches made, one per step that made one, in step order. */
  lemma PresentLists(steps: seq<Option<Patch>>)
    ensures Lists(Present(steps), steps)
  {
    PresentCount(steps);
    PresentHas(steps);
    PresentOrder(steps);
  }

  /** `Present` keeps one patch per step that made one. */
  lemma {:induction false} PresentCount(steps: seq<Option<Patch>>)
    ensures |Present(steps)| == Made(steps)
    decreases |steps|
  {
    if |steps| > 0 {
      PresentCount(steps[1..]);
    }
  }

  /** `Present` keeps exactly the patches the steps made. */
  lemma {:induction false} PresentHas(steps: seq<Option<Patch>>)
    ensures forall x :: x in Present(steps) <==> Some(x) in steps
    decreases |steps|
  {
    if |steps| > 0 {
      PresentHas(steps[1..]);
      assert steps == [steps[0]] + steps[1..];
      PresentMembers(steps[0], steps[1..], Present(steps[1..]), Present(steps));
    }
  }

  /** `Present` keeps the patches of any two steps in the order of the steps. */
  lemma {:induction false} PresentOrder(steps: seq<Option<Patch>>)
    ensures forall i, j :: 0 <= i < j < |steps| && steps[i].Some? && steps[j].Some? ==>
      InOrder(Present(steps), steps[i].value, steps[j].value)
    decreases |steps|
  {
    if |steps| > 0 {
      var tail := steps[1..];
      PresentOrder(tail);
      PresentHas(tail);
      var rest := Present(tail);
      forall i, j | 0 <= i < j < |steps| && steps[i].Some? && steps[j].Some?
        ensures InOrder(Present(steps), steps[i].value, steps[j].value)
      {
        assert steps[j] == tail[j - 1];
        if i == 0 {
          assert Some(steps[j].value) in tail;
          FrontInOrder(steps[0].value, rest, steps[j].value);
        } else {
          assert steps[i] == tail[i - 1];
          assert InOrder(rest, steps[i].value, steps[j].value);
          if steps[0].Some? {
            ConsInOrder(steps[0].value, rest, steps[i].value, steps[j].value);
          }
        }
      }
    }
  }

  /** Putting the first step's patch, if any, in front of the rest's keeps membership exact. */
  lemma PresentMembers(first: Option<Patch>, tail: seq<Option<Patch>>, rest: seq<Patch>, r: seq<Patch>)
    requires forall x :: x in rest <==> Some(x) in tail
    requires r == if first.Some? then [first.value] + rest else rest
    ensures forall x :: x in r <==> Some(x) in [first] + tail
  {
    assert forall x :: Some(x) in [first] + tail <==> first == Some(x) || Some(x) in tail;
  }

  /** The four RE8 startup steps, each a patch when it finds its site. */
  ghost function Re8Steps(mem: seq<u8>, resolve: nat -> Option<nat>, functionStart: nat -> Option<nat>): seq<Option<Patch>> {
    [Sussy1Result(mem, resolve, functionStart), PatchSussy2(mem, functionStart), PatchSussy3(mem), PatchSussy4(mem)]
  }

  /**
   * The startup patches of RE8, in the order they are made: sussy 1 to 4.
   * Each makes a function return at once, and every step that finds its
   * site contributes its patch, whatever the other steps found.
   */
  method ImmediatePatchRe8(mem: seq<u8>, resolve: nat -> Option<nat>, functionStart: nat -> Option<nat>)
    returns (patches: seq<Patch>)
    ensures Lists(patches, Re8Steps(mem, resolve, functionStart))
    ensures |patches| <= 4
    ensures forall k :: 0 <= k < |patches| ==> patches[k].bytes == Return || patches[k].bytes == ReturnFalse
    ensures (exists a :: MatchesAt(mem, a, Sussy4)) ==> |patches| > 0 && exists a: nat ::
      FirstMatch(mem, a, Sussy4) && patches[|patches| - 1] == Patch(CallTarget(mem, a + 5), ReturnFalse)
  {
    var one := PatchSussy1(mem, resolve, functionStart);
    var steps := [one, PatchSussy2(mem, functionStart), PatchSussy3(mem), PatchSussy4(mem)];
    assert steps == Re8Steps(mem, resolve, functionStart);
    patches := Present(steps);
    PresentLists(steps);
    forall k | 0 <= k < |patches| ensures patches[k].bytes == Return || patches[k].bytes == ReturnFalse {
      assert Some(patches[k]) in steps;
      var j :| 0 <= j < 4 && steps[j] == Some(patches[k]);
    }
  }

  // ---- RE4 --------------------------------------------------------------------------------------

  /** A decoded instruction behind the anchor: its address and the decoder's branch flags. */
  datatype Instruction = Instruction(addr: nat, isBranch: bool, isFar: bool)

  /** A sequence in reverse order (`std::reverse`). */
  function Reverse<T>(s: seq<T>): (r: seq<T>)
    ensures |r| == |s| && forall i :: 0 <= i < |s| ==> r[i] == s[|s| - 1 - i]
  {
    seq(|s|, i requires 0 <= i < |s| => s[|s| - 1 - i])
  }

  /** The index of the first branch in a walk over `insns`. */
  function FirstBranch(insns: seq<Instruction>): (r: Option<nat>)
    ensures r.Some? ==> r.value < |insns| && insns[r.value].isBranch
    ensures r.Some? ==> forall j :: 0 <= j < r.value ==> !insns[j].isBranch
    ensures r.None? ==> forall j :: 0 <= j < |insns| ==> !insns[j].isBranch
  {
    if |insns| == 0 then None
    else if insns[0].isBranch then Some(0)
    else match FirstBranch(insns[1..])
      case None => None
      case Some(k) => Some(k + 1)
  }

  /** Instruction `k` is the branch closest to the anchor: no later instruction is a branch. */
  predicate NearestBranch(insns: seq<Instruction>, k: int) {
    0 <= k < |insns| && insns[k].isBranch && forall j :: k < j < |insns| ==> !insns[j].isBranch
  }

  /** Walking the reversed disassembly finds the branch nearest the anchor. */
  function WalkBack(insns: seq<Instruction>): (r: Option<Instruction>)
    ensures r.None? <==> forall j :: 0 <= j < |insns| ==> !insns[j].isBranch
    ensures r.Some? ==> exists k :: NearestBranch(insns, k) && r.value == insns[k]
  {
    var rev := Reverse(insns);
    match FirstBranch(rev)
    case None =>
      assert forall j :: 0 <= j < |insns| ==> insns[j] == rev[|insns| - 1 - j];
      None
    case Some(k) =>
      assert NearestBranch(insns, |insns| - 1 - k) by {
        forall j | |insns| - 1 - k < j < |insns| ensures !insns[j].isBranch {
          assert insns[j] == rev[|insns| - 1 - j];
        }
      }
      Some(rev[k])
  }

  /**
   * The last resort of RE4 as the source writes it: the opcode byte of the
   * nearest branch is overwritten with `E9` when the decoder calls the
   * branch far and with `EB` otherwise.
   */
  function LastResortAsWritten(insns: seq<Instruction>): (p: Option<Patch>)
    ensures p.Some? <==> exists j :: 0 <= j < |insns| && insns[j].isBranch
    ensures p.Some? ==> exists k :: (NearestBranch(insns, k)
      && p.value == Patch(insns[k].addr, [if insns[k].isFar then 0xE9 else 0xEB]))
  {
    match WalkBack(insns)
    case None => None
    case Some(insn) => Some(Patch(insn.addr, [if insn.isFar then 0xE9 else 0xEB]))
  }

  /**
   * The last resort, corrected: the nearest branch is rewritten according
   * to its encoding, a short conditional jump by its opcode and a near one
   * by `JccToJmp`; any other branch is left alone.
   */
  function LastResort(mem: seq<u8>, insns: seq<Instruction>): (p: Option<Patch>)
    ensures p.Some? ==> JumpKept(mem, p.value)
    ensures p.Some? ==> exists k :: NearestBranch(insns, k) && p.value.addr == insns[k].addr
    ensures p.None? ==> forall k :: NearestBranch(insns, k) ==>
      insns[k].addr >= |mem| || X86.Decode(mem[insns[k].addr..]).None? || X86.Unconditional(X86.Decode(mem[insns[k].addr..]).value)
  {
    match WalkBack(insns)
    case None => None
    case Some(insn) =>
      var a := insn.addr;
      if a + 2 <= |mem| && 0x70 <= mem[a] < 0x80 then
        ShortPatchKeepsJump(mem, a);
        Some(Patch(a, [0xEB]))
      else if a + 6 <= |mem| && mem[a] == 0x0F && 0x80 <= mem[a + 1] < 0x90 then
        NearPatchKeepsJump(mem, a);
        Some(Patch(a, X86.JccToJmp(ReadLE32(mem, a + 2))))
      else
        None
  }

  /** Where the two scanning stages of RE4 end: a patch, no anchor, or an anchor to walk back from. */
  datatype Re4Stage = Found(patch: Patch) | NoAnchor | Fallback(anchor: nat)

  /** No short `jnz` followed by `push rax; not eax` starts in the 0x100 bytes up to `u`. */
  predicate NoShortJnzBefore(mem: seq<u8>, u: int) {
    forall j :: u - Re4ReverseWindow <= j <= u ==> !MatchesAt(mem, j, Re4ShortJnz)
  }

  /**
   * The two scanning stages of RE4: the `jnz` of the primary pattern;
   * failing that, the highest short `jnz` within 0x100 bytes before the
   * anchor; failing that, the anchor itself for the last resort.
   */
  function Re4Scans(mem: seq<u8>): (st: Re4Stage)
    ensures st.Found? ==> JumpKept(mem, st.patch) && st.patch.bytes == [0xEB]
    ensures (exists a :: MatchesAt(mem, a, Re4Primary)) ==> exists a: nat ::
      FirstMatch(mem, a, Re4Primary) && st == Found(Patch(a + Re4PrimaryJnz, [0xEB]))
    ensures (forall a :: !MatchesAt(mem, a, Re4Primary) && !MatchesAt(mem, a, Re4Anchor)) ==> st == NoAnchor
    ensures (forall a :: !MatchesAt(mem, a, Re4Primary)) ==> forall u: nat, j: nat ::
      FirstMatch(mem, u, Re4Anchor) && u - Re4ReverseWindow <= j <= u && MatchesAt(mem, j, Re4ShortJnz)
      ==> st.Found? && j <= st.patch.addr <= u && MatchesAt(mem, st.patch.addr, Re4ShortJnz)
    ensures st.Fallback? <==> ((forall a :: !MatchesAt(mem, a, Re4Primary))
      && exists u: nat :: FirstMatch(mem, u, Re4Anchor) && NoShortJnzBefore(mem, u))
    ensures st.Fallback? ==> FirstMatch(mem, st.anchor, Re4Anchor)
  {
    OffsetsLand();
    match ScanModule(mem, Re4Primary)
    case Some(b) =>
      JnzInMatch(mem, b, Re4Primary, Re4PrimaryJnz);
      ShortPatchKeepsJump(mem, b + Re4PrimaryJnz);
      Found(Patch(b + Re4PrimaryJnz, [0xEB]))
    case None =>
      match ScanModule(mem, Re4Anchor)
      case None => NoAnchor
      case Some(u) =>
        FirstMatchUnique(mem, Re4Anchor, u);
        match ScanReverse(mem, u, Re4ReverseWindow, Re4ShortJnz)
        case Some(j) =>
          JnzInMatch(mem, j, Re4ShortJnz, 0);
          ShortPatchKeepsJump(mem, j);
          Found(Patch(j, [0xEB]))
        case None => Fallback(u)
  }

  /**
   * RE4, with the corrected last resort: the `jnz` of the primary pattern;
   * failing that, the `jnz` closest before the anchor within 0x100 bytes;
   * failing that, the nearest branch of the disassembly behind the anchor,
   * rewritten by its encoding. At most one patch, and every patch makes a
   * conditional jump unconditional without moving its target.
   */
  function ImmediatePatchRe4(mem: seq<u8>, behind: nat -> seq<Instruction>): (p: Option<Patch>)
    ensures p.Some? ==> JumpKept(mem, p.value)
    ensures (exists a :: MatchesAt(mem, a, Re4Primary)) ==> exists a: nat ::
      FirstMatch(mem, a, Re4Primary) && p == Some(Patch(a + Re4PrimaryJnz, [0xEB]))
    ensures (forall a :: !MatchesAt(mem, a, Re4Primary) && !MatchesAt(mem, a, Re4Anchor)) ==> p.None?
    ensures (forall a :: !MatchesAt(mem, a, Re4Primary)) ==> forall u: nat, j: nat ::
      FirstMatch(mem, u, Re4Anchor) && u - Re4ReverseWindow <= j <= u && MatchesAt(mem, j, Re4ShortJnz)
      ==> p.Some? && j <= p.value.addr <= u && MatchesAt(mem, p.value.addr, Re4ShortJnz) && p.value.bytes == [0xEB]
    ensures (forall a :: !MatchesAt(mem, a, Re4Primary)) ==> forall u: nat ::
      FirstMatch(mem, u, Re4Anchor) && NoShortJnzBefore(mem, u) ==> p == LastResort(mem, behind(u))
  {
    match Re4Scans(mem)
    case Found(q) => Some(q)
    case NoAnchor => None
    case Fallback(u) => FirstMatchUnique(mem, Re4Anchor, u); LastResort(mem, behind(u))
  }

  /**
   * RE4 as the source writes it: the same two scanning stages, then the
   * last resort that overwrites one opcode byte of the nearest branch.
   */
  function ImmediatePatchRe4AsWritten(mem: seq<u8>, behind: nat -> seq<Instruction>): (p: Option<Patch>)
    ensures (exists a :: MatchesAt(mem, a, Re4Primary)) ==> exists a: nat ::
      FirstMatch(mem, a, Re4Primary) && p == Some(Patch(a + Re4PrimaryJnz, [0xEB]))
    ensures (forall a :: !MatchesAt(mem, a, Re4Primary) && !MatchesAt(mem, a, Re4Anchor)) ==> p.None?
    ensures (forall a :: !MatchesAt(mem, a, Re4Primary)) ==> forall u: nat ::
      FirstMatch(mem, u, Re4Anchor) && NoShortJnzBefore(mem, u) ==> p == LastResortAsWritten(behind(u))
    ensures Re4Scans(mem).Found? ==> p == Some(Re4Scans(mem).patch) && JumpKept(mem, p.value)
  {
    match Re4Scans(mem)
    case Found(q) => Some(q)
    case NoAnchor => None
    case Fallback(u) => FirstMatchUnique(mem, Re4Anchor, u); LastResortAsWritten(behind(u))
  }

  /** The two versions of RE4 differ only when both scans fail and the last resort runs. */
  lemma Re4VersionsAgreeUntilLastResort(mem: seq<u8>, behind: nat -> seq<Instruction>)
    requires !Re4Scans(mem).Fallback?
    ensures ImmediatePatchRe4AsWritten(mem, behind) == ImmediatePatchRe4(mem, behind)
  {
  }

  /** `jnz $+0x16` in its near form, at address 0. */
  const NearJnz: seq<u8> := [0x0F, 0x85, 0x10, 0x00, 0x00, 0x00]
  /** The disassembler's view of it: a branch, not far. */
  const NearJnzInsns: seq<Instruction> := [Instruction(0, true, false)]

  /**
   * A near `jnz` reported as a non-far branch: the last resort as written
   * overwrites its `0F` with `EB`, which leaves `EB 85`, a short jump 123
   * bytes backwards instead of the original jump 22 bytes ahead.
   */
  lemma LastResortBreaksNearJcc()
    ensures LastResortAsWritten(NearJnzInsns) == Some(Patch(0, [0xEB]))
    ensures X86.Target(0, X86.Decode(NearJnz).value) == 22
    ensures X86.Decode(Apply(NearJnz, Patch(0, [0xEB]))) == Some(X86.ShortJmp(-123))
    ensures X86.Target(0, X86.Decode(Apply(NearJnz, Patch(0, [0xEB]))).value) == -121
    ensures !JumpKept(NearJnz, Patch(0, [0xEB]))
  {
    assert NearestBranch(NearJnzInsns, 0);
    assert X86.Decode(NearJnz) == Some(X86.NearJcc(X86.NotZero, 0x10));
    var after := Apply(NearJnz, Patch(0, [0xEB]));
    assert after == [0xEB] + NearJnz[1..];
    assert after[0..] == after && NearJnz[0..] == NearJnz;
  }

  /** On the same input the corrected last resort rewrites the whole jump and keeps the target. */
  lemma LastResortKeepsNearJcc()
    ensures LastResort(NearJnz, NearJnzInsns) == Some(Patch(0, X86.JccToJmp(0x10)))
    ensures JumpKept(NearJnz, Patch(0, X86.JccToJmp(0x10)))
    ensures X86.Target(0, X86.Decode(Apply(NearJnz, Patch(0, X86.JccToJmp(0x10)))).value) == 22
  {
    assert ReadLE32(NearJnz, 2) == 0x10;
    NearPatchKeepsJump(NearJnz, 0);
    var w := Apply(NearJnz, Patch(0, X86.JccToJmp(0x10)));
    assert w == X86.JccToJmp(0x10);
    assert w[0..] == w;
    X86.JccToJmpKeepsTarget(NearJnz, 0);
  }

  /** An image holding the near `jnz` and, right after it, the RE4 anchor instruction. */
  const NearJnzThenAnchor: seq<u8> := [0x0F, 0x85, 0x10, 0x00, 0x00, 0x00, 0x88, 0x85, 0x92, 0x01, 0x00, 0x00]

  /** On that image neither scan finds its `jnz`, and the anchor is at 6. */
  lemma NearJnzThenAnchorFallsBack()
    ensures Re4Scans(NearJnzThenAnchor) == Fallback(6)
  {
    var mem := NearJnzThenAnchor;
    assert Re4Primary[0] == Exact(0x48) && Re4Anchor[0] == Exact(0x88) && Re4ShortJnz[0] == Exact(0x75);
    assert !TokenMatches(Re4Primary[0], mem[0]);
    assert forall a :: !MatchesAt(mem, a, Re4Primary);
    assert MatchesAt(mem, 6, Re4Anchor);
    forall b | 0 <= b < 6 ensures !MatchesAt(mem, b, Re4Anchor) {
      assert !TokenMatches(Re4Anchor[0], mem[b]);
    }
    assert FirstMatch(mem, 6, Re4Anchor);
    forall j | 6 - Re4ReverseWindow <= j <= 6 ensures !MatchesAt(mem, j, Re4ShortJnz) {
      if 0 <= j && j + 5 <= |mem| {
        assert !TokenMatches(Re4ShortJnz[0], mem[j]);
      }
    }
    assert NoShortJnzBefore(mem, 6);
    FirstMatchUnique(mem, Re4Anchor, 6);
  }

  /**
   * End to end on that image, with a disassembler that reports the near
   * `jnz` as the only (non-far) branch behind the anchor: both scans fail,
   * RE4 as written breaks the jump, and the corrected RE4 keeps it.
   */
  lemma Re4AsWrittenBreaksNearJcc()
    ensures ImmediatePatchRe4AsWritten(NearJnzThenAnchor, _ => NearJnzInsns) == Some(Patch(0, [0xEB]))
    ensures !JumpKept(NearJnzThenAnchor, Patch(0, [0xEB]))
    ensures ImmediatePatchRe4(NearJnzThenAnchor, _ => NearJnzInsns) == Some(Patch(0, X86.JccToJmp(0x10)))
  {
    NearJnzThenAnchorFallsBack();
    var behind: nat -> seq<Instruction> := _ => NearJnzInsns;
    assert ImmediatePatchRe4AsWritten(NearJnzThenAnchor, behind) == LastResortAsWritten(NearJnzInsns);
    assert ImmediatePatchRe4(NearJnzThenAnchor, behind) == LastResort(NearJnzThenAnchor, NearJnzInsns);
    LastResortBreaksNearJcc();
    NearJnzThenAnchorBroken();
    NearJnzThenAnchorCorrected();
  }

  /** The corrected last resort rewrites the image's near `jnz` whole. */
  lemma NearJnzThenAnchorCorrected()
    ensures LastResort(NearJnzThenAnchor, NearJnzInsns) == Some(Patch(0, X86.JccToJmp(0x10)))
  {
    var mem := NearJnzThenAnchor;
    assert NearestBranch(NearJnzInsns, 0);
    assert mem[0] == 0x0F && mem[1] == 0x85 && ReadLE32(mem, 2) == 0x10;
    LastResortNearJcc(mem, NearJnzInsns, 0);
  }

  /** When the nearest branch is a near conditional jump, the corrected last resort rewrites it whole. */
  lemma LastResortNearJcc(mem: seq<u8>, insns: seq<Instruction>, k: nat)
    requires NearestBranch(insns, k)
    requires insns[k].addr + 6 <= |mem| && mem[insns[k].addr] == 0x0F && 0x80 <= mem[insns[k].addr + 1] < 0x90
    ensures LastResort(mem, insns) == Some(Patch(insns[k].addr, X86.JccToJmp(ReadLE32(mem, insns[k].addr + 2))))
  {
    var w := WalkBack(insns);
    var j :| NearestBranch(insns, j) && w.value == insns[j];
    assert j == k;
  }

  /** Overwriting the `0F` of the image's near `jnz` with `EB` moves its target. */
  lemma NearJnzThenAnchorBroken()
    ensures !JumpKept(NearJnzThenAnchor, Patch(0, [0xEB]))
  {
    var mem := NearJnzThenAnchor;
    var after := Apply(mem, Patch(0, [0xEB]));
    assert after[0..] == after && mem[0..] == mem;
    assert after[0] == 0xEB && after[1] == 0x85;
    assert X86.Decode(after) == Some(X86.ShortJmp(-123));
    assert X86.Decode(mem) == Some(X86.NearJcc(X86.NotZero, 0x10)) by {
      assert ReadLE32(mem, 2) == 0x10;
    }
  }

  // ---- DD2 --------------------------------------------------------------------------------------

  /** The `jnz` at offset `o` of the first match of `pat`, made unconditional. */
  function PatchJnz(mem: seq<u8>, pat: Pattern, o: nat): (p: Option<Patch>)
    requires JnzSite(pat, o)
    ensures p.Some? <==> exists a :: MatchesAt(mem, a, pat)
    ensures p.Some? ==> JumpKept(mem, p.value) && p.value.bytes == [0xEB]
    ensures p.Some? ==> exists a: nat :: FirstMatch(mem, a, pat) && p.value.addr == a + o
  {
    match ScanModule(mem, pat)
    case None => None
    case Some(a) =>
      JnzInMatch(mem, a, pat, o);
      ShortPatchKeepsJump(mem, a + o);
      Some(Patch(a + o, [0xEB]))
  }

  /** The UTF-16 text with its leading `/` replaced by `?`. */
  const DisabledNatives: seq<u8> := NativesString[..NativesSlash] + [0x3F, 0x00] + NativesString[NativesSlash + 2..]

  /**
   * The `/natives/` edit: the first character of the first occurrence
   * becomes `?`, so the image no longer holds the text there and nothing
   * else changes.
   */
  function PatchNatives(mem: seq<u8>): (p: Option<Patch>)
    ensures p.Some? <==> exists a :: MatchesAt(mem, a, ExactPattern(NativesString))
    ensures p.Some? ==> (
      && Fits(mem, p.value) && p.value.addr >= NativesSlash
      && FirstMatch(mem, p.value.addr - NativesSlash, ExactPattern(NativesString))
      && Apply(mem, p.value)[p.value.addr - NativesSlash..p.value.addr - NativesSlash + |NativesString|] == DisabledNatives
      && !MatchesAt(Apply(mem, p.value), p.value.addr - NativesSlash, ExactPattern(NativesString)))
    ensures p.Some? ==> exists a: nat ::
      FirstMatch(mem, a, ExactPattern(NativesString)) && p.value == Patch(a + NativesSlash, [0x3F, 0x00])
  {
    match ScanModule(mem, ExactPattern(NativesString))
    case None => None
    case Some(n) =>
      NativesEdit(mem, n);
      Some(Patch(n + NativesSlash, [0x3F, 0x00]))
  }

  /** What writing `?` over the `/` of an occurrence of the text leaves at that occurrence. */
  lemma NativesEdit(mem: seq<u8>, n: nat)
    requires MatchesAt(mem, n, ExactPattern(NativesString))
    ensures Fits(mem, Patch(n + NativesSlash, [0x3F, 0x00]))
    ensures Apply(mem, Patch(n + NativesSlash, [0x3F, 0x00]))[n..n + |NativesString|] == DisabledNatives
    ensures !MatchesAt(Apply(mem, Patch(n + NativesSlash, [0x3F, 0x00])), n, ExactPattern(NativesString))
  {
    var len := |NativesString|;
    ExactPatternMatches(mem, n, NativesString);
    var r := Apply(mem, Patch(n + NativesSlash, [0x3F, 0x00]));
    forall i | 0 <= i < len ensures r[n..n + len][i] == DisabledNatives[i] {
      if i < NativesSlash || i >= NativesSlash + 2 {
        assert r[n + i] == mem[n + i] == mem[n..n + len][i];
      } else {
        assert r[n + i] == r[n + NativesSlash..n + NativesSlash + 2][i - NativesSlash];
      }
    }
    ExactPatternMatches(r, n, NativesString);
    assert r[n..n + len][NativesSlash] != NativesString[NativesSlash];
  }

  /**
   * DD2: the two `jnz` rewrites and the `/natives/` edit, in that order;
   * each is made exactly when its pattern occurs, at its first match.
   */
  method ImmediatePatchDd2(mem: seq<u8>) returns (patches: seq<Patch>)
    ensures Lists(patches, Dd2Steps(mem))
    ensures |patches| <= 3
    ensures forall k :: 0 <= k < |patches| ==> JumpKept(mem, patches[k]) || patches[k].bytes == [0x3F, 0x00]
    ensures (exists a :: MatchesAt(mem, a, Dd2First)) ==> |patches| > 0 && exists a: nat ::
      FirstMatch(mem, a, Dd2First) && patches[0] == Patch(a + Dd2FirstJnz, [0xEB])
    ensures (exists a :: MatchesAt(mem, a, Dd2Second)) ==> exists a: nat ::
      FirstMatch(mem, a, Dd2Second) && Patch(a + Dd2SecondJnz, [0xEB]) in patches
    ensures (exists a :: MatchesAt(mem, a, ExactPattern(NativesString))) ==> exists a: nat ::
      FirstMatch(mem, a, ExactPattern(NativesString)) && Patch(a + NativesSlash, [0x3F, 0x00]) in patches
  {
    var steps := Dd2Steps(mem);
    patches := Present(steps);
    PresentLists(steps);
    ListedOfThree(patches, steps);
  }

  /** Each patch listed from three steps is one of them, and every step's patch is listed. */
  lemma ListedOfThree(r: seq<Patch>, steps: seq<Option<Patch>>)
    requires |steps| == 3 && Lists(r, steps)
    ensures forall k :: 0 <= k < |r| ==> Some(r[k]) == steps[0] || Some(r[k]) == steps[1] || Some(r[k]) == steps[2]
    ensures forall i :: 0 <= i < 3 && steps[i].Some? ==> steps[i].value in r
  {
    forall k | 0 <= k < |r| ensures Some(r[k]) == steps[0] || Some(r[k]) == steps[1] || Some(r[k]) == steps[2] {
      assert Some(r[k]) in steps;
    }
    forall i | 0 <= i < 3 && steps[i].Some? ensures steps[i].value in r {
      assert Some(steps[i].value) in steps;
    }
  }

  /**
   * The three DD2 steps: the first pattern's `jnz`, the second pattern's
   * `jnz` and the `/natives/` edit, each a patch exactly when its pattern
   * occurs, placed at its first match.
   */
  function Dd2Steps(mem: seq<u8>): (steps: seq<Option<Patch>>)
    ensures |steps| == 3
    ensures steps[0].Some? ==> JumpKept(mem, steps[0].value)
    ensures steps[1].Some? ==> JumpKept(mem, steps[1].value)
    ensures steps[0].Some? <==> exists a :: MatchesAt(mem, a, Dd2First)
    ensures steps[1].Some? <==> exists a :: MatchesAt(mem, a, Dd2Second)
    ensures steps[2].Some? <==> exists a :: MatchesAt(mem, a, ExactPattern(NativesString))
    ensures steps[0].Some? ==> exists a: nat :: FirstMatch(mem, a, Dd2First) && steps[0].value == Patch(a + Dd2FirstJnz, [0xEB])
    ensures steps[1].Some? ==> exists a: nat :: FirstMatch(mem, a, Dd2Second) && steps[1].value == Patch(a + Dd2SecondJnz, [0xEB])
    ensures steps[2].Some? ==> exists a: nat ::
      FirstMatch(mem, a, ExactPattern(NativesString)) && steps[2].value == Patch(a + NativesSlash, [0x3F, 0x00])
  {
    OffsetsLand();
    [PatchJnz(mem, Dd2First, Dd2FirstJnz), PatchJnz(mem, Dd2Second, Dd2SecondJnz), PatchNatives(mem)]
  }

  // ---- the stack destroyer ----------------------------------------------------------------------

  /** The function at the first match of the stack destroyer returns at once. */
  function RemoveStackDestroyer(mem: seq<u8>): (p: Option<Patch>)
    ensures p.Some? <==> exists a :: MatchesAt(mem, a, StackDestroyer)
    ensures p.Some? ==> FirstMatch(mem, p.value.addr, StackDestroyer) && p.value.bytes == Return && Fits(mem, p.value)
  {
    match ScanModule(mem, StackDestroyer)
    case None => None
    case Some(a) => Some(Patch(a, Return))
  }
}
