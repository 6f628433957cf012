/**
 * Byte-pattern scanning over a loaded module image.
 *
 * The image is a byte sequence and an address is an index into it (the
 * module base is address 0). The scanning helpers the bypass calls are not
 * part of this model; they are given here as reference definitions whose
 * contracts say what the bypass relies on: a forward scan finds the lowest
 * match inside its window, a reverse scan the highest one at or below its
 * anchor, and a window or read that leaves the image finds nothing.
 */
module Scanner {
  import opened Wrappers
  import opened Bytes

  /** One token of an IDA-style pattern: an exact byte or a `?` wildcard. */
  datatype Token = Exact(b: u8) | Wild

  type Pattern = seq<Token>

  predicate TokenMatches(t: Token, b: u8) {
    t.Wild? || t.b == b
  }

  /** `p` occurs in `mem` starting at `at`, entirely inside the image. */
  predicate MatchesAt(mem: seq<u8>, at: int, p: Pattern) {
    && 0 <= at && at + |p| <= |mem|
    && forall k :: 0 <= k < |p| ==> TokenMatches(p[k], mem[at + k])
  }

  /** The pattern that matches exactly the bytes of `data` (what `scan_data` looks for). */
  function ExactPattern(data: seq<u8>): (p: Pattern)
    ensures |p| == |data|
    ensures forall k :: 0 <= k < |data| ==> p[k] == Exact(data[k])
  {
    seq(|data|, k requires 0 <= k < |data| => Exact(data[k]))
  }

  /** An exact pattern matches precisely where its bytes occur. */
  lemma ExactPatternMatches(mem: seq<u8>, at: int, data: seq<u8>)
    requires 0 <= at && at + |data| <= |mem|
    ensures MatchesAt(mem, at, ExactPattern(data)) <==> mem[at..at + |data|] == data
  {
    var p := ExactPattern(data);
    if MatchesAt(mem, at, p) {
      forall k | 0 <= k < |data| ensures mem[at..at + |data|][k] == data[k] {
        assert TokenMatches(p[k], mem[at + k]);
      }
    }
    if mem[at..at + |data|] == data {
      forall k | 0 <= k < |p| ensures TokenMatches(p[k], mem[at + k]) {
        assert mem[at + k] == mem[at..at + |data|][k];
      }
    }
  }

  /**
   * Forward scan of the window `[start, start + len)` (`utility::scan`):
   * the lowest address at which the whole pattern lies inside the window
   * and matches.
   */
  function Scan(mem: seq<u8>, start: nat, len: nat, p: Pattern): (r: Option<nat>)
    ensures r.Some? ==> start <= r.value && r.value + |p| <= start + len && MatchesAt(mem, r.value, p)
    ensures r.Some? ==> forall a :: start <= a < r.value ==> !MatchesAt(mem, a, p)
    ensures r.None? ==> forall a :: start <= a && a + |p| <= start + len ==> !MatchesAt(mem, a, p)
    decreases len
  {
    if len < |p| then None
    else if MatchesAt(mem, start, p) then Some(start)
    else if len == 0 then None
    else Scan(mem, start + 1, len - 1, p)
  }

  /** `at` is the lowest address at which `p` matches. */
  predicate FirstMatch(mem: seq<u8>, at: int, p: Pattern) {
    MatchesAt(mem, at, p) && forall b :: 0 <= b < at ==> !MatchesAt(mem, b, p)
  }

  /** A pattern has at most one lowest match. */
  lemma FirstMatchUnique(mem: seq<u8>, p: Pattern, a: int)
    requires FirstMatch(mem, a, p)
    ensures forall b :: FirstMatch(mem, b, p) ==> b == a
  {
  }

  /** Scanning a whole module finds the lowest match, or reports that there is none. */
  function ScanModule(mem: seq<u8>, p: Pattern): (r: Option<nat>)
    ensures r.Some? ==> FirstMatch(mem, r.value, p)
    ensures r.None? <==> forall a :: !MatchesAt(mem, a, p)
  {
    Scan(mem, 0, |mem|, p)
  }

  /**
   * Reverse scan (`utility::scan_reverse(anchor, window, pattern)`): the
   * highest match starting in `[anchor - window, anchor]`.
   */
  function ScanReverse(mem: seq<u8>, anchor: nat, window: nat, p: Pattern): (r: Option<nat>)
    ensures r.Some? ==> anchor - window <= r.value <= anchor && MatchesAt(mem, r.value, p)
    ensures r.Some? ==> forall a :: r.value < a <= anchor ==> !MatchesAt(mem, a, p)
    ensures r.None? ==> forall a :: anchor - window <= a <= anchor ==> !MatchesAt(mem, a, p)
    decreases window
  {
    if MatchesAt(mem, anchor, p) then Some(anchor)
    else if window == 0 || anchor == 0 then None
    else ScanReverse(mem, anchor - 1, window - 1, p)
  }

  /**
   * The target of a rip-relative operand (`utility::calculate_absolute`):
   * the signed 32-bit displacement at `addr` added to the address just past
   * it. `None` when the displacement lies outside the image.
   */
  function CalculateAbsolute(mem: seq<u8>, addr: nat): (r: Option<int>)
    ensures r.Some? <==> addr + 4 <= |mem|
    ensures r.Some? ==> r.value - (addr + 4) == Sext32(ReadLE32(mem, addr))
  {
    if addr + 4 <= |mem| then Some(addr + 4 + Sext32(ReadLE32(mem, addr))) else None
  }
}
