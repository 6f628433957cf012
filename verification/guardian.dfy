/**
 * The guard around `NtProtectVirtualMemory`: a pristine copy of the syscall
 * stub taken once, a reimplementation of `VirtualProtect` on top of the
 * original stub, and the `VirtualProtect` hook that repairs the stub before
 * forwarding every call.
 *
 * The operating system is not modelled. Every call into it (the syscall,
 * `RtlFlushSecureMemoryCache`, `VirtualAlloc`, a memory write that may fault
 * or be undone) is an input that says what the call returned.
 */
module Guardian {
  import opened Wrappers
  import opened Bytes
  import Scanner

  // ---- virtual_protect_impl ---------------------------------------------------------------------

  /** `STATUS_INVALID_PAGE_PROTECTION`. */
  const InvalidPageProtection: u32 := 0xC000_0045

  /** `NT_SUCCESS`: the status, read as a signed 32-bit value, is not negative. */
  predicate NtSuccess(status: u32) {
    Sext32(status) >= 0
  }

  /** `(status & 0x80000000) == 0`, the test the retry path uses: bit 31 is clear. */
  predicate HighBitClear(status: u32) {
    (status / 0x8000_0000) % 2 == 0
  }

  /** `NT_SUCCESS` and the high-bit test agree: both say the status is below 0x80000000. */
  lemma NtSuccessHighBit(status: u32)
    ensures NtSuccess(status) <==> HighBitClear(status)
    ensures NtSuccess(status) <==> status < 0x8000_0000
  {
  }

  /** What `virtual_protect_impl` did: the last status, how many syscalls it made, its result. */
  datatype ProtectOutcome = ProtectOutcome(status: u32, syscalls: nat, ok: bool)

  /**
   * `virtual_protect_impl`, corrected: `first` and `second` are the statuses
   * of the first and (if made) second syscall, `flush` what
   * `RtlFlushSecureMemoryCache` returns, `None` when ntdll does not export
   * it. The syscall is retried once, and only after an invalid-protection
   * status followed by a flush that reports success.
   */
  function VirtualProtectImpl(first: u32, flush: Option<u8>, second: u32): (r: ProtectOutcome)
    ensures r.syscalls == 1 || r.syscalls == 2
    ensures r.syscalls == 2 <==> first == InvalidPageProtection && flush.Some? && flush.value != 0
    ensures r.status == if r.syscalls == 2 then second else first
    ensures r.ok <==> r.status < 0x8000_0000
  {
    NtSuccessHighBit(first);
    NtSuccessHighBit(second);
    if first == InvalidPageProtection && flush.Some? && flush.value != 0 then
      if HighBitClear(second) then ProtectOutcome(second, 2, true)
      else ProtectOutcome(second, 2, NtSuccess(second))
    else ProtectOutcome(first, 1, NtSuccess(first))
  }

  /**
   * `NT_SUCCESS` applied to the `BOOLEAN` the flush returns: a byte widened
   * to a status is never negative, so every flush result counts as success.
   */
  predicate FlushSucceededAsWritten(b: u8) {
    NtSuccess(b)
  }

  /** `virtual_protect_impl` as written: it retries whenever the flush routine exists. */
  function VirtualProtectImplAsWritten(first: u32, flush: Option<u8>, second: u32): (r: ProtectOutcome)
    ensures r.syscalls == 2 <==> first == InvalidPageProtection && flush.Some?
    ensures r.status == if r.syscalls == 2 then second else first
    ensures r.ok <==> r.status < 0x8000_0000
  {
    NtSuccessHighBit(first);
    NtSuccessHighBit(second);
    if first == InvalidPageProtection && flush.Some? && FlushSucceededAsWritten(flush.value) then
      if HighBitClear(second) then ProtectOutcome(second, 2, true)
      else ProtectOutcome(second, 2, NtSuccess(second))
    else ProtectOutcome(first, 1, NtSuccess(first))
  }

  /**
   * A flush that fails (returns `FALSE`) still leads the code as written to
   * retry, and to report success if the retry succeeds; the corrected
   * version gives up after the first status.
   */
  lemma FlushFailureStillRetries()
    ensures VirtualProtectImplAsWritten(InvalidPageProtection, Some(0), 0) == ProtectOutcome(0, 2, true)
    ensures VirtualProtectImpl(InvalidPageProtection, Some(0), 0) == ProtectOutcome(InvalidPageProtection, 1, false)
  {
    assert NtSuccess(0);
    assert !NtSuccess(InvalidPageProtection);
  }

  /** The two versions differ only when the flush reports failure. */
  lemma ImplAgreesWhenFlushSucceeds(first: u32, flush: Option<u8>, second: u32)
    requires flush.None? || flush.value != 0
    ensures VirtualProtectImplAsWritten(first, flush, second) == VirtualProtectImpl(first, flush, second)
  {
  }

  // ---- setup_pristine_syscall -------------------------------------------------------------------

  /** Size of the pristine snapshot and of the protection change around the stub. */
  const SnapshotSize: nat := 256

  /** The guard's state: the stub it protects (`s_og_...`) and its pristine copy (`s_pristine_...`). */
  datatype GuardState = GuardState(og: Option<nat>, pristine: Option<seq<u8>>)

  /**
   * What the operating system answers during setup: whether ntdll is
   * loaded, the exported address of the stub, the address space `mem`,
   * whether `VirtualAlloc` returns memory, and whether copying the stub faults.
   */
  datatype SetupEnv = SetupEnv(ntdll: bool, proc: Option<nat>, mem: seq<u8>, allocates: bool, copyFaults: bool)

  /** The stub's address: the export, or the target of the `jmp rel32` it starts with. */
  function StubAddress(mem: seq<u8>, proc: nat): (r: Option<nat>)
    ensures proc < |mem| && mem[proc] == 0xE9 && proc + 5 <= |mem| ==>
      r == (var t := proc + 5 + Sext32(ReadLE32(mem, proc + 1)); if t >= 0 then Some(t) else None)
    ensures !(proc < |mem| && mem[proc] == 0xE9) ==> r == Some(proc)
  {
    if proc < |mem| && mem[proc] == 0xE9 then
      match Scanner.CalculateAbsolute(mem, proc + 1)
      case Some(t) => if t >= 0 then Some(t) else None
      case None => None
    else Some(proc)
  }

  /**
   * `setup_pristine_syscall`: once a pristine copy exists nothing changes;
   * otherwise the stub is located and, when `VirtualAlloc` succeeds, its
   * first 256 bytes are copied (a faulting copy leaves the fresh, zeroed
   * allocation).
   */
  function SetupPristineSyscall(s: GuardState, env: SetupEnv): (r: GuardState)
    ensures s.pristine.Some? ==> r == s
    ensures s.pristine.None? && (!env.ntdll || env.proc.None?) ==> r == s
    ensures s.pristine.None? && env.ntdll && env.proc.Some? && StubAddress(env.mem, env.proc.value).None? ==> r == s
    ensures s.pristine.None? && env.ntdll && env.proc.Some? && StubAddress(env.mem, env.proc.value).Some? ==>
      r.og == StubAddress(env.mem, env.proc.value) && (r.pristine.Some? <==> env.allocates)
    ensures s.pristine.None? && r.pristine.Some? ==> |r.pristine.value| == SnapshotSize && r.og.Some?
    ensures s.pristine.None? && r.pristine.Some? && !env.copyFaults && r.og.value + SnapshotSize <= |env.mem| ==>
      r.pristine.value == env.mem[r.og.value..r.og.value + SnapshotSize]
    ensures s.pristine.None? && r.pristine.Some? && env.copyFaults ==> forall i :: 0 <= i < SnapshotSize ==> r.pristine.value[i] == 0
  {
    if s.pristine.Some? || !env.ntdll || env.proc.None? then s
    else match StubAddress(env.mem, env.proc.value)
      case None => s
      case Some(og) =>
        if !env.allocates then GuardState(Some(og), None)
        else if env.copyFaults || og + SnapshotSize > |env.mem| then
          GuardState(Some(og), Some(seq(SnapshotSize, _ => 0)))
        else GuardState(Some(og), Some(env.mem[og..og + SnapshotSize]))
  }

  /** Setup is idempotent: once it has produced a pristine copy, running it again changes nothing. */
  lemma SetupIdempotent(s: GuardState, env: SetupEnv, again: SetupEnv)
    requires SetupPristineSyscall(s, env).pristine.Some?
    ensures SetupPristineSyscall(SetupPristineSyscall(s, env), again) == SetupPristineSyscall(s, env)
  {
  }

  // ---- virtual_protect_hook ---------------------------------------------------------------------

  /** How many bytes of the stub the hook compares and restores. */
  const GuardedBytes: nat := 32

  /** The outcome of a memory write: it faulted, or it left these bytes in place. */
  datatype Write = Faulted | Wrote(after: seq<u8>)

  /** The outcome of a call that may throw. */
  datatype Call = Threw | Returned(ok: bool)

  /**
   * What happens during one hooked call: whether comparing the stub faults,
   * what the direct and the protected copy leave in the stub, whether
   * making the stub writable succeeds, what forwarding the call returns,
   * and what the original `VirtualProtect` returns.
   */
  datatype HookEnv = HookEnv(
    compareFaults: bool,
    directCopy: Write,
    unprotect: bool,
    protectedCopy: Write,
    forward: Call,
    original: bool)

  /** The steps of the hook. */
  datatype Action =
    | Compare         // memcmp of the stub's first 32 bytes with the pristine copy
    | DirectCopy      // memcpy of the pristine bytes over them
    | Unprotect       // virtual_protect_impl making the region writable
    | ProtectedCopy   // memcpy again, now that the region is writable
    | Reprotect       // virtual_protect_impl restoring the old protection
    | Forward         // virtual_protect_impl with the caller's arguments
    | CallOriginal    // the original VirtualProtect, when forwarding throws

  /**
   * The region whose protection the repair changes: from one byte before the
   * stub, 33 bytes long, so it covers the 32 restored bytes, which themselves
   * lie inside the 256-byte snapshot.
   */
  const ProtectFrom: int := -1
  const ProtectLength: nat := GuardedBytes + 1

  /** The position of each kind of step in the hook's code. */
  function Rank(a: Action): nat {
    match a
    case Compare => 0
    case DirectCopy => 1
    case Unprotect => 2
    case ProtectedCopy => 3
    case Reprotect => 4
    case Forward => 5
    case CallOriginal => 6
  }

  /** The steps taken, the stub's bytes afterwards, and the hook's return value. */
  datatype HookResult = HookResult(trace: seq<Action>, stub: seq<u8>, ret: bool)

  /** The stub with its first bytes replaced by what a write left there. */
  function Written(stub: seq<u8>, w: Write): (r: seq<u8>)
    requires |stub| >= GuardedBytes
    ensures |r| == |stub| && r[GuardedBytes..] == stub[GuardedBytes..]
    ensures w.Faulted? || |w.after| != GuardedBytes ==> r == stub
    ensures w.Wrote? && |w.after| == GuardedBytes ==> r[..GuardedBytes] == w.after
  {
    if w.Wrote? && |w.after| == GuardedBytes then w.after + stub[GuardedBytes..] else stub
  }

  /** The stub differs from the pristine copy in its first 32 bytes. */
  predicate Tampered(stub: seq<u8>, pristine: seq<u8>)
    requires |stub| >= GuardedBytes && |pristine| >= GuardedBytes
  {
    stub[..GuardedBytes] != pristine[..GuardedBytes]
  }

  /** A trace whose steps appear in code order; ranks strictly increase, so no step occurs twice. */
  predicate InCodeOrder(t: seq<Action>) {
    forall i, j :: 0 <= i < j < |t| ==> Rank(t[i]) < Rank(t[j])
  }

  /** Step `a` in front of the later steps `t`, when it is taken. */
  function Then(taken: bool, a: Action, t: seq<Action>): seq<Action> {
    if taken then [a] + t else t
  }

  /** A step placed in front of later steps keeps the trace in code order. */
  lemma ThenOrdered(taken: bool, a: Action, t: seq<Action>)
    requires InCodeOrder(t) && forall i :: 0 <= i < |t| ==> Rank(a) < Rank(t[i])
    ensures InCodeOrder(Then(taken, a, t))
    ensures forall i :: 0 <= i < |Then(taken, a, t)| ==> Rank(a) <= Rank(Then(taken, a, t)[i])
  {
  }

  /** Which of its optional steps one hooked call takes. */
  datatype Steps = Steps(checked: bool, tampered: bool, fix: bool, copies: bool, restores: bool, threw: bool)

  /** The trace of a call that takes steps `st`. */
  function TraceOf(st: Steps): (t: seq<Action>)
    ensures Forward in t
    ensures Compare in t <==> st.checked
    ensures DirectCopy in t <==> st.tampered
    ensures Unprotect in t <==> st.fix
    ensures ProtectedCopy in t <==> st.copies
    ensures Reprotect in t <==> st.restores
    ensures CallOriginal in t <==> st.threw
  {
    Then(st.checked, Compare,
      Then(st.tampered, DirectCopy,
        Then(st.fix, Unprotect,
          Then(st.copies, ProtectedCopy,
            Then(st.restores, Reprotect,
              if st.threw then [Forward, CallOriginal] else [Forward])))))
  }

  /** Every trace lists its steps in code order. */
  lemma TraceOrdered(st: Steps)
    ensures InCodeOrder(TraceOf(st))
  {
    var tail := if st.threw then [Forward, CallOriginal] else [Forward];
    var t4 := Then(st.restores, Reprotect, tail);
    ThenOrdered(st.restores, Reprotect, tail);
    var t3 := Then(st.copies, ProtectedCopy, t4);
    ThenOrdered(st.copies, ProtectedCopy, t4);
    var t2 := Then(st.fix, Unprotect, t3);
    ThenOrdered(st.fix, Unprotect, t3);
    var t1 := Then(st.tampered, DirectCopy, t2);
    ThenOrdered(st.tampered, DirectCopy, t2);
    ThenOrdered(st.checked, Compare, t1);
  }

  /**
   * `virtual_protect_hook`: if the stub's first 32 bytes differ from the
   * pristine copy, copy them back; if that faults or does not stick, make
   * the 33 bytes from one before the stub writable, copy again and restore
   * the old protection. A fault anywhere in the repair is swallowed. Then
   * the call is forwarded to `virtual_protect_impl`; if that throws, the
   * original `VirtualProtect` is called instead.
   *
   * The steps follow the code's order; the call is forwarded exactly once;
   * the original is called only when forwarding throws; the repair
   * escalates only when the direct copy faulted or did not stick; the
   * protected copy happens only once the protection change succeeded, and
   * the old protection is restored only after it.
   */
  function VirtualProtectHook(stub: seq<u8>, pristine: seq<u8>, env: HookEnv): (r: HookResult)
    requires |stub| >= GuardedBytes && |pristine| == SnapshotSize
    ensures InCodeOrder(r.trace) && Forward in r.trace
    ensures CallOriginal in r.trace <==> env.forward.Threw?
    ensures r.ret == (if env.forward.Threw? then env.original else env.forward.ok)
    ensures DirectCopy in r.trace <==> !env.compareFaults && Tampered(stub, pristine)
    ensures Unprotect in r.trace <==> (DirectCopy in r.trace
      && (env.directCopy.Faulted? || Tampered(Written(stub, env.directCopy), pristine)))
    ensures ProtectedCopy in r.trace <==> Unprotect in r.trace && env.unprotect
    ensures Reprotect in r.trace <==> ProtectedCopy in r.trace && env.protectedCopy.Wrote?
  {
    var checked := !env.compareFaults;
    var tampered := checked && Tampered(stub, pristine);
    var afterDirect := if tampered then Written(stub, env.directCopy) else stub;
    var fix := tampered && (env.directCopy.Faulted? || Tampered(afterDirect, pristine));
    var copies := fix && env.unprotect;
    var afterFix := if copies then Written(afterDirect, env.protectedCopy) else afterDirect;
    var restores := copies && env.protectedCopy.Wrote?;
    var st := Steps(checked, tampered, fix, copies, restores, env.forward.Threw?);
    TraceOrdered(st);
    HookResult(TraceOf(st), afterFix, if env.forward.Returned? then env.forward.ok else env.original)
  }

  /**
   * The repair restores the stub: a tampered stub ends up pristine whenever
   * the direct copy sticks, or the protected copy writes the pristine bytes,
   * and an untampered stub is left as it was.
   */
  lemma HookRepairs(stub: seq<u8>, pristine: seq<u8>, env: HookEnv)
    requires |stub| >= GuardedBytes && |pristine| == SnapshotSize
    ensures var r := VirtualProtectHook(stub, pristine, env);
      && (env.compareFaults || !Tampered(stub, pristine) ==> r.stub == stub)
      && ((!env.compareFaults && Tampered(stub, pristine) && env.directCopy == Wrote(pristine[..GuardedBytes]))
          ==> r.stub[..GuardedBytes] == pristine[..GuardedBytes] && r.stub[GuardedBytes..] == stub[GuardedBytes..])
      && ((!env.compareFaults && Tampered(stub, pristine) && env.unprotect && env.protectedCopy == Wrote(pristine[..GuardedBytes]))
          ==> r.stub[..GuardedBytes] == pristine[..GuardedBytes] && r.stub[GuardedBytes..] == stub[GuardedBytes..])
  {
  }

  /**
   * Setup and the hook together: right after a copy is taken from an
   * in-bounds stub, the hook finds the untouched stub pristine and copies
   * nothing over it.
   */
  lemma SetupThenHookSeesPristine(s: GuardState, env: SetupEnv, h: HookEnv)
    requires s.pristine.None? && env.ntdll && env.proc.Some? && env.allocates && !env.copyFaults
    requires StubAddress(env.mem, env.proc.value).Some?
    requires StubAddress(env.mem, env.proc.value).value + SnapshotSize <= |env.mem|
    ensures SetupPristineSyscall(s, env).og.Some? && SetupPristineSyscall(s, env).pristine.Some?
    ensures var r := SetupPristineSyscall(s, env);
      DirectCopy !in VirtualProtectHook(env.mem[r.og.value..], r.pristine.value, h).trace
  {
    var r := SetupPristineSyscall(s, env);
    var og := r.og.value;
    assert !Tampered(env.mem[og..], r.pristine.value);
  }

  // ---- add_vectored_exception_handler_hook ------------------------------------------------------

  /** Whether the hook has run (`s_veh_called`) and whether handlers are allowed (`s_veh_allowed`). */
  datatype VehState = VehState(called: bool, allowed: bool)

  /** The caller's module: an identifier and its path, if it could be queried. */
  datatype Module = Module(id: nat, path: Option<seq<char>>)

  /** What the hook returns: the original's result, or the handler pointer itself, unregistered. */
  datatype VehResult = Registered(handle: nat) | Refused(handler: nat)

  /** The marker that lets a debugger module register handlers. */
  const VehDebug: seq<char> := "vehdebug"

  /** `sub` occurs in `s` at position `i`. */
  predicate OccursAt(s: seq<char>, sub: seq<char>, i: int) {
    0 <= i && i + |sub| <= |s| && s[i..i + |sub|] == sub
  }

  /** `sub` occurs in `s` (`std::wstring::find` does not return `npos`). */
  ghost predicate Contains(s: seq<char>, sub: seq<char>) {
    exists i :: OccursAt(s, sub, i)
  }

  /** `std::wstring::find`: the first position of `sub` in `s`. */
  method Find(s: seq<char>, sub: seq<char>) returns (r: Option<nat>)
    ensures r.Some? ==> OccursAt(s, sub, r.value) && forall i :: 0 <= i < r.value ==> !OccursAt(s, sub, i)
    ensures r.None? <==> !Contains(s, sub)
  {
    if |sub| > |s| {
      return None;
    }
    for i := 0 to |s| - |sub| + 1
      invariant forall j :: 0 <= j < i ==> !OccursAt(s, sub, j)
    {
      if s[i..i + |sub|] == sub {
        return Some(i);
      }
    }
    return None;
  }

  /**
   * `add_vectored_exception_handler_hook`: always marks itself called. A
   * disallowed registration goes through only when it comes from a module
   * whose path contains `vehdebug` or from the framework's own module;
   * otherwise the handler pointer is handed back without registering it.
   */
  method AddVehHook(s: VehState, caller: Option<Module>, framework: Option<nat>, handler: nat, original: nat)
    returns (s': VehState, r: VehResult)
    ensures s' == s.(called := true)
    ensures r.Registered? <==> (s.allowed || (caller.Some? && (
      (caller.value.path.Some? && Contains(caller.value.path.value, VehDebug))
      || (framework.Some? && caller.value.id == framework.value))))
    ensures r.Registered? ==> r == Registered(original)
    ensures r.Refused? ==> r == Refused(handler)
  {
    s' := s.(called := true);
    if !s.allowed {
      if caller.Some? {
        var m := caller.value;
        var debugger := false;
        if m.path.Some? {
          var at := Find(m.path.value, VehDebug);
          debugger := at.Some?;
        }
        if debugger || (framework.Some? && m.id == framework.value) {
          return s', Registered(original);
        }
      }
      return s', Refused(handler);
    }
    return s', Registered(original);
  }
}
