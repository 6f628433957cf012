# A Dafny model of the YMO translation catalogue and the integrity-check bypass

This project models two parts of REFramework and proves properties about them.

**The YMO translation catalogue.**
- `translate/po2ymo.py` selects the translated units of a PO catalogue. It keys each unit by the 32-bit FNV-1a hash of its (context-qualified) source text and serialises the dictionary into a packed table. The table holds a 16-bit count, then rows of (32-bit hash, 16-bit offset), then the payloads. Each payload is the target text followed by two zero bytes.
- `src/I18n.cpp` loads such a table into a hash-to-string map. It hashes strings with its own FNV-1a over `char`s. `Translate` looks a string up and falls back to translating the "Title" part of a "Title: rest" string.

**The integrity-check bypass** (`src/mods/IntegrityCheckBypass.cpp`).
- It scans the game image for byte patterns and computes the code patches that defeat the anti-tamper checks: `ja`/`jnz` made unconditional with their targets kept, functions made to return at once, and the `/natives/` path edited.
- For RE3 it locates the integrity-check flag.
- On every RE8 frame it turns off the managers' update timers.
- It guards `NtProtectVirtualMemory`. A pristine copy of the syscall stub is taken once. `virtual_protect_impl` retries the syscall once after a flush. The `VirtualProtect` hook repairs a tampered stub before forwarding the call.
- Its hook on `AddVectoredExceptionHandler` decides which handler registrations go through.

## Modules

| file | module | models |
|---|---|---|
| `wrappers.dfy` | `Wrappers` | `Option` and `Result` |
| `bytes.dfy` | `Bytes`, `Slices` | fixed-width integers, little-endian layouts, sign extension; slice lemmas |
| `fnv.dfy` | `Fnv` | the two FNV-1a implementations |
| `ymo.dfy` | `Ymo` | the catalogue compiler: unit selection, key hashing, dictionary, serialisation |
| `i18n.dfy` | `I18n` | the runtime loader, `TranslateWithHash`, `Translate` |
| `roundtrip.dfy` | `RoundTrip` | compiler and loader together |
| `scanner.dfy` | `Scanner` | reference definitions of the pattern scanner and `calculate_absolute` |
| `patterns.dfy` | `Patterns` | the pattern tables and where their offsets land |
| `x86.dfy` | `X86` | relative branches, their targets, the two jump rewrites |
| `bypass.dfy` | `Bypass` | the RE8/RE3 pattern loop and `immediate_patch_re8/re4/dd2`, `remove_stack_destroyer` |
| `timers.dfy` | `Timers` | `on_frame` and `disable_update_timers` |
| `guardian.dfy` | `Guardian` | `virtual_protect_impl`, `setup_pristine_syscall`, `virtual_protect_hook`, the VEH hook |

## Model conventions

- A loaded module image is a `seq<u8>` and an address is an index into it.
- A patch is an address and the bytes written there. The bypass's operations compute the patches from the unpatched image.
- Helpers the code calls but whose source is not part of this model are parameters:
  - `resolve_instruction`, `find_function_start` and `get_disassembly_behind`;
  - the operating system's answers to the calls it makes.
- The scanner, `scan_data`, `scan_reverse` and `calculate_absolute` are also not part of this model. `Scanner` defines them by the contract the bypass relies on.
- C++ exceptions and memory faults are explicit values (`Write`, `Call`).

## Model

| member | source | states |
|---|---|---|
| Fnv.HashFromAppend | translate/po2ymo.py:7-11 | hashing `a + b` from `h` is hashing `b` from the hash of `a`; the `hval` argument continues a hash |
| Fnv.HashFromSnoc | translate/po2ymo.py:8-10 | hashing one more byte is one more round (xor the byte, multiply by the prime modulo 2^32) applied to the hash of the bytes before it |
| Fnv.KnownAnswerA | translate/po2ymo.py:4-11 | with basis 0x811c9dc5 and prime 0x01000193 the byte "a" hashes to the published FNV-1a value 0xe40c292c |
| Fnv.EmptyHashIsBasis | translate/po2ymo.py:7-11 | the empty input hashes to the offset basis |
| Fnv.Strlen | src/I18n.cpp:38 | the length is the index of the first NUL: a NUL is there and none before it |
| Fnv.CppFnv1a32 | src/I18n.cpp:37-46 | the runtime's per-`char` loop with `& 0xff` and 32-bit wrap computes the catalogue compiler's hash of the string's bytes, so both sides agree on every key |
| Ymo.HashedKey | translate/po2ymo.py:19-22 | with a context the key is context, byte 0x04, source, in that order; without one it is the source |
| Ymo.Payload | translate/po2ymo.py:24 | the payload is the target followed by exactly two zero bytes |
| Ymo.Put | translate/po2ymo.py:24 | dictionary assignment: the key maps to the new value, every other key keeps its lookup, keys stay distinct, an existing key keeps its position |
| Ymo.BuildTable | translate/po2ymo.py:16-24 | the dictionary never holds the same hash twice, however many units share one |
| Ymo.BuildTableHas | translate/po2ymo.py:16-24 | the dictionary holds a hash exactly when some emitted unit (translated, or fuzzy with a target when fuzzy units are included) has that key hash |
| Ymo.BuildTableLastWins | translate/po2ymo.py:16-24 | the value under a hash is the payload of the last emitted unit with that hash |
| Ymo.BuildTablePayloads | translate/po2ymo.py:16-24 | every dictionary row is some emitted unit's key hash and payload |
| Ymo.RowsSucceed | translate/po2ymo.py:29-33 | the row block is written exactly when every running offset fits in 16 bits, and fails with an offset overflow otherwise |
| Ymo.EncodeFailure | translate/po2ymo.py:27-33 | serialisation fails exactly when some payload offset reaches 2^16, and fails on the count first exactly when there are 2^16 or more rows |
| Ymo.EncodeLayout | translate/po2ymo.py:26-36 | total size is 2 + 6n + the payload lengths; bytes 0-1 hold n; row i holds the hash and offset of entry i; the first offset is 2 + 6n, each next one adds the previous payload's length; each payload lies at its offset |
| I18n.CString | src/I18n.cpp:25 | the string at an offset is the bytes up to the first NUL inside the buffer, and there is none when no NUL follows |
| I18n.ReadRows | src/I18n.cpp:10-24 | row i's hash is read from byte 2 + 6i and its offset from byte 6 + 6i, little-endian |
| I18n.LoadRowsSucceeds | src/I18n.cpp:20-28 | the model's loader, which copies each string where the source keeps a pointer, succeeds exactly when every row's string ends inside the buffer; the source makes no such check (see Left out) |
| I18n.LoadRowsKeys | src/I18n.cpp:20-28 | after loading, a key is bound exactly when it was bound before or some row carries it, and every earlier binding is kept |
| I18n.LoadRowsFirstWins | src/I18n.cpp:26 | `emplace`: a new key gets the string of the first row that carries it |
| I18n.LoadKeepsBindings | src/I18n.cpp:26 | a later load never replaces an earlier binding |
| I18n.LoadTranslateData | src/I18n.cpp:20-28 | a whole-table load succeeds exactly when the count, the row block and every row's string lie inside the buffer; it then binds exactly the keys bound before plus the hashes the rows carry, and every earlier binding keeps its string |
| I18n.TranslateWithHash | src/I18n.cpp:30-35 | the input comes back exactly when the hash is unbound or bound to an equal string; any other result is the string bound to the hash; NUL-free strings in and in the map give a NUL-free result |
| I18n.FirstColon | src/I18n.cpp:53 | the position found holds a colon and no colon comes before it; none is found exactly when the string has no colon |
| I18n.Translate | src/I18n.cpp:48-69 | the result is the input, or the string bound to the input's hash, or, for a first colon past position 0, the string bound to the title's hash followed by ": " and the text after that colon; C strings translate to C strings |
| I18n.TitleSplit | src/I18n.cpp:53-56 | the title ends at the first colon and holds no colon, so its own translation never splits again; both sides of the colon of a NUL-free string are NUL-free |
| I18n.TranslateNoColon | src/I18n.cpp:48-69 | a string without a colon translates to its direct lookup, so the recursion on the title never goes deeper than one level |
| I18n.TranslateCases | src/I18n.cpp:48-69 | against a non-recursive reading: the direct lookup when it differs from the input; else the title's translation, ": " and the verbatim text after the first colon (colon not at position 0) when the title translates to something else; else the input |
| RoundTrip.DecodeRow | src/I18n.cpp:22-24 | the loader reads back the count and row i exactly as the compiler wrote them |
| RoundTrip.EncodeThenLoad | src/I18n.cpp:20-28 | loading a serialised dictionary with NUL-free targets into an empty map binds exactly the dictionary's keys, each to its target without the two zero bytes |
| RoundTrip.CompileThenLoad | translate/po2ymo.py:16-36 | end to end: the loaded map binds exactly the emitted units' key hashes, each to the target of the last emitted unit with that hash |
| RoundTrip.CompiledLookup | src/I18n.cpp:30-35 | a unit's key, looked up in a compiled catalogue by its runtime hash, yields the unit's target when the unit is the last with that hash |
| Scanner.Scan | src/mods/IntegrityCheckBypass.cpp:136 | the forward scan returns the lowest match lying wholly inside its window, or reports that none lies there |
| Scanner.ScanModule | src/mods/IntegrityCheckBypass.cpp:85 | a whole-module scan finds the first match, and finds nothing exactly when the pattern never matches |
| Scanner.ScanReverse | src/mods/IntegrityCheckBypass.cpp:450 | the reverse scan returns the highest match starting in the window at or below the anchor, or reports that none starts there |
| Scanner.CalculateAbsolute | src/mods/IntegrityCheckBypass.cpp:92 | the absolute target minus the end of the 4-byte displacement equals the sign-extended displacement |
| Scanner.ExactPatternMatches | src/mods/IntegrityCheckBypass.cpp:336 | an exact pattern matches precisely where its bytes occur (`scan_data`) |
| Patterns.TablesLand | src/mods/IntegrityCheckBypass.cpp:29-67 | every RE8 offset lands on `0F 87` with a 4-byte displacement inside the pattern; every RE3 offset lands right after `88 0D` with 4 displacement bytes inside the pattern |
| Patterns.OffsetsLand | src/mods/IntegrityCheckBypass.cpp:392-559 | the RE4 and DD2 `jnz` offsets (+10, +0 from the reverse match, +10, +3) land on `75`; the sussy 3 and 4 offsets (+4, +6) land right after `E8`; the `/natives/` edit at +2 hits the `/` |
| Patterns.JaInMatch | src/mods/IntegrityCheckBypass.cpp:97-110 | in a match of a pattern whose offset is a `ja` site, the address holds `0F 87` and the whole 6-byte instruction lies inside the image |
| Patterns.FlagInMatch | src/mods/IntegrityCheckBypass.cpp:92 | in a match of a flag-store pattern, the address follows `88 0D` and its 4 displacement bytes lie inside the image |
| Patterns.JnzInMatch | src/mods/IntegrityCheckBypass.cpp:496-499 | in a match, a `jnz` site holds `75` with its displacement inside the image |
| Patterns.CallInMatch | src/mods/IntegrityCheckBypass.cpp:395-413 | in a match, a call site follows `E8` and its 4 displacement bytes lie inside the image |
| X86.JccToJmpKeepsTarget | src/mods/IntegrityCheckBypass.cpp:106-110 | `E9, d+1, 90` over `0F 8x d` is an unconditional jump one byte shorter whose target agrees with the original's modulo 2^32, and exactly unless d is 0x7FFFFFFF |
| X86.ShortJccToJmpKeepsTarget | src/mods/IntegrityCheckBypass.cpp:499 | replacing a `7x` opcode with `EB` keeps the displacement and the target |
| X86.JccToJmp | src/mods/IntegrityCheckBypass.cpp:106-110 | the rewrite keeps the six-byte length: `E9` first, `90` last, and in between the original displacement plus one, wrapped to 32 bits, little-endian; `X86.JccToJmpKeepsTarget` shows that this keeps the target |
| Bypass.WidenKeepsBytes | src/mods/IntegrityCheckBypass.cpp:112-117 | widening the patch bytes to `int16_t` keeps every value in 0..255 and loses nothing |
| Bypass.JaPatch | src/mods/IntegrityCheckBypass.cpp:97-110 | the patch for a `ja` at an address sits at that address and its six bytes fit inside the image |
| Bypass.Apply | src/mods/IntegrityCheckBypass.cpp:132 | writing a patch puts its bytes at its address and leaves every other byte alone |
| Bypass.PatchPattern | src/mods/IntegrityCheckBypass.cpp:96-137 | the rescan loop over one pattern patches every match's `ja` site, records each address, and adds only sound `ja` patches |
| Bypass.PatchIntegrityChecks | src/mods/IntegrityCheckBypass.cpp:77-137 | across all patterns, each patch rewrites the `ja` at some match's offset, no address is patched twice, the patched set is exactly the patches' addresses, and every match of every pattern is patched |
| Bypass.Re8PatchesKeepJumps | src/mods/IntegrityCheckBypass.cpp:106-110 | every recorded patch turns its `ja` into an unconditional jump with the same target modulo 2^32 |
| Bypass.ShortPatchKeepsJump | src/mods/IntegrityCheckBypass.cpp:499 | `EB` over a short conditional jump in the image makes it unconditional with the same target |
| Bypass.NearPatchKeepsJump | src/mods/IntegrityCheckBypass.cpp:107-110 | the 6-byte rewrite over a near conditional jump in the image makes it unconditional with the same target modulo 2^32 |
| Bypass.FlagOf | src/mods/IntegrityCheckBypass.cpp:92 | the flag address is the end of the displacement plus the sign-extended displacement found in the match |
| Bypass.LocateFlag | src/mods/IntegrityCheckBypass.cpp:82-92 | the flag stays unset exactly when no RE3 pattern occurs; otherwise it is the store target at the first match of the last pattern that occurs |
| Bypass.PatchSussy1 | src/mods/IntegrityCheckBypass.cpp:329-358 | a patch is made exactly when some visited match of the constant resolves and has a function start; it makes the function of the first such match return at once |
| Bypass.PatchSussy2 | src/mods/IntegrityCheckBypass.cpp:373-384 | a patch is made exactly when the pattern occurs and its first match has a function start; that function returns at once |
| Bypass.PatchCallee | src/mods/IntegrityCheckBypass.cpp:395-396 | when the pattern occurs, the callee of the call in its first match gets `mov al, 0; ret` |
| Bypass.PatchSussy3 | src/mods/IntegrityCheckBypass.cpp:392-408 | the `02` pattern's callee when that pattern occurs; only otherwise the `05` pattern's, and nothing when neither occurs |
| Bypass.PatchSussy4 | src/mods/IntegrityCheckBypass.cpp:410-418 | a patch exactly when the pattern occurs: its call's callee returns false |
| Bypass.ImmediatePatchRe8 | src/mods/IntegrityCheckBypass.cpp:307-420 | the patches are exactly the ones the four sussy steps make, one per step that finds its site, in the code's order (sussy 1, 2, 3, 4); each is a `ret` or `mov al, 0; ret`, at most four; when the sussy 4 pattern occurs the last one is its callee's |
| Bypass.WalkBack | src/mods/IntegrityCheckBypass.cpp:471-478 | walking the reversed disassembly finds the branch nearest the anchor, and nothing exactly when no instruction is a branch |
| Bypass.LastResortAsWritten | src/mods/IntegrityCheckBypass.cpp:477-489 | as written: a patch exactly when some instruction is a branch; it overwrites the nearest branch's first byte with `E9` if far, `EB` otherwise |
| Bypass.LastResortBreaksNearJcc | src/mods/IntegrityCheckBypass.cpp:481-485 | on `0F 85 10 00 00 00` reported as not far, the as-written patch leaves a jump 123 bytes back (target -121) instead of the jump to 22; the jump is not kept |
| Bypass.LastResort | src/mods/IntegrityCheckBypass.cpp:477-489 | corrected: any patch is made at the nearest branch and keeps the jump; none only when that branch is not a conditional jump inside the image |
| Bypass.LastResortKeepsNearJcc | src/mods/IntegrityCheckBypass.cpp:481-485 | on the same input the corrected last resort writes `E9 11 00 00 00 90` and the jump still goes to 22 |
| Bypass.LastResortNearJcc | src/mods/IntegrityCheckBypass.cpp:477-489 | corrected: whenever the nearest branch is a near conditional jump in the image, the last resort writes `E9`, its displacement plus one and `90` at its address |
| Bypass.Re4Scans | src/mods/IntegrityCheckBypass.cpp:432-457 | the two scanning stages: a found `jnz` keeps its jump; the primary pattern's first match decides when it occurs; no anchor gives up; the highest short `jnz` near the anchor is found when one exists; the stages fall through to the last resort exactly when the primary pattern never occurs and no short `jnz` lies within 0x100 bytes before the first anchor |
| Bypass.ImmediatePatchRe4AsWritten | src/mods/IntegrityCheckBypass.cpp:422-502 | as written: the same two stages, then, when both fail, the as-written last resort on the disassembly behind the anchor |
| Bypass.Re4VersionsAgreeUntilLastResort | src/mods/IntegrityCheckBypass.cpp:458-496 | the as-written and corrected RE4 give the same patch whenever the scans do not fall through to the last resort |
| Bypass.Re4AsWrittenBreaksNearJcc | src/mods/IntegrityCheckBypass.cpp:480-486 | on the 12 bytes `0F 85 10 00 00 00 88 85 92 01 00 00` with that near `jnz` reported as not far, RE4 as written writes `EB` at 0 and breaks the jump, while the corrected RE4 writes `E9 11 00 00 00 90` |
| Bypass.ImmediatePatchRe4 | src/mods/IntegrityCheckBypass.cpp:422-502 | corrected: every patch keeps its jump; the primary pattern's `jnz` wins when it occurs; with neither primary nor anchor nothing is patched; a short `jnz` within 0x100 bytes before the first anchor is patched with `EB`, the highest one; when there is none, the patch is the corrected last resort on the disassembly behind the anchor |
| Bypass.PatchJnz | src/mods/IntegrityCheckBypass.cpp:516-523 | a patch exactly when the pattern occurs: `EB` at the `jnz` of the first match, keeping the jump |
| Bypass.NativesEdit | src/mods/IntegrityCheckBypass.cpp:552-559 | writing `?` over the first character of an occurrence of `/natives/` leaves the disabled text there, which no longer matches |
| Bypass.PatchNatives | src/mods/IntegrityCheckBypass.cpp:544-559 | an edit exactly when the UTF-16 text occurs; it writes `3F 00` over the `/` of the first occurrence, which becomes `?natives/` and no longer matches |
| Bypass.Dd2Steps | src/mods/IntegrityCheckBypass.cpp:515-559 | the three DD2 steps: each makes a patch exactly when its pattern occurs, at its first match: `EB` at the first pattern's `jnz` (+10) and at the second's (+3), each keeping its jump, and `3F 00` at the `/` of `/natives/` |
| Bypass.PresentLists | src/mods/IntegrityCheckBypass.cpp:307-568 | the patches an immediate patch routine keeps are one per step that made one, exactly those, in step order |
| Bypass.ImmediatePatchDd2 | src/mods/IntegrityCheckBypass.cpp:504-568 | the patches are exactly those the three steps make, in order: the first pattern's `jnz` patch (first when it occurs), the second pattern's `jnz` patch when that pattern occurs, and the `/natives/` edit when the text occurs; each a kept jump or the two-byte `?`, at most three |
| Bypass.RemoveStackDestroyer | src/mods/IntegrityCheckBypass.cpp:570-585 | a `ret` exactly when the pattern occurs, at its first match |
| Timers.Disabled | src/mods/IntegrityCheckBypass.cpp:273-298 | both timer fields the type declares become false; every other field, and a timer field the type does not declare, is untouched |
| Timers.DisabledIdempotent | src/mods/IntegrityCheckBypass.cpp:279-298 | clearing the timers twice is clearing them once |
| Timers.DisableUpdateTimers | src/mods/IntegrityCheckBypass.cpp:257-299 | only the named singleton changes, and only when it exists and its null checks pass |
| Timers.DisableAllEffect | src/mods/IntegrityCheckBypass.cpp:245-253 | handling a list of managers in turn disables exactly the reachable listed ones and leaves every other object alone |
| Timers.OnFrame | src/mods/IntegrityCheckBypass.cpp:245-253 | a frame disables each of the five managers that is reachable and nothing else |
| Timers.OnFrameIdempotent | src/mods/IntegrityCheckBypass.cpp:238-254 | a second frame changes nothing the first did not |
| Guardian.NtSuccessHighBit | src/mods/IntegrityCheckBypass.cpp:668-679 | `NT_SUCCESS` and the high-bit test agree: both hold exactly when the status is below 0x80000000 |
| Guardian.VirtualProtectImpl | src/mods/IntegrityCheckBypass.cpp:651-680 | corrected: the syscall is retried once, exactly when the first status is 0xC0000045 and the flush exists and reports success; the result is the last status's high bit clear |
| Guardian.VirtualProtectImplAsWritten | src/mods/IntegrityCheckBypass.cpp:660-673 | as written: the syscall is retried whenever the first status is 0xC0000045 and the flush routine exists, whatever the flush returns |
| Guardian.FlushFailureStillRetries | src/mods/IntegrityCheckBypass.cpp:661-666 | a flush returning FALSE still makes the code as written retry and report success; the corrected version reports the first failure after one syscall |
| Guardian.ImplAgreesWhenFlushSucceeds | src/mods/IntegrityCheckBypass.cpp:664-666 | the two versions agree whenever the flush is missing or returns TRUE |
| Guardian.StubAddress | src/mods/IntegrityCheckBypass.cpp:610-613 | a stub starting with `E9` is replaced by its jump target; any other stub is its own address |
| Guardian.SetupPristineSyscall | src/mods/IntegrityCheckBypass.cpp:587-631 | no change once a pristine copy exists, or without ntdll, the export or a resolvable stub; otherwise the original pointer is the resolved stub and a copy exists exactly when the allocation succeeds; a new copy is 256 bytes, equals the stub's bytes, and is zeros when the copy faults |
| Guardian.SetupIdempotent | src/mods/IntegrityCheckBypass.cpp:588-591 | running setup again after it produced a copy changes nothing |
| Guardian.TraceOrdered | src/mods/IntegrityCheckBypass.cpp:690-736 | every trace of the hook lists its steps in code order, none twice |
| Guardian.VirtualProtectHook | src/mods/IntegrityCheckBypass.cpp:683-737 | the call is forwarded once; the original runs exactly when forwarding throws; the direct copy happens exactly on a tampered stub; escalation happens exactly when that copy faulted or did not stick; the copy with protection changed follows a successful protection change, and protection is restored after it |
| Guardian.SetupThenHookSeesPristine | src/mods/IntegrityCheckBypass.cpp:615-625 | after a setup that allocates and copies without a fault, the original pointer and the copy exist, and the hook finds the stub untouched and makes no direct copy |
| Guardian.HookRepairs | src/mods/IntegrityCheckBypass.cpp:691-724 | a tampered stub ends with its first 32 bytes pristine when either copy writes the pristine bytes; an untampered stub is left alone |
| Guardian.Find | src/mods/IntegrityCheckBypass.cpp:763 | `find` returns the first occurrence, and nothing exactly when the text does not occur |
| Guardian.AddVehHook | src/mods/IntegrityCheckBypass.cpp:753-775 | the hook always marks itself called; a registration goes through exactly when handlers are allowed, or the caller's module path contains `vehdebug`, or the caller is the framework module; otherwise the handler pointer comes back unregistered |

## Behaviour worth noting

- When `virtual_protect_impl` retries, it reports the status of the retried call, not the first failure (`src/mods/IntegrityCheckBypass.cpp:666-679`).
- The hook escalates the repair when the direct copy faults, as well as when it does not verify (`src/mods/IntegrityCheckBypass.cpp:705-708`).

## Left out

- Operating-system effects are not modelled.
  - The protection changes around the `/natives/` edit, and the `PAGE_EXECUTE_READWRITE` change on the stub during setup, are absent.
  - So are the allocation's protection, the syscall itself and module queries; their results are inputs.
- The `SF6` and `TDB_VER` build switches and the `MHRISE` method-hash patches are left out. They select among variants, or use reflection metadata that is not part of this model.
- Logging, `static` patch lifetimes and `ignore_application_entries` are left out: they do not change which patches are computed.
- The RE3 `on_frame` write of `true` through the flag pointer is left out. The model stops at locating the flag (`Bypass.LocateFlag`).
- `Patch::create` is not part of this model. Patches are computed from the unpatched image, as if every write happens after the scans.
- `Guardian.SetupPristineSyscall` is weaker than the source on one point. When copying faults partway, the model gives a zeroed snapshot; the partial copy the source would leave is not modelled.
- `Guardian.StubAddress` treats a jump whose displacement lies outside the image, or whose target is negative, as unresolvable. The source would follow it anyway.
- `Bypass.PatchSussy1`: does not model the wrap-around of the rescan window's `size_t` length when fewer than 0x100 bytes remain; the window is taken as empty there.
- `Guardian.VirtualProtectHook` tracks only the stub's first 32 bytes and the hook's steps. The memory protection in force afterwards is not modelled.
- The PO parser, the text written to the header file, and the catalogue's `FnvHash.hpp` are not part of this model. `Fnv.CppFnv1a32` shows agreement for the constants both sides use here.
- `g_buffer` heap management in `Translate` is replaced by returning a fresh string.
- `po2ymohpp`'s `encoding` and `byteorder` arguments are fixed at their defaults, UTF-8 and little-endian. `Ymo.Unit` holds the source, context and target already encoded as bytes, and `Ymo.Encode` always writes little-endian.
- I18n.LoadTranslateData: is stricter than the source. The source stores a pointer into the table for each row and reads it later, with no check that the rows or the strings lie inside the table; reading past it is undefined behaviour. The model copies each string at load time and returns `None` when the count, a row or a string runs past the buffer. On well-formed tables (`RoundTrip.EncodeThenLoad`) the two agree.
- I18n.Translate: strings are byte sequences, so an input may hold a zero byte, which a `const char*` cannot carry. The contracts do not exclude it; the NUL-free clauses cover the inputs the source can actually receive.
- Threads racing with the hook are not modelled.

## Findings

| source | as written | input that shows it | evidently intended | confidence | as-written member | corrected member |
|---|---|---|---|---|---|---|
| src/mods/IntegrityCheckBypass.cpp:661-666 | `NT_SUCCESS` is applied to the `BOOLEAN` that `RtlFlushSecureMemoryCache` returns. A byte widened to a status is never negative, so the syscall is retried even when the flush fails | first status 0xC0000045, flush returns FALSE (0), retry returns 0: the code retries and reports success | retry only when the flush returns TRUE | not executed | Guardian.VirtualProtectImplAsWritten, Guardian.FlushFailureStillRetries | Guardian.VirtualProtectImpl |
| src/mods/IntegrityCheckBypass.cpp:480-486 | The last-resort RE4 patch writes a single `EB` over the nearest branch whenever the decoder does not call it far. For a near `0F 8x rel32` conditional jump this leaves `EB 8x`, a short jump to an unrelated address | `0F 85 10 00 00 00` at address 0, reported as a non-far branch: the jump to 22 becomes a jump to -121 | rewrite a near conditional jump as `E9 rel32+1 90` and a short one by its opcode, keeping the target | not executed | Bypass.LastResortAsWritten, Bypass.LastResortBreaksNearJcc, Bypass.ImmediatePatchRe4AsWritten, Bypass.Re4AsWrittenBreaksNearJcc | Bypass.LastResort, Bypass.LastResortKeepsNearJcc, Bypass.LastResortNearJcc, Bypass.ImmediatePatchRe4 |
