# AnDbg, modelled and proved in Dafny

AnDbg is a debugger for Android on arm64. Its core keeps several records in step with a process it patches: bytes
of memory, the debug registers of every thread, and the stops and restarts that ptrace reports. This project models
that core and proves what the records promise, for every sequence of operations and every outcome of the kernel
calls behind them.

- `Tracee.dfy`: the debugged process as the kernel lets one reach it. Every call may fail at any time. The ghost
  counter `faults` counts failures, so that an operation can promise to fail only when a call did.
- `MemoryControl.dfy`: the bulk memory path and the word-wise path behind it.
- `RegisterControl.dfy`: one register, read and written through its whole set; register names.
- `BreakpointModel.dfy`: the breakpoint manager as a state machine. A `State` is its tables, the memory, the debug
  registers and the *pristine* memory, the bytes as they would be without breakpoints. An `Event` is one operation
  with its outcome, and `Step` says what it may do.
- `BreakpointTables.dfy`, `BreakpointWords.dfy`, `BreakpointPatches.dfy`, `BreakpointRuns.dfy`: what every step and every
  run keeps of the tables, of one word of memory, of all memory and the debug registers.
- `BreakpointEffects.dfy`: what each operation does in plain terms, without the state machine's definitions: entries, bytes,
  bits, and that nothing else changes.
- `BreakpointManager.dfy`: the class with the manager's mutable fields. Each method is proved to take one step of the
  state machine, and the object's invariant says that its present state ends a run from an empty manager; so the
  theorems about runs hold of every sequence of calls.
- `DebuggerCore.dfy`: the session, launching an app, the dispatch of breakpoint types, stepping over with a temporary
  breakpoint.
- `Launch.dfy`: the event loop that catches an app's fork from the zygote, against a protocol automaton.
- `RegisterBatch.dfy`: batches of registers by name and hexadecimal string, and what reading back a written batch answers.
- `HexCodec.dfy`, `Alignment.dfy`: hexadecimal, byte order, mask arithmetic.
- `RpcServer.dfy`: messages, frames and the loop that answers a client.

`dafny verify dfyconfig.toml` checks the project.

## What is modelled as it stands, and what as it is meant

- `src/memory_control.cpp:66-67` gives PTRACE_POKEDATA the address of the local word instead of the word. The
  word-wise write takes a `PokeArgument` and is proved for both. `PokedPointerIsRightIff` says exactly when the
  source's argument stores the right bytes, `FallbackIsRightIff` says it of the whole write, and `PokedPointerExample`
  gives a case where it does not; the bulk path is right either way (`WriteMemory`). The breakpoint manager, too, is proved
  for both: with `byValue` it pokes words, without it any address. Then `Guarantees` promises the overlay as long as every
  patch went by the bulk path, and beyond that for every word no operation damaged; `PokedWriteIsHarmlessIff` says exactly
  when such a patch is harmless, and in `PokedRunExample` it is not.
- `src/breakpoint_manager.cpp:350` has the test for a missing address entry the wrong way round. `LookupAsCoded` keeps
  it, and `LookupAsCodedIsRightIff` says exactly when it gives the right answer: for stale entries only. In
  `LookupAsCodedExample` it misses a breakpoint that was just set. `GetBreakpointAt` models the intended test.
- `src/breakpoint_manager.cpp:219-222` leaves entries in the address index. The model does too; the index is right
  nevertheless (`LookupAgreesWithScan`).
- `src/breakpoint_manager.cpp:148` looks at the pool before the thread is probed at `:154`, so a thread that nobody
  probed is refused (`UnprobedIsRefused`). The manager is private to the debugger (`src/debugger_core.hpp:103`), and no
  member of the debugger probes; so `set_breakpoint` never sets a hardware breakpoint, whatever it is asked for
  (`SetBreakpoint`, `OnlySoftwareBreakpoints`). What is proved of pools and debug registers is about users of the manager
  that probe first. A failed probe is never repeated, and one whose restore fails leaves a count with an empty pool and
  the test values in the registers; `ProbeStep` has both.
- `src/breakpoint_manager.cpp:167` loses a register when it is given the software type. `PoolLeaksIff` says exactly when
  and `PoolLeakExample` does it in two calls; `src/debugger_core.cpp:606-629` never asks for that.
- `src/breakpoint_manager.cpp:207-215` returns a register to its pool even if its enable bit could not be cleared. The
  event of a removal says whether it was; `UnclearedRemovalStraysIff` says exactly when such a register is left enabled,
  and `UndoInAnyOrder` what removals restore whether or not such calls succeed.
- A bulk write may be short and the fallback may then fail. The caller is told that nothing was done, and a few bytes
  of the patch stay. `TornWriteExample` shows this; `TornWriteIsHarmlessIff` says exactly when it matters, and
  `RunKeepsWord` that it matters for the one word only. process_vm_writev(2) promises that it never splits a single
  element, as which every patch is sent; a tracee with `wholeElements` keeps that promise, and then no run has one.
- `src/debugger_core.cpp:222`, `:237`, `:245` and `:199` ask for a detach while the zygote may be running, which ptrace
  refuses. `Launcher.Run` says which exits detach from a stop.

Assumptions: a refused write of a register set changes nothing; every thread sees the same memory; nobody else writes
under a software breakpoint; what lies outside breakpoints after the tracee ran is its own; the hardware implements a prefix of the sixteen debug registers, and the others read as
zero and ignore writes; ids do not overflow.

## Model

| member | source | states |
|---|---|---|
| MemoryControl.ReadMemoryPtrace | src/memory_control.cpp:25-43 | success fills the buffer with exactly the bytes of the range, for every size; it fails only if a peek did |
| MemoryControl.WriteMemoryPtrace | src/memory_control.cpp:45-74 | success stores the data in exactly its range, the tail of the last word included; failure leaves a whole number of words of it; it terminates and fails only if a call did |
| MemoryControl.PokeChunk | src/memory_control.cpp:52-68 | one word of the loop: a short word is completed with what memory holds, so only the data's bytes change |
| MemoryControl.ReadMemory | src/memory_control.cpp:165-179 | whatever the bulk read delivered, success means the buffer holds the range |
| MemoryControl.WriteMemory | src/memory_control.cpp:181-196 | success means exactly the range holds the data, by either path; failure leaves a prefix of the data; without a fault it succeeds. With the source's argument, too: after a fault memory is what the word-wise path stores over the prefix that the bulk path had stored |
| MemoryControl.SlowPathRefinesFastPath | src/memory_control.cpp:181-196 | after any prefix a short bulk write stored, the finished fallback leaves the memory of a full bulk write, and reading the range gives the data |
| MemoryControl.PrefixOverPrefix | src/memory_control.cpp:181-196 | a prefix stored over another prefix leaves the longer one |
| MemoryControl.TailIsKept | src/memory_control.cpp:56-64 | storing data together with the bytes that follow it in memory changes only the data's range |
| MemoryControl.PokedPointerIsRightIff | src/memory_control.cpp:66-67 | poking the word's address stores the data if and only if every word of the intended range equals that address |
| MemoryControl.FallbackIsRightIff | src/memory_control.cpp:45-74 | the whole write as it is coded, once it takes the fallback: right under the same condition and no other, whatever prefix was stored before |
| MemoryControl.PokedPointerExample | src/memory_control.cpp:66-67 | a four-byte patch for which it stores neither the patch nor the bytes after it |
| RegisterControl.GetDbg | src/register_control.cpp:266-282 | the slot of the thread's set, or the information word with address zero; nothing for other numbers |
| RegisterControl.SetDbg | src/register_control.cpp:284-305 | the thread's set with that one register replaced, as the hardware accepts it; failure changes nothing |
| RegisterControl.SetDbgTouchesOneSlot | src/register_control.cpp:284-305 | rewriting the whole set through one implemented register changes that slot only |
| RegisterControl.GetRegister | src/register_control.cpp:181-237 | the named value of the thread's set |
| RegisterControl.SetRegister | src/register_control.cpp:193-264 | the thread's set with exactly that value replaced; failure changes nothing |
| RegisterControl.Find | src/register_control.cpp:77-103 | the first place of a name in a table, or the invalid number |
| RegisterControl.RegisterOf | src/register_control.cpp:77-103 | the number a name stands for, as C strings compare |
| RegisterControl.IndexIsFirst | src/register_control.cpp:77-103 | the search finds a name if and only if the table has it |
| RegisterControl.NamesAndNumbers | src/register_control.cpp:20-103 | a string stands for a register if and only if, up to its first NUL, it is the register's name |
| RegisterControl.NumberedAsNamed | src/register_control.hpp:23-47 | x0 to x30, sp, pc, pstate and v0 to v31, fpsr, fpcr stand for the numbers they have in their order |
| BreakpointModel.SetEnable | src/breakpoint_manager.cpp:254-256 | the enable bit is as asked and the address is kept |
| BreakpointTables.StepKeepsTables | src/breakpoint_manager.cpp:106-385 | every operation with any outcome keeps the entries well formed, addresses unique, both indexes in agreement with the table, and the pools free of shared or held registers |
| BreakpointTables.RegisterKeepsTables | src/breakpoint_manager.cpp:355-372 | adding a breakpoint keeps all of that |
| BreakpointTables.ForgetKeepsTables | src/breakpoint_manager.cpp:218-222 | removing one keeps it, no empty thread set and a stale address entry included |
| BreakpointTables.ReturnKeepsTables | src/breakpoint_manager.cpp:203-222 | so does giving its register back |
| BreakpointTables.StepConservesPool | src/breakpoint_manager.cpp:31-225 | a probed thread's free and held registers together never change; the probe makes them all the hardware has, or none |
| BreakpointTables.PoolLeaksIff | src/breakpoint_manager.cpp:138-182 | setting a hardware breakpoint conserves the pool if and only if it did not take a register for the software type |
| BreakpointTables.ProbeFindsTheRegisters | src/breakpoint_manager.cpp:31-104 | after a successful first probe exactly the implemented registers are free; a repeated probe changes nothing |
| BreakpointTables.UnprobedIsRefused | src/breakpoint_manager.cpp:147-154 | a thread that was not probed gets no hardware breakpoint |
| BreakpointTables.LookupAgreesWithScan | src/breakpoint_manager.cpp:347-383 | lookup through the address index finds a breakpoint if and only if the linear scan does, and it is the one at that address |
| BreakpointTables.LookupAsCodedIsRightIff | src/breakpoint_manager.cpp:347-353 | with the inverted test that answer comes if and only if the address has an entry whose breakpoint is gone |
| BreakpointWords.WriteLeavesWord | src/memory_control.cpp:45-74 | a four-byte patch leaves every aligned word alone but its own, and the next one if an address was poked |
| BreakpointWords.RightWordIsOk | src/breakpoint_manager.cpp:106-136 | patching a word with what the table asks for there puts it right, whatever it was before |
| BreakpointWords.UnpatchedWordIsPristine | src/breakpoint_manager.cpp:119-125 | the instruction saved when a breakpoint is set is the pristine one, if the word was right |
| BreakpointWords.StepKeepsWord | src/breakpoint_manager.cpp:106-301 | every operation with any outcome keeps every word right that its own write does not damage: pristine, or BRK under an enabled software breakpoint |
| BreakpointPatches.OverlayIsWordwise | src/breakpoint_manager.cpp:106-301 | memory is the overlay if and only if every aligned word is right; alignment and the check for duplicates keep patches from sharing a word |
| BreakpointPatches.OverlayDeterminesMemory | src/breakpoint_manager.cpp:106-301 | breakpoints and pristine bytes determine every byte of memory |
| BreakpointPatches.StepKeepsMemory | src/breakpoint_manager.cpp:106-301 | every operation whose write stored all of its word or nothing keeps memory equal to pristine memory with BRK at exactly the enabled software breakpoints |
| BreakpointPatches.TornWriteIsHarmlessIff | src/breakpoint_manager.cpp:127-132 | a failed write that left a prefix keeps the overlay if and only if those bytes were there before |
| BreakpointPatches.PokedWriteIsHarmlessIff | src/memory_control.cpp:66-67 | a patch that poked an address keeps the overlay if and only if the address is, as bytes, the word and what follows it |
| BreakpointPatches.TornWriteExample | src/breakpoint_manager.cpp:127-132 | a refused operation after which an instruction is damaged and no breakpoint is tracked |
| BreakpointPatches.OneSlotWritten | src/register_control.cpp:284-305 | no other register of any thread changes |
| BreakpointPatches.StepKeepsDebug | src/breakpoint_manager.cpp:138-301 | every operation, failed ones included, keeps each live hardware breakpoint's register holding its address, its type and an enable bit equal to its flag |
| BreakpointPatches.StepLeavesNoStrays | src/breakpoint_manager.cpp:138-301 | if the calls that clear and restore registers succeed, every enabled register is held by a live breakpoint or is as it was at the start |
| BreakpointPatches.UnclearedRemovalStraysIff | src/breakpoint_manager.cpp:207-215 | a removal whose register could not be cleared leaves an enabled register behind if and only if the breakpoint was enabled and the register was different at the start |
| BreakpointPatches.PollutedProbeStraysIff | src/breakpoint_manager.cpp:89-90 | a probe that could not restore the registers leaves some enabled unless all held the test value at the start |
| BreakpointRuns.RunIsSound | src/breakpoint_manager.hpp:70-86 | in every reachable state, whatever failed, tables and debug registers are in order |
| BreakpointRuns.RunKeepsWord | src/breakpoint_manager.cpp:106-301 | in every state of every run each word is right that no operation damaged, whatever became of others |
| BreakpointRuns.RunKeepsByte | src/breakpoint_manager.cpp:106-301 | so each byte outside the damaged words is BRK's under an enabled software breakpoint and pristine elsewhere |
| BreakpointRuns.RunKeepsOverlay | src/breakpoint_manager.cpp:106-301 | in every state of a run whose writes each stored all or nothing memory is the overlay |
| BreakpointRuns.RunConservesPool | src/breakpoint_manager.cpp:99-216 | from its probe on a thread's registers, free or held, are the same in every later state |
| BreakpointRuns.PoolIsAllOrNothing | src/breakpoint_manager.cpp:99-216 | they are all the hardware has, or none |
| BreakpointRuns.NothingLeftBehind | src/breakpoint_manager.cpp:184-225 | after any run that ends without live breakpoints the thread index is empty; without torn writes memory is pristine; if the clearing and restoring calls succeeded, every enabled register is untouched |
| BreakpointRuns.RemovalUndoes | src/breakpoint_manager.cpp:184-225 | one removal undoes exactly its breakpoint: its entry, its register's place in the pool and, if the call succeeded, the enable bit of that register only |
| BreakpointRuns.UndoInAnyOrder | src/breakpoint_manager.cpp:184-225 | removing all live breakpoints in any order refills every pool and, if each restored word was stored whole, restores every byte, whether or not registers could be cleared; exactly the registers that were held change, by their enable bit, or stay as they were if a clearing call failed |
| BreakpointRuns.UnprobedRunHasNoHardware | src/breakpoint_manager.cpp:138-182 | in any run without a probe every pool is empty, only software breakpoints live and no debug register was touched |
| BreakpointRuns.UnprobedRunCreatesNone | src/breakpoint_manager.cpp:147-154 | in such a run every request for a hardware breakpoint fails and changes no entry |
| BreakpointRuns.PoolLeakExample | src/breakpoint_manager.cpp:147-170 | a run of two operations from the start after which the only register is neither free nor held |
| BreakpointRuns.LookupAsCodedExample | src/breakpoint_manager.cpp:347-353 | a run of one operation after which the inverted test misses the breakpoint, and has no defined answer elsewhere |
| BreakpointRuns.PokedRunExample | src/memory_control.cpp:66-67 | a run of one operation after which a breakpoint is tracked without BRK, and the instruction after it is gone |
| BreakpointEffects.SettingSoftware | src/breakpoint_manager.cpp:106-136 | a breakpoint set has the thread, address and bytes it was set for, is under a fresh id, and the word is 00 00 20 D4; nothing else changes |
| BreakpointEffects.SettingHardware | src/breakpoint_manager.cpp:138-182 | the same with a register from the thread's pool, which then holds the address and the control word 65, 67 or 69; refused, with a hardware type, it changes no pool |
| BreakpointEffects.SwitchingOn | src/breakpoint_manager.cpp:227-263 | enabling sets the flag of that entry only; the word is then 00 00 20 D4, or bit 0 of the register is set; nothing else changes |
| BreakpointEffects.SwitchingOff | src/breakpoint_manager.cpp:265-301 | disabling clears the flag of that entry only; the word is then the saved instruction, or bit 0 is clear; nothing else changes |
| BreakpointEffects.Removing | src/breakpoint_manager.cpp:184-225 | removing takes that entry away only, restores its instruction or clears its bit 0, and returns its register |
| BreakpointEffects.Probing | src/breakpoint_manager.cpp:31-104 | a first successful probe counts the implemented registers, frees exactly those and changes no register; a failed one frees none and touches only the thread's implemented registers |
| BreakpointEffects.FlagTells | src/breakpoint_manager.cpp:227-301 | where memory is the overlay, the tracee will trap at an entry if and only if its flag is set: by 00 00 20 D4 or bit 0, or by neither |
| BreakpointEffects.LastSwitchDecides | src/breakpoint_manager.cpp:106-301 | in every run a breakpoint not removed since it was last created, enabled or disabled is live, and its flag is what that operation asked for |
| BreakpointManagers.BreakpointManager.constructor | src/breakpoint_manager.cpp:17-20 | an empty manager over any tracee, with either kind of poke |
| BreakpointManagers.BreakpointManager.Guarantees | src/breakpoint_manager.hpp:56-131 | what holds of every manager after any calls, word or address poked: tables and debug registers are in order; memory is the overlay if every patch went by the bulk path, or if words are poked and writes not split; and every undamaged word is right |
| BreakpointManagers.BreakpointManager.CheckDuplicateBreakpoint | src/breakpoint_manager.cpp:374-383 | true if and only if a live breakpoint has the address |
| BreakpointManagers.BreakpointManager.GetBreakpoints | src/breakpoint_manager.cpp:303-313 | every live breakpoint once |
| BreakpointManagers.BreakpointManager.GetBreakpointsOf | src/breakpoint_manager.cpp:315-336 | exactly the live breakpoints of the thread, once each |
| BreakpointManagers.BreakpointManager.Collect | src/breakpoint_manager.cpp:326-332 | the loop over a thread's ids lists each id's live breakpoint once |
| BreakpointManagers.BreakpointManager.GetBreakpointAt | src/breakpoint_manager.cpp:347-353 | with the intended test: a breakpoint if and only if one is live at the address |
| BreakpointManagers.BreakpointManager.NewBreakpoint | src/breakpoint_manager.cpp:355-372 | the tables with the new breakpoint under a fresh id; its constructor never throws here |
| BreakpointManagers.BreakpointManager.PatchMemory | src/memory_control.cpp:45-196 | a patch stores its word or nothing unless the bulk path failed; then it may leave a prefix if it fails and writes may be split, or eight wrong bytes if it succeeds and an address is poked, and nothing else |
| BreakpointManagers.BreakpointManager.SetSoftwareBreakpoint | src/breakpoint_manager.cpp:106-136 | one step of the model; refused only for a duplicate or a fault; without a fault its patch is whole; a created one is the only new entry, with the given thread and address and the word that was there, which is now 00 00 20 D4 |
| BreakpointManagers.BreakpointManager.SetHardwareBreakpoint | src/breakpoint_manager.cpp:138-182 | one step of the model; refused only for a duplicate, an empty pool, the software type or a fault; a created one is the only new entry, and its register holds the address and the type's control word |
| BreakpointManagers.BreakpointManager.InitHardwareRegister | src/breakpoint_manager.cpp:31-104 | one probe step of the model; fails only on a fault; a first success frees exactly the implemented registers and changes none |
| BreakpointManagers.BreakpointManager.ProbeRegisters | src/breakpoint_manager.cpp:31-61 | whichever of its calls fails, the probe is one probe step: tables and debug registers of every thread as there; it fails only on a fault |
| BreakpointManagers.BreakpointManager.VerifyAndRestore | src/breakpoint_manager.cpp:63-104 | success means the count is the number of implemented registers, exactly those are added to the pool and every debug register is as before the test values; otherwise the pool is unchanged, and the test values stay only if the restore failed |
| BreakpointManagers.BreakpointManager.CountVerified | src/breakpoint_manager.cpp:73-86 | counts exactly the implemented registers |
| BreakpointManagers.BreakpointManager.GetHardwareRegistersCount | src/breakpoint_manager.cpp:23-29 | the count of a probe step, or -1, which only a fault brings about |
| BreakpointManagers.BreakpointManager.RemoveBreakpoint | src/breakpoint_manager.cpp:184-225 | one step of the model; fails only for an unknown id or a fault, and leaves an enable bit only after a fault; without a fault its patch is whole; that entry and no other goes, its instruction is back or its bit 0 clear |
| BreakpointManagers.BreakpointManager.EnableBreakpoint | src/breakpoint_manager.cpp:227-263 | one step of the model; fails only for an unknown id or a fault; without a fault its patch is whole; the flag of that entry and no other is set, the word is then 00 00 20 D4 or the register's bit 0 set, and nothing else changes |
| BreakpointManagers.BreakpointManager.DisableBreakpoint | src/breakpoint_manager.cpp:265-301 | one step of the model; fails only for an unknown id or a fault; without a fault its patch is whole; the flag of that entry and no other is cleared, the saved instruction is back or the register's bit 0 clear, and nothing else changes |
| DebuggerCore.JoinedTidsAre | src/debugger_core.cpp:99-135 | a thread is recorded if and only if a listing of it was stopped under trace or attached and waited for, and its options were set |
| DebuggerCore.JoinedInOrder | src/debugger_core.cpp:99-135 | threads are recorded in the order in which they are listed |
| DebuggerCore.FilteredInOrder | src/debugger_core.cpp:708-722 | the threads that are sent on keep the order of the recorded ones |
| DebuggerCore.DebuggerCore.Attach | src/debugger_core.cpp:94-151 | succeeds if and only if the main thread was stopped under trace, or attached and waited for, and its options were set; then session and thread list are the new ones, otherwise the old |
| DebuggerCore.DebuggerCore.Launch | src/debugger_core.cpp:162-334 | succeeds if and only if the first report that ends the watching is a fork whose child has the name before the activity's first slash, and that child's main thread joined; then session and threads are that child's, otherwise the old; a zygote that was attached to is released however it ends |
| DebuggerCore.DebuggerCore.SwitchThread | src/debugger_core.cpp:49-58 | succeeds if and only if the thread is recorded, and keeps the session in order |
| DebuggerCore.DebuggerCore.Detach | src/debugger_core.cpp:336-362 | asks every recorded thread once; succeeds if and only if each was detached or is a zombie |
| DebuggerCore.DebuggerCore.Kill | src/debugger_core.cpp:364-381 | clears the session if and only if the kill succeeded; process and threads are recorded together or not at all |
| DebuggerCore.DebuggerCore.ResumeThread | src/debugger_core.cpp:688-698 | one PTRACE_CONT for a recorded thread, none for any other; fails only for an unrecorded thread or a fault |
| DebuggerCore.DebuggerCore.Resume | src/debugger_core.cpp:700-728 | the kernel is asked to continue exactly the recorded threads found in a tracing stop, once each and in order; it succeeds if and only if all of those were; it fails only without a process or after a fault |
| DebuggerCore.DebuggerCore.SetBreakpoint | src/debugger_core.cpp:606-629 | code 1 sets a software breakpoint on the current thread, 2, 3 and 4 ask for an execution, a write and a read-write one, any other changes nothing; only a software breakpoint is ever created, and it is the only new entry; a request for a hardware one changes neither entries nor the tracee |
| DebuggerCore.DebuggerCore.OnlySoftwareBreakpoints | src/debugger_core.cpp:606-685 | after any calls of the debugger no thread has a debug register to give, free or held, only software breakpoints live, and every debug register is as it was at the start |
| DebuggerCore.DebuggerCore.RemoveBreakpoint | src/debugger_core.cpp:631-634 | one removal by the manager, with no probe: that entry only goes, and its instruction is back; fails only for an unknown id or a fault |
| DebuggerCore.DebuggerCore.EnableBreakpoint | src/debugger_core.cpp:636-639 | one enabling by the manager, with no probe: the flag of that entry only is set, and the word is 00 00 20 D4; fails only for an unknown id or a fault |
| DebuggerCore.DebuggerCore.DisableBreakpoint | src/debugger_core.cpp:641-644 | one disabling by the manager, with no probe: the flag of that entry only is cleared, and the saved instruction is back; fails only for an unknown id or a fault |
| DebuggerCore.ForgetUndoesRegister | src/breakpoint_manager.cpp:184-372 | removing the breakpoint just added restores the tables, except for the id and the address entry |
| DebuggerCore.TemporaryBreakpointIsUndone | src/debugger_core.cpp:831-844 | setting a breakpoint, running and removing it restores the tables and, if both patches were whole, the bytes under every breakpoint and the word it patched |
| DebuggerCore.DebuggerCore.StepOver | src/debugger_core.cpp:812-850 | the breakpoint is set on the current thread at its register pc plus 4; that thread is continued once and waited for. For every wait outcome tables are as before once the removal succeeded, and so is the code if words are poked or no call failed; if nothing was set tables are unchanged, and so is memory unless a bulk write was split; the breakpoint is still tracked if the removal failed |
| Launch.AcceptedLog | src/debugger_core.cpp:188-323 | in any log the protocol accepts every stop is answered once, except one ended by the detach, and there is one detach |
| Launch.NothingAfterDetach | src/debugger_core.cpp:188-323 | after the detach of the zygote an accepted log has no wait and no request to the zygote |
| Launch.AnsweredBeforeNextWait | src/debugger_core.cpp:230-321 | between a stop and the next wait an accepted log has the answer that stop needs: SYSCALL for a syscall stop, CONT for any other |
| Launch.OthersGoOn | src/debugger_core.cpp:318-321 | another process that was reported is continued by the very next request |
| Launch.StopsAreUsed | src/debugger_core.cpp:204-262 | in its first stop the zygote is given its options first, and in a fork stop it is asked for the child first |
| Launch.VerdictIs | src/debugger_core.cpp:230-321 | the outcome of watching by its first report that is late, an error, the zygote's exit or the named fork: timed out, no report, zygote died, or that child |
| Launch.CaughtIsFound | src/debugger_core.cpp:268-287 | a child is found if and only if its fork with the wanted name is the first such report |
| Launch.Launcher.Run | src/debugger_core.cpp:188-327 | for every list of reports the log follows the protocol and ends with the zygote released, from a stop exactly if the app was caught or the options failed; besides the zygote only the caught app is let go; the outcome is that of the first decisive report, and no later one is read |
| Launch.Launcher.Watch | src/debugger_core.cpp:230-321 | the loop answers every stop, and continues every other process reported, before it waits again; it finds a child if and only if that was caught |
| Launch.Launcher.Handle | src/debugger_core.cpp:243-320 | one report: its stop is answered, or the loop ends with the zygote released or in the matching fork's stop; a child is found exactly from a fork with its message and the wanted name |
| Launch.FirstDecisive | src/debugger_core.cpp:230-321 | the first report that ends the loop: late, an error, the zygote's exit, or a fork with a message and the wanted name |
| RegisterBatch.WriteOne | src/debugger_core.cpp:394-414 | one entry: its register gets its value, truncated to the register's width, or nothing changes; it throws if and only if the value is no string |
| RegisterBatch.WriteEntries | src/debugger_core.cpp:394-455 | entries are applied in order up to the first that fails, which had no register, no value or met a fault |
| RegisterBatch.WriteOneSection | src/debugger_core.cpp:387-456 | an absent section writes nothing, a wrong format fails, an object's entries are written; which failures are the caller's and which are faults |
| RegisterBatch.WriteRegisters | src/debugger_core.cpp:383-459 | the general section first, the other only after all of it; it succeeds exactly if every entry was applied, and fails only for a bad section, a bad entry or a fault; it throws exactly at a value that is no string, in either section, with everything before it written |
| RegisterBatch.ResolvesIff | src/debugger_core.cpp:394-450 | an entry can be written if and only if it names a register and its value is a string of hexadecimal digits, alone or after 0x or 0X |
| RegisterBatch.AppliedAt | src/debugger_core.cpp:394-455 | a named register has the value of the last entry for it |
| RegisterBatch.AppliedElsewhere | src/debugger_core.cpp:394-455 | a register no entry names keeps its value |
| RegisterBatch.ReadAll | src/debugger_core.cpp:475-494 | the listing has exactly the names of the table, each with the canonical form of its own register |
| RegisterBatch.ReadItems | src/debugger_core.cpp:501-518 | the listing has exactly the names asked for, each with the canonical form of the register it stands for; it fails only for an item that names none or a fault |
| RegisterBatch.ReadOneSection | src/debugger_core.cpp:465-523 | an answer is what the registers hold under the names asked for, none for an absent section; it fails only for a request that can never be answered or a fault, and always for the former |
| RegisterBatch.ReadRegisters | src/debugger_core.cpp:461-604 | both sections are answered, or the call fails; the general section's answer stays when only the other fails, and a bad general section answers nothing |
| RegisterBatch.AllIsEveryName | src/debugger_core.cpp:475-518 | a listing answers `all` if and only if it answers the list of every name |
| RegisterBatch.WriteThenRead | src/debugger_core.cpp:394-518 | after a batch, each name in any list reads as the canonical form of the last number written to its register, cut to 64, 128 or 32 bits, or of the old value if no entry names it |
| RegisterBatch.RequestHolds | src/debugger_core.cpp:383-459 | after a request, complete or not, every register of either class holds the last number that a written entry for it spells, modulo 2^64, 2^128 or 2^32, or its old value |
| RegisterBatch.FittingNumberIsHeld | src/debugger_core.cpp:383-459 | a number below 2^64, 2^128 for v0 to v31, or 2^32 for fpsr and fpcr, is held unchanged |
| RegisterBatch.RequestReadsBack | src/debugger_core.cpp:383-604 | the same from end to end: after a request with both sections, every name in any answer of either section, listed or `all`, is shown as 0x and the canonical digits of that number |
| HexCodec.HexStrToNum | src/utils.hpp:155-196 | the value of the digits modulo 2^width for any number of digits, prefix or not; nothing for any other string |
| HexCodec.HexAlphabet | src/utils.hpp:175-189 | the digits are 0-9, a-f and A-F, with the values they have |
| HexCodec.ParsedIsSpelled | src/utils.hpp:155-196 | parsing answers the value of a run of digits, alone or after 0x or 0X, modulo 2^width, and nothing for any other text |
| HexCodec.NumToHexStr | src/utils.hpp:198-225 | the digits of the number, with or without prefix |
| HexCodec.ShiftAndAdd | src/utils.hpp:190-192 | truncating at every digit gives the truncated value of the whole |
| HexCodec.DigitsAreCanonical | src/utils.hpp:198-225 | printed digits stand for the number, are lower case and have no leading zero |
| HexCodec.CanonicalIsUnique | src/utils.hpp:198-225 | a number has only one such text |
| HexCodec.DigitsFit | src/utils.hpp:198-225 | a number of 4k bits has at most k digits |
| HexCodec.PrintedNumberParses | src/utils.hpp:155-225 | parsing a printed number gives it back, with or without the prefix |
| HexCodec.SwapBytes | src/utils.hpp:80-133 | the loop yields the number whose most significant byte was the least significant one, and never overflows |
| HexCodec.SwappingTwice | src/utils.hpp:80-133 | the two conversions undo each other, and the stored bytes are the digits base 256, most significant first |
| HexCodec.WireAt | src/utils.hpp:80-133 | byte j of k on the wire is the number divided by 256^(k-1-j), modulo 256 |
| HexCodec.StoredBytesOf | src/utils.hpp:80-107 | the swapped number is stored as the bytes reversed |
| Alignment.MaskTakesRemainder | src/utils.cpp:107-110 | the mask of a power of two takes away the remainder |
| Alignment.AlignDownIsGreatest | src/utils.cpp:107-110 | the greatest multiple that is not above the value |
| Alignment.AlignUpIsLeastIff | src/utils.cpp:102-105 | the least multiple that is not below the value if and only if the sum does not overflow; zero otherwise |
| RpcServer.SerializedComesBackIff | src/rpc_server.cpp:334-362 | a message survives serialising if and only if its command has no bar |
| RpcServer.FramesOfEncoded | src/rpc_server.cpp:281-332 | the frames read from any concatenation of sent messages are those messages, whatever follows |
| RpcServer.FrameLayout | src/rpc_server.cpp:311-320 | a frame is the length of its data in eight bytes, the highest first, and the data |
| RpcServer.FramesEndAt | src/rpc_server.cpp:281-309 | frames end at less than eight bytes, at a length of zero, or at less data than the length says |
| RpcServer.DecodeEncoded | src/rpc_server.cpp:281-362 | decoding them gives back the list of messages |
| RpcServer.RepliesDecode | src/rpc_server.cpp:213-279 | a client that decodes the output gets exactly one reply for each frame, in order |
| RpcServer.ReplyAt | src/rpc_server.cpp:228-268 | the i-th reply is the reply to the i-th frame |
| RpcServer.ClientIsTold | src/rpc_server.cpp:228-268 | for the i-th frame, command, bar and content, the i-th message a client decodes is success or fail with the status text up to its first NUL, or error with the exception's or the unknown command |
| RpcServer.Connection.ReadMessage | src/rpc_server.cpp:281-309 | the content of the first frame, and nothing for an empty or truncated one |
| RpcServer.Connection.SendMessage | src/rpc_server.cpp:311-332 | success appends exactly the frame of the data; failure a proper prefix of it |
| RpcServer.Connection.HandleClient | src/rpc_server.cpp:213-279 | without a fault the output is exactly the replies to all frames up to the first empty or truncated one, and decodes to success, fail or error for each as its handler said; with one, it is the replies to the first frames and perhaps a proper part of the next reply |

## Left out

- Sockets, the accept loop, `/proc` and `ps`, `system`, sleeps and logging: only what they tell the core is modelled.
- JSON text: requests are taken as the library delivers them. `write_registers` throws for a value that is no string.
- Disassembly, memory maps, search for packages by name, string trimming: wrappers over libraries or easy claims.
- `pause`: the mirror image of `resume`. Hardware single-stepping: one request and one wait.
- The debugger's lookups of breakpoints: they pass the manager's answers on.
- `DebuggerCore::read_memory` and `write_memory`: wrappers; the first reports success for a failed read too. A foreign
  write under a software breakpoint is excluded by assumption.
- Attaching to another process while breakpoints are live, and overflow of the id counter.
- The order in which the standard containers are walked: any order is allowed.
- `remove_breakpoint` reads the erased record for its message text; messages are not modelled.
- `Handlers` that stop the server while it answers, receives cut short by signals, and lengths that cannot be allocated.
- NewBreakpoint: requires a positive thread and an aligned address, which the constructor of the record checks and every caller ensures.
- HandleClient: requires replies shorter than 2^64 bytes, which is what the length field can say.
