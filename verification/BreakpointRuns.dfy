/**
 Whole runs of the breakpoint manager: any number of operations in any order, with any I/O outcomes.
 */
module BreakpointRuns {
  import opened Tracees
  import opened BreakpointModel
  import opened BreakpointTables
  import opened BreakpointWords
  import opened BreakpointPatches

  ghost predicate IsRun(states: seq<State>, events: seq<Event>) {
    && |states| == |events| + 1
    && forall i :: 0 <= i < |events| ==> Step(states[i], events[i], states[i + 1])
  }

  /** A manager that has done nothing yet, on any tracee. */
  ghost predicate Initial(s: State) {
    s.tables == EMPTY_TABLES && s.memory == s.pristine && DebugSane(s)
  }

  ghost predicate AllWhole(events: seq<Event>) { forall i :: 0 <= i < |events| ==> Whole(events[i]) }
  ghost predicate AllUntorn(events: seq<Event>) { forall i :: 0 <= i < |events| ==> Untorn(events[i]) }
  ghost predicate AllByValue(events: seq<Event>) { forall i :: 0 <= i < |events| ==> ByValue(events[i]) }
  ghost predicate AllClean(events: seq<Event>) { forall i :: 0 <= i < |events| ==> Clean(events[i]) }
  ghost predicate AllDispatched(events: seq<Event>) { forall i :: 0 <= i < |events| ==> Dispatched(events[i]) }

  ghost predicate Sound(s: State) {
    TablesOk(s.tables, s.implemented) && DebugOk(s) && |s.memory| == |s.pristine|
  }

  lemma StepAt(states: seq<State>, events: seq<Event>, i: nat)
    requires IsRun(states, events) && i < |events|
    ensures Step(states[i], events[i], states[i + 1])
  {
  }

  lemma StepIsSound(s: State, e: Event, s': State)
    requires Sound(s) && Step(s, e, s')
    ensures Sound(s')
  {
    StepKeepsTables(s, e, s');
    StepKeepsDebug(s, e, s');
  }

  lemma InitialIsSound(s: State)
    requires Initial(s)
    ensures Sound(s) && MemoryOk(s)
  {
    assert ThreadIndex(s.tables);
  }

  lemma RunExtends(states: seq<State>, events: seq<Event>, e: Event, s': State)
    requires IsRun(states, events) && Step(states[|events|], e, s')
    ensures IsRun(states + [s'], events + [e])
  {
  }

  /** In every reachable state the indexes agree with the table of breakpoints, the pools are in order and
      the debug registers hold what the live breakpoints say, whatever failed on the way. */
  lemma {:induction false} RunIsSound(states: seq<State>, events: seq<Event>, n: nat)
    requires IsRun(states, events) && Sound(states[0]) && n <= |events|
    ensures Sound(states[n])
  {
    if n > 0 {
      RunIsSound(states, events, n - 1);
      StepAt(states, events, n - 1);
      StepIsSound(states[n - 1], events[n - 1], states[n]);
    }
  }

  /** No operation so far has damaged the word. */
  ghost predicate Undamaged(states: seq<State>, events: seq<Event>, n: nat, at: nat)
    requires n <= |events| < |states|
  {
    forall i :: 0 <= i < n ==> !Damages(states[i], events[i], at)
  }

  lemma StepAtKeepsWord(states: seq<State>, events: seq<Event>, i: nat, at: nat)
    requires IsRun(states, events) && i < |events| && Sound(states[i])
    requires at % 4 == 0 && WordAtOk(states[i], at) && !Damages(states[i], events[i], at)
    ensures WordAtOk(states[i + 1], at)
  {
    StepAt(states, events, i);
    StepKeepsWord(states[i], events[i], states[i + 1], at);
  }

  /** A word stays right as long as no operation damages it, whatever happens to other words. */
  lemma {:induction false} RunKeepsWord(states: seq<State>, events: seq<Event>, n: nat, at: nat)
    requires IsRun(states, events) && Sound(states[0]) && n <= |events|
    requires at % 4 == 0 && WordAtOk(states[0], at) && Undamaged(states, events, n, at)
    ensures WordAtOk(states[n], at)
  {
    if n > 0 {
      RunKeepsWord(states, events, n - 1, at);
      RunIsSound(states, events, n - 1);
      assert !Damages(states[n - 1], events[n - 1], at);
      StepAtKeepsWord(states, events, n - 1, at);
    }
  }

  lemma ByteOfWord(s: State, at: nat, i: nat)
    requires TablesOk(s.tables, s.implemented) && WordAtOk(s, at) && at % 4 == 0 && at <= i < at + 4 && i < |s.memory|
    ensures |s.memory| == |s.pristine|
    ensures s.memory[i] == if Covered(s.tables.breakpoints, i) then [0x00, 0x00, 0x20, 0xD4][i - at] else s.pristine[i]
  {
    CoveredAtWord(s.tables, s.implemented, at, i);
  }

  /** In every reachable state each byte outside the damaged words is BRK's under an enabled software breakpoint and
      pristine anywhere else. */
  lemma RunKeepsByte(states: seq<State>, events: seq<Event>, n: nat, at: nat, i: nat)
    requires IsRun(states, events) && Sound(states[0]) && MemoryOk(states[0]) && n <= |events|
    requires at % 4 == 0 && at <= i < at + 4 && i < |states[n].memory| && Undamaged(states, events, n, at)
    ensures |states[n].memory| == |states[n].pristine|
    ensures states[n].memory[i]
            == if Covered(states[n].tables.breakpoints, i) then [0x00, 0x00, 0x20, 0xD4][i - at]
               else states[n].pristine[i]
  {
    OverlayGivesWord(states[0], at);
    RunKeepsWord(states, events, n, at);
    RunIsSound(states, events, n);
    ByteOfWord(states[n], at, i);
  }

  /** In every reachable state memory is the pristine memory with BRK at exactly the enabled software
      breakpoints, as long as every write stored all of its word or nothing. */
  lemma {:induction false} RunKeepsOverlay(states: seq<State>, events: seq<Event>, n: nat)
    requires IsRun(states, events) && Sound(states[0]) && MemoryOk(states[0]) && n <= |events|
    requires AllWhole(events)
    ensures MemoryOk(states[n])
  {
    if n > 0 {
      RunKeepsOverlay(states, events, n - 1);
      RunIsSound(states, events, n - 1);
      StepAt(states, events, n - 1);
      StepKeepsMemory(states[n - 1], events[n - 1], states[n]);
    }
  }

  /** From its probe on, what a thread's pool is made of never changes. */
  lemma {:induction false} RunConservesPool(states: seq<State>, events: seq<Event>, m: nat, n: nat, tid: int)
    requires IsRun(states, events) && Sound(states[0]) && m <= n <= |events| && AllDispatched(events)
    requires tid in states[m].tables.registerCounts
    ensures tid in states[n].tables.registerCounts
    ensures states[n].tables.Owned(tid) == states[m].tables.Owned(tid)
    decreases n
  {
    if m < n {
      RunConservesPool(states, events, m, n - 1, tid);
      RunIsSound(states, events, n - 1);
      StepAt(states, events, n - 1);
      StepConservesPool(states[n - 1], events[n - 1], states[n], tid);
    }
  }

  ghost predicate AllOrNothing(s: State, tid: int) {
    s.tables.Owned(tid) == {} || (tid in s.tables.registerCounts && s.tables.Owned(tid) == Upto(s.implemented))
  }

  lemma StepKeepsAllOrNothing(s: State, e: Event, s': State, tid: int)
    requires Sound(s) && AllOrNothing(s, tid) && Step(s, e, s') && Dispatched(e)
    ensures AllOrNothing(s', tid)
  {
    StepConservesPool(s, e, s', tid);
    StepKeepsTables(s, e, s');
    HeldIsDisjoint(s'.tables, s'.implemented, tid);
  }

  /** In a run from the start, the registers of a thread, free or held, are none or all those the hardware
      has. */
  lemma {:induction false} PoolIsAllOrNothing(states: seq<State>, events: seq<Event>, n: nat, tid: int)
    requires IsRun(states, events) && Initial(states[0]) && n <= |events| && AllDispatched(events)
    ensures AllOrNothing(states[n], tid)
  {
    InitialIsSound(states[0]);
    if n == 0 {
      HeldIsDisjoint(states[0].tables, states[0].implemented, tid);
    } else {
      PoolIsAllOrNothing(states, events, n - 1, tid);
      RunIsSound(states, events, n - 1);
      StepAt(states, events, n - 1);
      StepKeepsAllOrNothing(states[n - 1], events[n - 1], states[n], tid);
    }
  }

  lemma {:induction false} RunLeavesNoStrays(states: seq<State>, events: seq<Event>, n: nat)
    requires IsRun(states, events) && Sound(states[0]) && n <= |events| && AllClean(events)
    ensures NoStrays(states[n], states[0].debug)
  {
    if n > 0 {
      RunLeavesNoStrays(states, events, n - 1);
      RunIsSound(states, events, n - 1);
      StepAt(states, events, n - 1);
      StepLeavesNoStrays(states[n - 1], events[n - 1], states[n], states[0].debug);
    }
  }

  lemma NoThreadsWithoutBreakpoints(t: Tables)
    requires ThreadIndex(t) && t.breakpoints == map[]
    ensures t.threads == map[]
  {
    forall tid ensures tid !in t.threads {
      assert tid in t.threads ==> t.threads[tid] != {};
      forall id ensures id !in t.ThreadIds(tid) {
        assert id !in t.breakpoints;
      }
      assert t.ThreadIds(tid) == {};
    }
  }

  /** Without live breakpoints nothing of the debugger is left: the thread index is empty; memory is pristine if no
      failed write left part of itself; and if the debug-register calls that clear and restore succeeded, every
      enabled debug register is one the debugger did not change. */
  lemma NothingLeftBehind(states: seq<State>, events: seq<Event>)
    requires IsRun(states, events) && Sound(states[0]) && MemoryOk(states[0])
    requires states[|events|].tables.breakpoints == map[]
    ensures states[|events|].tables.threads == map[]
    ensures AllWhole(events) ==> states[|events|].memory == states[|events|].pristine
    ensures AllClean(events) ==>
              && states[|events|].debug.Keys == states[0].debug.Keys
              && forall tid, r: nat :: IsEnabled(SlotAt(states[|events|].debug, tid, r)) ==>
                   SlotAt(states[|events|].debug, tid, r) == SlotAt(states[0].debug, tid, r)
  {
    var n := |events|;
    var s := states[n];
    RunIsSound(states, events, n);
    NoThreadsWithoutBreakpoints(s.tables);
    if AllWhole(events) {
      RunKeepsOverlay(states, events, n);
      assert forall i :: 0 <= i < |s.memory| ==> !Covered(s.tables.breakpoints, i);
    }
    if AllClean(events) {
      RunLeavesNoStrays(states, events, n);
      assert forall tid :: s.tables.Held(tid) == {};
    }
  }

  // ---------- undoing ----------

  /** A removal that succeeded; its register, if it had one, need not have been cleared. */
  ghost predicate Removal(e: Event) { e.Remove? && e.ok }

  ghost predicate Removals(events: seq<Event>) {
    forall i :: 0 <= i < |events| ==> Removal(events[i])
  }

  /** What removals have undone so far of the tables. */
  ghost predicate TablesUndone(start: State, s: State) {
    && s.pristine == start.pristine && s.implemented == start.implemented
    && (forall id :: id in s.tables.breakpoints ==>
          id in start.tables.breakpoints && s.tables.breakpoints[id] == start.tables.breakpoints[id])
    && (forall tid :: s.tables.Owned(tid) == start.tables.Owned(tid))
  }

  /** A debug register that was released has its enable bit cleared, unless a call failed; any other is as it was. */
  ghost predicate SlotUndone(start: State, s: State, tid: int, r: nat, clean: bool) {
    var before, after := SlotAt(start.debug, tid, r), SlotAt(s.debug, tid, r);
    if r in start.tables.Held(tid) && r !in s.tables.Held(tid)
    then after == SetEnable(before, false) || (!clean && after == before)
    else after == before
  }

  ghost predicate SlotsUndone(start: State, s: State, clean: bool) {
    && s.debug.Keys == start.debug.Keys
    && forall tid, r: nat :: SlotUndone(start, s, tid, r, clean)
  }

  lemma RemovalUndoesTables(start: State, s: State, e: Event, s': State)
    requires Sound(s) && TablesUndone(start, s) && Removal(e) && Step(s, e, s')
    ensures TablesUndone(start, s')
    ensures e.id in s.tables.breakpoints && s'.tables.breakpoints == s.tables.breakpoints - {e.id}
  {
    forall tid ensures s'.tables.Owned(tid) == s.tables.Owned(tid) {
      RemoveConserves(s, e, s', tid);
    }
  }

  lemma HeldByEntry(t: Tables, id: int)
    requires id in t.breakpoints && t.breakpoints[id].hardwareRegister < DEBUG_SLOTS
    ensures t.breakpoints[id].hardwareRegister in t.Held(t.breakpoints[id].tid)
  {
  }

  /** The register of the removed breakpoint, in the state before: it was held at the start too. */
  lemma RegisterOfRemoved(start: State, s: State, e: Event)
    requires Sound(s) && TablesUndone(start, s) && e.Remove? && e.id in s.tables.breakpoints
    requires !s.tables.breakpoints[e.id].kind.Software?
    ensures var b := s.tables.breakpoints[e.id];
            && b.hardwareRegister < s.implemented && b.hardwareRegister in start.tables.Held(b.tid)
            && SlotAt(s.debug, b.tid, b.hardwareRegister) == SlotOf(b)
  {
    HeldByEntry(start.tables, e.id);
  }

  /** What a removal does to one debug register. */
  lemma SlotAfterRemoval(s: State, e: Event, s': State, tid: int, r: nat)
    requires Sound(s) && Removal(e) && Step(s, e, s')
    ensures e.id in s.tables.breakpoints
    ensures var b := s.tables.breakpoints[e.id];
            if !b.kind.Software? && e.cleared && tid == b.tid && r == b.hardwareRegister
            then SlotAt(s'.debug, tid, r) == SetEnable(SlotOf(b), false)
            else SlotAt(s'.debug, tid, r) == SlotAt(s.debug, tid, r)
  {
    var b := s.tables.breakpoints[e.id];
    if !b.kind.Software? && e.cleared {
      OneSlotWritten(s, b.tid, b.hardwareRegister, SetEnable(SlotOf(b), false), s'.debug);
    }
  }

  lemma HeldAfterRemoval(s: State, e: Event, s': State, tid: int)
    requires Sound(s) && Removal(e) && Step(s, e, s')
    ensures e.id in s.tables.breakpoints
    ensures var b := s.tables.breakpoints[e.id];
            s'.tables.Held(tid)
            == s.tables.Held(tid) - if b.tid == tid && !b.kind.Software? then {b.hardwareRegister} else {}
  {
    HeldAfterForget(s.tables, e.id, tid, s'.tables, s.implemented);
  }

  /** One debug register, when the breakpoint `b` goes. */
  lemma SlotStaysUndone(start: State, s: State, s': State, b: Breakpoint, cleared: bool, tid: int, r: nat, clean: bool)
    requires SlotUndone(start, s, tid, r, clean) && (clean ==> cleared)
    requires s'.tables.Held(tid)
             == s.tables.Held(tid) - if b.tid == tid && !b.kind.Software? then {b.hardwareRegister} else {}
    requires if !b.kind.Software? && cleared && tid == b.tid && r == b.hardwareRegister
             then SlotAt(s'.debug, tid, r) == SetEnable(SlotOf(b), false)
             else SlotAt(s'.debug, tid, r) == SlotAt(s.debug, tid, r)
    requires !b.kind.Software? ==>
               && b.hardwareRegister in start.tables.Held(b.tid) && b.hardwareRegister in s.tables.Held(b.tid)
               && SlotAt(s.debug, b.tid, b.hardwareRegister) == SlotOf(b)
    ensures SlotUndone(start, s', tid, r, clean)
  {
  }

  lemma RemovalUndoesSlot(start: State, s: State, e: Event, s': State, tid: int, r: nat, clean: bool)
    requires Sound(s) && TablesUndone(start, s) && Removal(e) && Step(s, e, s') && (clean ==> e.cleared)
    requires SlotUndone(start, s, tid, r, clean)
    ensures SlotUndone(start, s', tid, r, clean)
  {
    SlotAfterRemoval(s, e, s', tid, r);
    HeldAfterRemoval(s, e, s', tid);
    if !s.tables.breakpoints[e.id].kind.Software? {
      HeldByEntry(s.tables, e.id);
      RegisterOfRemoved(start, s, e);
    }
    SlotStaysUndone(start, s, s', s.tables.breakpoints[e.id], e.cleared, tid, r, clean);
  }

  lemma RemovalKeepsThreads(s: State, e: Event, s': State)
    requires Sound(s) && Removal(e) && Step(s, e, s')
    ensures s'.debug.Keys == s.debug.Keys
  {
    var b := s.tables.breakpoints[e.id];
    if !b.kind.Software? && e.cleared {
      OneSlotWritten(s, b.tid, b.hardwareRegister, SetEnable(SlotOf(b), false), s'.debug);
    }
  }

  /** One removal undoes its own breakpoint, in the tables and in the debug registers. */
  lemma RemovalUndoes(start: State, s: State, e: Event, s': State, clean: bool)
    requires Sound(s) && TablesUndone(start, s) && SlotsUndone(start, s, clean)
    requires Removal(e) && Step(s, e, s') && (clean ==> e.cleared)
    ensures e.id in s.tables.breakpoints && s'.tables.breakpoints == s.tables.breakpoints - {e.id}
    ensures TablesUndone(start, s') && SlotsUndone(start, s', clean)
  {
    RemovalUndoesTables(start, s, e, s');
    RemovalKeepsThreads(s, e, s');
    forall tid, r: nat ensures SlotUndone(start, s', tid, r, clean) {
      RemovalUndoesSlot(start, s, e, s', tid, r, clean);
    }
  }

  lemma {:induction false} RemovalsUndo(states: seq<State>, events: seq<Event>, n: nat, clean: bool)
    requires IsRun(states, events) && Sound(states[0]) && Removals(events) && n <= |events|
    requires clean ==> AllClean(events)
    ensures TablesUndone(states[0], states[n]) && SlotsUndone(states[0], states[n], clean)
  {
    if n > 0 {
      RemovalsUndo(states, events, n - 1, clean);
      RunIsSound(states, events, n - 1);
      StepAt(states, events, n - 1);
      assert Removal(events[n - 1]) && (clean ==> Clean(events[n - 1]));
      RemovalUndoes(states[0], states[n - 1], events[n - 1], states[n], clean);
    }
  }

  /** From any sound state, removing every live breakpoint, in whatever order, restores every byte of memory, if each
      restored word was stored whole, and returns every register to its pool. The registers that were held have their
      enable bits cleared, and exactly those change; where the call that clears one failed, it is as it was. The outcome
      does not mention the order. */
  lemma UndoInAnyOrder(states: seq<State>, events: seq<Event>)
    requires IsRun(states, events) && Sound(states[0]) && MemoryOk(states[0]) && Removals(events)
    requires states[|events|].tables.breakpoints == map[]
    ensures AllWhole(events) ==> states[|events|].memory == states[0].pristine
    ensures states[|events|].tables.threads == map[]
    ensures forall tid :: states[|events|].tables.FreeOf(tid) == states[0].tables.Owned(tid)
    ensures states[|events|].debug.Keys == states[0].debug.Keys
    ensures forall tid, r: nat ::
              var before, after := SlotAt(states[0].debug, tid, r), SlotAt(states[|events|].debug, tid, r);
              if r in states[0].tables.Held(tid)
              then after == SetEnable(before, false) || (!AllClean(events) && after == before)
              else after == before
  {
    var n, clean := |events|, AllClean(events);
    RemovalsUndo(states, events, n, clean);
    NothingLeftBehind(states, events);
    forall tid
      ensures states[n].tables.Held(tid) == {} && states[n].tables.FreeOf(tid) == states[n].tables.Owned(tid)
    {
    }
    forall tid, r: nat
      ensures var before, after := SlotAt(states[0].debug, tid, r), SlotAt(states[n].debug, tid, r);
              if r in states[0].tables.Held(tid) then after == SetEnable(before, false) || (!clean && after == before)
              else after == before
    {
      assert SlotUndone(states[0], states[n], tid, r, clean);
    }
  }

  // ---------- without a probe ----------

  ghost predicate NeverProbed(events: seq<Event>) { forall i :: 0 <= i < |events| ==> !events[i].Probe? }

  /** No thread has a register to give, only software breakpoints live, and no debug register was touched. */
  ghost predicate NoHardware(start: State, s: State) {
    && s.tables.registerCounts == map[] && s.debug == start.debug
    && (forall tid :: s.tables.FreeOf(tid) == {})
    && (forall id :: id in s.tables.breakpoints ==> s.tables.breakpoints[id].kind.Software?)
  }

  lemma StepAddsNoHardware(start: State, s: State, e: Event, s': State)
    requires NoHardware(start, s) && Step(s, e, s') && !e.Probe?
    ensures NoHardware(start, s')
    ensures e.SetHardware? ==> !e.result.Created? && s'.tables.breakpoints == s.tables.breakpoints
  {
    forall tid ensures s'.tables.FreeOf(tid) == {} {
      assert s.tables.FreeOf(tid) == {};
    }
  }

  /** Without a probe no debug register is ever written, whatever is asked for: the pools from which registers are
      taken stay empty, and the request that would probe looks at the pool first. */
  lemma {:induction false} UnprobedRunHasNoHardware(states: seq<State>, events: seq<Event>, n: nat)
    requires IsRun(states, events) && Initial(states[0]) && NeverProbed(events) && n <= |events|
    ensures NoHardware(states[0], states[n])
  {
    if n > 0 {
      UnprobedRunHasNoHardware(states, events, n - 1);
      StepAt(states, events, n - 1);
      assert !events[n - 1].Probe?;
      StepAddsNoHardware(states[0], states[n - 1], events[n - 1], states[n]);
    }
  }

  /** So every request for a hardware breakpoint fails, and changes no entry. */
  lemma UnprobedRunCreatesNone(states: seq<State>, events: seq<Event>, i: nat)
    requires IsRun(states, events) && Initial(states[0]) && NeverProbed(events) && i < |events|
    requires events[i].SetHardware?
    ensures !events[i].result.Created? && states[i + 1].tables.breakpoints == states[i].tables.breakpoints
  {
    UnprobedRunHasNoHardware(states, events, i);
    StepAt(states, events, i);
    StepAddsNoHardware(states[0], states[i], events[i], states[i + 1]);
  }

  // ---------- reachable states in which the source goes wrong ----------

  const UNUSED := HwDebug(0, seq(DEBUG_SLOTS, _ => DebugSlot(0, 0)))

  /** One probe of a thread with one register, one request for a hardware breakpoint of the software type: the
      request is refused, and the register is neither free nor held any more. */
  lemma PoolLeakExample()
    ensures var s0 := State(EMPTY_TABLES, [], map[1 := UNUSED], 1, []);
            var s1 := s0.(tables := EMPTY_TABLES.SetFree(1, {0}).(registerCounts := map[1 := 1]));
            var s2 := s1.(tables := s1.tables.SetFree(1, {}));
            && Initial(s0)
            && IsRun([s0, s1, s2], [Probe(1, true, 1, false), SetHardware(1, 0x1000, Software, Refused, 0)])
            && s1.tables.Owned(1) == {0} && s2.tables.Owned(1) == {}
  {
    var s0 := State(EMPTY_TABLES, [], map[1 := UNUSED], 1, []);
    var s1 := s0.(tables := EMPTY_TABLES.SetFree(1, {0}).(registerCounts := map[1 := 1]));
    assert Upto(1) == {0};
    assert EMPTY_TABLES.FreeOf(1) + Upto(1) == {0};
    assert Step(s0, Probe(1, true, 1, false), s1);
    assert s1.tables.FreeOf(1) - {0} == {};
    assert s1.tables.Held(1) == {};
  }

  /** One software breakpoint at 0: the lookup of the source does not find it, and for any other address it
      dereferences the end of the index. */
  lemma LookupAsCodedExample()
    ensures var nop: seq<byte> := [0x1F, 0x20, 0x03, 0xD5];
            var s0 := State(EMPTY_TABLES, nop, map[], 0, nop);
            var b := Breakpoint(1, 1, 0, Software, true, nop, NO_REGISTER);
            var s1 := s0.(tables := EMPTY_TABLES.Register(b), memory := BRK);
            && Initial(s0) && IsRun([s0, s1], [SetSoftware(1, 0, Created(1), Exact)])
            && s1.tables.Duplicate(0)
            && s1.tables.Lookup(0) == Some(b) && s1.tables.LookupAsCoded(0) == Some(None)
            && s1.tables.Lookup(4) == None && s1.tables.LookupAsCoded(4) == None
  {
    var nop: seq<byte> := [0x1F, 0x20, 0x03, 0xD5];
    var t := EMPTY_TABLES.Register(Breakpoint(1, 1, 0, Software, true, nop, NO_REGISTER));
    assert Slice(nop, 0, 4) == nop && Splice(nop, 0, BRK) == BRK;
    assert 1 in t.breakpoints && t.breakpoints[1].address == 0;
  }

  /** A breakpoint set through the word-wise path of the source: the manager tracks it, but no BRK is there, and the
      instruction after it is gone. */
  lemma PokedRunExample()
    ensures var nops: seq<byte> := [0x1F, 0x20, 0x03, 0xD5, 0x1F, 0x20, 0x03, 0xD5];
            var pointer: seq<byte> := [0xF0, 0xEE, 0xFF, 0x7F, 0, 0, 0, 0];
            var s0 := State(EMPTY_TABLES, nops, map[], 0, nops);
            var b := Breakpoint(1, 1, 0, Software, true, nops[..4], NO_REGISTER);
            var s1 := s0.(tables := EMPTY_TABLES.Register(b), memory := pointer);
            && Initial(s0) && IsRun([s0, s1], [SetSoftware(1, 0, Created(1), Poked(pointer))])
            && !WordAtOk(s1, 0) && !WordAtOk(s1, 4)
  {
    var nops: seq<byte> := [0x1F, 0x20, 0x03, 0xD5, 0x1F, 0x20, 0x03, 0xD5];
    var pointer: seq<byte> := [0xF0, 0xEE, 0xFF, 0x7F, 0, 0, 0, 0];
    var t := EMPTY_TABLES.Register(Breakpoint(1, 1, 0, Software, true, nops[..4], NO_REGISTER));
    assert Slice(nops, 0, 4) == nops[..4] && Splice(nops, 0, pointer) == pointer;
    assert 1 in t.breakpoints && t.breakpoints[1].address == 0;
    assert PatchedAt(t.breakpoints, 0) && !PatchedAt(t.breakpoints, 4);
    assert pointer[0] == 0xF0 && BRK[0] == 0 && pointer[4] == 0 && nops[4] == 0x1F;
  }
}
