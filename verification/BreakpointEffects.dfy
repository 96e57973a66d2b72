/**
 What the operations do in plain terms: which entry appears, changes or goes, what its bytes and its debug register
 are then, and that nothing else changes.
 */
module BreakpointEffects {
  import opened Tracees
  import opened BreakpointModel
  import opened BreakpointTables
  import opened BreakpointWords
  import opened BreakpointPatches
  import opened BreakpointRuns

  /** The tracee will trap there: the bytes of `BRK #0`, or a debug register with the address and its lowest bit set. */
  ghost predicate InForce(b: Breakpoint, memory: seq<byte>, debug: map<int, HwDebug>) {
    if b.kind.Software? then
      b.address + 4 <= |memory| && memory[b.address..b.address + 4] == [0x00, 0x00, 0x20, 0xD4]
    else
      var slot := SlotAt(debug, b.tid, b.hardwareRegister);
      slot.addr == b.address && slot.ctrl & 1 == 1
  }

  /** The tracee will not: the saved instruction is back, or the lowest bit is clear. */
  ghost predicate Suspended(b: Breakpoint, memory: seq<byte>, debug: map<int, HwDebug>) {
    if b.kind.Software? then
      b.address + 4 <= |memory| && memory[b.address..b.address + 4] == b.original
    else
      SlotAt(debug, b.tid, b.hardwareRegister).ctrl & 1 == 0
  }

  /** No byte outside the four at `at` differs. */
  ghost predicate OnlyWord(m: seq<byte>, m': seq<byte>, at: nat) {
    |m'| == |m| && forall i :: 0 <= i < |m| && !(at <= i < at + 4) ==> m'[i] == m[i]
  }

  /** No debug register but that one differs. */
  ghost predicate OnlySlot(debug: map<int, HwDebug>, debug': map<int, HwDebug>, tid: int, r: nat) {
    && debug'.Keys == debug.Keys
    && forall i, k: nat :: !(i == tid && k == r) ==> SlotAt(debug', i, k) == SlotAt(debug, i, k)
  }

  /** Memory and debug registers changed at most where the breakpoint has them. */
  ghost predicate OnlyAt(b: Breakpoint, s: State, s': State) {
    if b.kind.Software? then OnlyWord(s.memory, s'.memory, b.address) && s'.debug == s.debug
    else s'.memory == s.memory && OnlySlot(s.debug, s'.debug, b.tid, b.hardwareRegister)
  }

  lemma EnableBitIs(slot: DebugSlot)
    ensures SetEnable(slot, true).ctrl & 1 == 1 && SetEnable(slot, false).ctrl & 1 == 0
  {
  }

  lemma PatchedIs(m: seq<byte>, at: nat, word: seq<byte>, ok: bool, m': seq<byte>)
    requires |word| == 4 && Patched(m, at, word, ok, Exact, m')
    ensures OnlyWord(m, m', at)
    ensures if ok then at + 4 <= |m'| && m'[at..at + 4] == word else m' == m
  {
    if ok { assert m'[at..at + 4] == word; }
  }

  // ---------- one operation ----------

  lemma SettingSoftware(s: State, e: Event, s': State)
    requires Sound(s) && e.SetSoftware? && Step(s, e, s')
    ensures e.result.Threw? <==> e.address % 4 != 0
    ensures e.result.Created? ==>
              && e.result.id !in s.tables.breakpoints
              && (forall id :: id in s.tables.breakpoints ==> s.tables.breakpoints[id].address != e.address)
              && e.address + 4 <= |s.memory|
              && s'.tables.breakpoints
                 == s.tables.breakpoints[e.result.id :=
                      Breakpoint(e.result.id, e.tid, e.address, Software, true, s.memory[e.address..e.address + 4], 18)]
              && (e.residue.Exact? ==>
                    && InForce(s'.tables.breakpoints[e.result.id], s'.memory, s'.debug)
                    && OnlyWord(s.memory, s'.memory, e.address))
    ensures !e.result.Created? ==>
              s'.tables.breakpoints == s.tables.breakpoints && (e.residue.Exact? ==> s'.memory == s.memory)
    ensures s'.debug == s.debug
  {
    if e.result.Created? {
      assert e.result.id !in s.tables.breakpoints;
      if e.residue.Exact? { PatchedIs(s.memory, e.address, BRK, true, s'.memory); }
    } else if e.result.Refused? && e.residue.Exact? {
      PatchedIs(s.memory, e.address, BRK, false, s'.memory);
    }
  }

  /** The control word of a new hardware breakpoint: enabled, for user code, and its type. */
  lemma ControlWords()
    ensures ControlWord(HardwareExecution) == 65 && ControlWord(HardwareWrite) == 67
    ensures ControlWord(HardwareReadWrite) == 69
  {
  }

  lemma SettingHardware(s: State, e: Event, s': State)
    requires Sound(s) && e.SetHardware? && Step(s, e, s')
    ensures e.result.Threw? <==> e.address % 4 != 0
    ensures e.result.Created? ==>
              var reg := e.hardwareRegister;
              && e.result.id !in s.tables.breakpoints && !e.kind.Software?
              && (forall id :: id in s.tables.breakpoints ==> s.tables.breakpoints[id].address != e.address)
              && s'.tables.breakpoints
                 == s.tables.breakpoints[e.result.id :=
                      Breakpoint(e.result.id, e.tid, e.address, e.kind, true, [0, 0, 0, 0], reg)]
              && reg in s.tables.FreeOf(e.tid) && s'.tables.FreeOf(e.tid) == s.tables.FreeOf(e.tid) - {reg}
              && SlotAt(s'.debug, e.tid, reg)
                 == DebugSlot(e.address, match e.kind
                                         case HardwareExecution => 65
                                         case HardwareWrite => 67
                                         case _ => 69)
              && OnlySlot(s.debug, s'.debug, e.tid, reg)
    ensures !e.result.Created? ==> s'.tables.breakpoints == s.tables.breakpoints && s'.debug == s.debug
    ensures !e.result.Created? && !e.kind.Software? ==> s'.tables.FreeOf(e.tid) == s.tables.FreeOf(e.tid)
    ensures s'.memory == s.memory
  {
    if e.result.Created? {
      assert e.result.id !in s.tables.breakpoints;
      assert e.hardwareRegister in s.tables.FreeOf(e.tid);
      OneSlotWritten(s, e.tid, e.hardwareRegister, DebugSlot(e.address, ControlWord(e.kind)), s'.debug);
      ControlWords();
    }
  }

  lemma SwitchingTables(s: State, id: int, on: bool, ok: bool, residue: Residue, s': State)
    requires Sound(s) && SwitchStep(s, id, on, ok, residue, s')
    ensures ok ==> id in s.tables.breakpoints
                   && s'.tables.breakpoints
                      == s.tables.breakpoints[id := s.tables.breakpoints[id].(enabled := on)]
    ensures !ok ==> s'.tables.breakpoints == s.tables.breakpoints
  {
    if id in s.tables.breakpoints && s.tables.breakpoints[id].enabled == on {
      assert s.tables.breakpoints[id].(enabled := on) == s.tables.breakpoints[id];
    }
  }

  lemma SwitchingOn(s: State, id: int, ok: bool, residue: Residue, s': State)
    requires Sound(s) && Step(s, Enable(id, ok, residue), s')
    ensures ok ==> id in s.tables.breakpoints
                   && s'.tables.breakpoints
                      == s.tables.breakpoints[id := s.tables.breakpoints[id].(enabled := true)]
    ensures !ok ==> s'.tables.breakpoints == s.tables.breakpoints
    ensures ok && (|| !s.tables.breakpoints[id].kind.Software?
                   || (residue.Exact? && !s.tables.breakpoints[id].enabled)) ==>
              InForce(s'.tables.breakpoints[id], s'.memory, s'.debug)
    ensures id in s.tables.breakpoints && residue.Exact? ==> OnlyAt(s.tables.breakpoints[id], s, s')
  {
    SwitchingTables(s, id, true, ok, residue, s');
    if id in s.tables.breakpoints {
      Switching(s, id, true, ok, residue, s');
    }
  }

  lemma SwitchingOff(s: State, id: int, ok: bool, residue: Residue, s': State)
    requires Sound(s) && Step(s, Disable(id, ok, residue), s')
    ensures ok ==> id in s.tables.breakpoints
                   && s'.tables.breakpoints
                      == s.tables.breakpoints[id := s.tables.breakpoints[id].(enabled := false)]
    ensures !ok ==> s'.tables.breakpoints == s.tables.breakpoints
    ensures ok && (|| !s.tables.breakpoints[id].kind.Software?
                   || (residue.Exact? && s.tables.breakpoints[id].enabled)) ==>
              Suspended(s'.tables.breakpoints[id], s'.memory, s'.debug)
    ensures id in s.tables.breakpoints && residue.Exact? ==> OnlyAt(s.tables.breakpoints[id], s, s')
  {
    SwitchingTables(s, id, false, ok, residue, s');
    if id in s.tables.breakpoints {
      Switching(s, id, false, ok, residue, s');
    }
  }

  lemma Switching(s: State, id: int, on: bool, ok: bool, residue: Residue, s': State)
    requires Sound(s) && SwitchStep(s, id, on, ok, residue, s') && s'.implemented == s.implemented
    requires id in s.tables.breakpoints
    ensures var b, now := s.tables.breakpoints[id], s.tables.breakpoints[id].(enabled := on);
            ok && (!b.kind.Software? || (residue.Exact? && b.enabled != on)) ==>
              if on then InForce(now, s'.memory, s'.debug) else Suspended(now, s'.memory, s'.debug)
    ensures residue.Exact? ==> OnlyAt(s.tables.breakpoints[id], s, s')
  {
    var b := s.tables.breakpoints[id];
    if b.kind.Software? {
      if b.enabled != on && residue.Exact? {
        PatchedIs(s.memory, b.address, if on then BRK else b.original, ok, s'.memory);
      }
    } else {
      SwitchKeepsDebug(s, id, on, ok, residue, s');
      EnableBitIs(DebugSlot(b.address, ControlWord(b.kind)));
      if b.enabled != on && ok {
        OneSlotWritten(s, b.tid, b.hardwareRegister, SetEnable(SlotOf(b), on), s'.debug);
        EnableBitIs(SlotOf(b));
      }
    }
  }

  lemma Removing(s: State, e: Event, s': State)
    requires Sound(s) && e.Remove? && Step(s, e, s')
    ensures e.ok ==> e.id in s.tables.breakpoints && s'.tables.breakpoints == s.tables.breakpoints - {e.id}
    ensures !e.ok ==> s'.tables.breakpoints == s.tables.breakpoints
    ensures e.ok ==>
              var b := s.tables.breakpoints[e.id];
              && ((if b.kind.Software? then e.residue.Exact? else e.cleared) ==> Suspended(b, s'.memory, s'.debug))
              && (!b.kind.Software? ==>
                    s'.tables.FreeOf(b.tid) == s.tables.FreeOf(b.tid) + {b.hardwareRegister})
    ensures e.id in s.tables.breakpoints && e.residue.Exact? ==> OnlyAt(s.tables.breakpoints[e.id], s, s')
    ensures e.id !in s.tables.breakpoints ==> !e.ok && s' == s
  {
    if e.id in s.tables.breakpoints {
      var b := s.tables.breakpoints[e.id];
      if b.kind.Software? {
        if e.residue.Exact? { PatchedIs(s.memory, b.address, b.original, e.ok, s'.memory); }
      } else if e.cleared {
        OneSlotWritten(s, b.tid, b.hardwareRegister, SetEnable(SlotOf(b), false), s'.debug);
        EnableBitIs(SlotOf(b));
      }
    }
  }

  lemma Probing(s: State, e: Event, s': State)
    requires Sound(s) && e.Probe? && Step(s, e, s')
    ensures s'.tables.breakpoints == s.tables.breakpoints && s'.memory == s.memory
    ensures e.ok && e.tid !in s.tables.registerCounts ==>
              && s'.debug == s.debug
              && e.tid in s'.tables.registerCounts && s'.tables.registerCounts[e.tid] == s.implemented
              && forall r: nat :: r in s'.tables.FreeOf(e.tid) <==> r < s.implemented
    ensures !e.ok ==> forall tid :: s'.tables.FreeOf(tid) == s.tables.FreeOf(tid)
    ensures forall tid, r: nat :: tid != e.tid || r >= s.implemented ==>
              SlotAt(s'.debug, tid, r) == SlotAt(s.debug, tid, r)
    ensures e.tid in s.tables.registerCounts ==> e.ok && s' == s
  {
    HeldIsDisjoint(s.tables, s.implemented, e.tid);
  }

  /** Where memory is the overlay, an entry's flag tells what the tracee will do at it. */
  lemma FlagTells(s: State, id: int)
    requires Sound(s) && id in s.tables.breakpoints && (s.tables.breakpoints[id].kind.Software? ==> MemoryOk(s))
    ensures var b := s.tables.breakpoints[id];
            if b.enabled then InForce(b, s.memory, s.debug) else Suspended(b, s.memory, s.debug)
  {
    var b := s.tables.breakpoints[id];
    if b.kind.Software? {
      OverlayGivesWord(s, b.address);
      if !b.enabled {
        assert !PatchedAt(s.tables.breakpoints, b.address);
        UnpatchedWordIsPristine(s.tables.breakpoints, s.memory, s.pristine, b.address);
      }
    } else {
      EnableBitIs(DebugSlot(b.address, ControlWord(b.kind)));
    }
  }

  /** All that a switch does, where memory may be known to be the overlay. */
  lemma SwitchMeans(s: State, id: int, on: bool, ok: bool, residue: Residue, s': State, overlay: bool)
    requires Sound(s) && Sound(s') && SwitchStep(s, id, on, ok, residue, s') && s'.implemented == s.implemented
    requires overlay ==> MemoryOk(s')
    ensures ok ==> id in s.tables.breakpoints
                   && s'.tables.breakpoints == s.tables.breakpoints[id := s.tables.breakpoints[id].(enabled := on)]
    ensures !ok ==> s'.tables.breakpoints == s.tables.breakpoints
    ensures ok && (|| overlay || !s.tables.breakpoints[id].kind.Software?
                   || (residue.Exact? && s.tables.breakpoints[id].enabled != on)) ==>
              if on then InForce(s'.tables.breakpoints[id], s'.memory, s'.debug)
              else Suspended(s'.tables.breakpoints[id], s'.memory, s'.debug)
    ensures id in s.tables.breakpoints && residue.Exact? ==> OnlyAt(s.tables.breakpoints[id], s, s')
  {
    SwitchingTables(s, id, on, ok, residue, s');
    if id in s.tables.breakpoints { Switching(s, id, on, ok, residue, s'); }
    if ok && overlay { FlagTells(s', id); }
  }

  // ---------- whole runs ----------

  /** The operation puts the breakpoint in the table, or switches it on or off. */
  predicate Decides(e: Event, id: int) {
    || ((e.SetSoftware? || e.SetHardware?) && e.result == Created(id))
    || ((e.Enable? || e.Disable?) && e.id == id && e.ok)
  }

  /** The operation takes the breakpoint out of the table. */
  predicate Drops(e: Event, id: int) { e.Remove? && e.ok && e.id == id }

  lemma DecidingStep(s: State, e: Event, s': State, id: int)
    requires Sound(s) && Step(s, e, s') && Decides(e, id)
    ensures id in s'.tables.breakpoints && s'.tables.breakpoints[id].enabled == !e.Disable?
  {
    match e
    case SetSoftware(_, _, _, _) => SettingSoftware(s, e, s');
    case SetHardware(_, _, _, _, _) => SettingHardware(s, e, s');
    case Enable(_, ok, residue) => SwitchingOn(s, id, ok, residue, s');
    case Disable(_, ok, residue) => SwitchingOff(s, id, ok, residue, s');
  }

  lemma OtherStep(s: State, e: Event, s': State, id: int)
    requires Sound(s) && Step(s, e, s') && !Decides(e, id) && !Drops(e, id)
    requires id in s.tables.breakpoints
    ensures id in s'.tables.breakpoints && s'.tables.breakpoints[id] == s.tables.breakpoints[id]
  {
    match e
    case SetSoftware(_, _, _, _) => SettingSoftware(s, e, s');
    case SetHardware(_, _, _, _, _) => SettingHardware(s, e, s');
    case Enable(other, ok, residue) => SwitchingOn(s, other, ok, residue, s');
    case Disable(other, ok, residue) => SwitchingOff(s, other, ok, residue, s');
    case Remove(_, _, _, _) => Removing(s, e, s');
    case Probe(_, _, _, _) => Probing(s, e, s');
    case Ran(_) =>
  }

  /** Among the first `n` operations the one at `i` is the last that decides about the breakpoint, and `on` is what it
      decides. */
  ghost predicate DecidedLast(events: seq<Event>, i: nat, n: nat, id: int, on: bool) {
    && i < n <= |events| && Decides(events[i], id) && on == !events[i].Disable?
    && forall j :: i < j < n ==> !Decides(events[j], id) && !Drops(events[j], id)
  }

  ghost predicate IsOn(s: State, id: int, on: bool) {
    id in s.tables.breakpoints && s.tables.breakpoints[id].enabled == on
  }

  /** In every run a breakpoint that was created, enabled or disabled last at `i`, and not removed since, is live, and
      it is enabled exactly if it was not disabled then. */
  lemma {:induction false} LastSwitchDecides(states: seq<State>, events: seq<Event>, n: nat, id: int, i: nat, on: bool)
    requires IsRun(states, events) && Sound(states[0]) && DecidedLast(events, i, n, id, on)
    ensures IsOn(states[n], id, on)
    decreases n
  {
    if i == n - 1 {
      DecidedAt(states, events, i, id, on);
    } else {
      LastSwitchDecides(states, events, n - 1, id, i, on);
      UndecidedAt(states, events, n - 1, id, on);
    }
  }

  lemma DecidedAt(states: seq<State>, events: seq<Event>, i: nat, id: int, on: bool)
    requires IsRun(states, events) && Sound(states[0]) && DecidedLast(events, i, i + 1, id, on)
    ensures IsOn(states[i + 1], id, on)
  {
    RunIsSound(states, events, i);
    StepAt(states, events, i);
    DecidingStep(states[i], events[i], states[i + 1], id);
  }

  lemma UndecidedAt(states: seq<State>, events: seq<Event>, i: nat, id: int, on: bool)
    requires IsRun(states, events) && i < |events| && Sound(states[0]) && IsOn(states[i], id, on)
    requires !Decides(events[i], id) && !Drops(events[i], id)
    ensures IsOn(states[i + 1], id, on)
  {
    RunIsSound(states, events, i);
    StepAt(states, events, i);
    OtherStep(states[i], events[i], states[i + 1], id);
  }
}
