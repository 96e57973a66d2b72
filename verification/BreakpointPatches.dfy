/**
 What every step keeps of the tracee: its memory is the pristine memory with BRK at exactly the enabled
 software breakpoints, and its debug registers hold exactly what the live hardware breakpoints say.
 */
module BreakpointPatches {
  import opened Tracees
  import opened RegisterControl
  import opened BreakpointModel
  import opened BreakpointTables
  import opened BreakpointWords

  // ---------- memory ----------

  /** Byte `i` lies under an enabled software breakpoint. */
  ghost predicate Covered(bps: Breakpoints, i: nat) {
    exists id :: id in bps && Patches(bps[id]) && bps[id].address <= i < bps[id].address + 4
  }

  ghost predicate Overlay(bps: Breakpoints, memory: seq<byte>, pristine: seq<byte>) {
    && |memory| == |pristine|
    && (forall id :: id in bps && bps[id].kind.Software? ==>
          bps[id].address + 4 <= |pristine| && bps[id].original == Slice(pristine, bps[id].address, 4))
    && (forall id :: id in bps && Patches(bps[id]) ==> Slice(memory, bps[id].address, 4) == BRK)
    && (forall i :: 0 <= i < |memory| && !Covered(bps, i) ==> memory[i] == pristine[i])
  }

  ghost predicate MemoryOk(s: State) { Overlay(s.tables.breakpoints, s.memory, s.pristine) }

  lemma CoveredByteIsDetermined(bps: Breakpoints, m1: seq<byte>, m2: seq<byte>, pristine: seq<byte>, i: nat)
    requires Overlay(bps, m1, pristine) && Overlay(bps, m2, pristine) && i < |m1| && Covered(bps, i)
    ensures m1[i] == m2[i]
  {
    var id :| id in bps && Patches(bps[id]) && bps[id].address <= i < bps[id].address + 4;
    SameWordSameByte(m1, m2, bps[id].address, i);
  }

  lemma SameWordSameByte(m1: seq<byte>, m2: seq<byte>, at: nat, i: nat)
    requires at <= i < at + 4 <= |m1| == |m2| && Slice(m1, at, 4) == Slice(m2, at, 4)
    ensures m1[i] == m2[i]
  {
    assert m1[i] == Slice(m1, at, 4)[i - at] && m2[i] == Slice(m2, at, 4)[i - at];
  }

  /** The breakpoints and the pristine bytes say what every byte of memory is. */
  lemma OverlayDeterminesMemory(bps: Breakpoints, m1: seq<byte>, m2: seq<byte>, pristine: seq<byte>)
    requires Overlay(bps, m1, pristine) && Overlay(bps, m2, pristine)
    ensures m1 == m2
  {
    forall i: nat | i < |m1| ensures m1[i] == m2[i] {
      if Covered(bps, i) {
        CoveredByteIsDetermined(bps, m1, m2, pristine, i);
      } else {
        assert m1[i] == pristine[i] == m2[i];
      }
    }
  }

  // ---------- the overlay, word by word ----------

  /** A byte of an aligned word is covered exactly when an enabled breakpoint is at that word. */
  lemma CoveredAtWord(t: Tables, implemented: nat, at: nat, i: nat)
    requires Entries(t, implemented) && at % 4 == 0 && at <= i < at + 4
    ensures Covered(t.breakpoints, i) <==> PatchedAt(t.breakpoints, at)
  {
    if Covered(t.breakpoints, i) {
      var id :| id in t.breakpoints && Patches(t.breakpoints[id])
                && t.breakpoints[id].address <= i < t.breakpoints[id].address + 4;
      if t.breakpoints[id].address != at { AlignedWordsAreDisjoint(t.breakpoints[id].address, at); }
    }
  }

  lemma PatchedByteIsBrk(bps: Breakpoints, m: seq<byte>, pristine: seq<byte>, at: nat, i: nat)
    requires Overlay(bps, m, pristine) && PatchedAt(bps, at) && at <= i < at + 4
    ensures i < |m| && m[i] == BRK[i - at]
  {
    var id :| id in bps && Patches(bps[id]) && bps[id].address == at;
    assert m[i] == Slice(m, at, 4)[i - at];
  }

  lemma OverlayGivesByte(s: State, at: nat, i: nat)
    requires TablesOk(s.tables, s.implemented) && MemoryOk(s) && at % 4 == 0 && at <= i < at + 4 && i < |s.memory|
    ensures s.memory[i] == if PatchedAt(s.tables.breakpoints, at) then BRK[i - at] else s.pristine[i]
  {
    CoveredAtWord(s.tables, s.implemented, at, i);
    if PatchedAt(s.tables.breakpoints, at) {
      PatchedByteIsBrk(s.tables.breakpoints, s.memory, s.pristine, at, i);
    }
  }

  lemma OverlayGivesWord(s: State, at: nat)
    requires TablesOk(s.tables, s.implemented) && MemoryOk(s) && at % 4 == 0
    ensures WordAtOk(s, at)
  {
    forall i | at <= i < at + 4 && i < |s.memory|
      ensures s.memory[i] == if PatchedAt(s.tables.breakpoints, at) then BRK[i - at] else s.pristine[i]
    {
      OverlayGivesByte(s, at, i);
    }
  }

  lemma WordGivesEntry(s: State, id: int)
    requires id in s.tables.breakpoints && s.tables.breakpoints[id].kind.Software?
    requires WordAtOk(s, s.tables.breakpoints[id].address)
    ensures var b := s.tables.breakpoints[id];
            && b.address + 4 <= |s.pristine| && b.original == Slice(s.pristine, b.address, 4)
            && (b.enabled ==> Slice(s.memory, b.address, 4) == BRK)
  {
    var b := s.tables.breakpoints[id];
    if b.enabled {
      assert PatchedAt(s.tables.breakpoints, b.address);
    }
  }

  lemma WordGivesByte(s: State, at: nat, i: nat)
    requires TablesOk(s.tables, s.implemented) && at % 4 == 0 && at <= i < at + 4 && i < |s.memory|
    requires WordAtOk(s, at) && !Covered(s.tables.breakpoints, i)
    ensures s.memory[i] == s.pristine[i]
  {
    CoveredAtWord(s.tables, s.implemented, at, i);
  }

  lemma WordOf(i: nat)
    ensures (i - i % 4) % 4 == 0 && i - i % 4 <= i < i - i % 4 + 4
  {
  }

  /** Memory is the overlay exactly when every aligned word is as it should be. */
  lemma OverlayIsWordwise(s: State)
    requires TablesOk(s.tables, s.implemented)
    ensures MemoryOk(s) <==> forall at: nat :: at % 4 == 0 ==> WordAtOk(s, at)
  {
    if MemoryOk(s) {
      forall at: nat | at % 4 == 0 ensures WordAtOk(s, at) {
        OverlayGivesWord(s, at);
      }
    }
    if forall at: nat :: at % 4 == 0 ==> WordAtOk(s, at) {
      assert WordAtOk(s, 0);
      forall id | id in s.tables.breakpoints && s.tables.breakpoints[id].kind.Software?
        ensures var b := s.tables.breakpoints[id];
                && b.address + 4 <= |s.pristine| && b.original == Slice(s.pristine, b.address, 4)
                && (b.enabled ==> Slice(s.memory, b.address, 4) == BRK)
      {
        WordGivesEntry(s, id);
      }
      forall i | 0 <= i < |s.memory| && !Covered(s.tables.breakpoints, i) ensures s.memory[i] == s.pristine[i] {
        WordOf(i);
        WordGivesByte(s, i - i % 4, i);
      }
    }
  }

  /** A step whose write, if it makes one, stores all or nothing keeps the overlay. */
  lemma StepKeepsMemory(s: State, e: Event, s': State)
    requires TablesOk(s.tables, s.implemented) && MemoryOk(s) && Step(s, e, s') && Whole(e)
    ensures MemoryOk(s')
  {
    StepKeepsTables(s, e, s');
    OverlayIsWordwise(s);
    OverlayIsWordwise(s');
    forall at: nat | at % 4 == 0 ensures WordAtOk(s', at) {
      StepKeepsWord(s, e, s', at);
    }
  }

  /** A failed write that left a prefix behind breaks the overlay unless those bytes were there already. */
  lemma TornWriteIsHarmlessIff(bps: Breakpoints, m: seq<byte>, pristine: seq<byte>, at: nat, word: seq<byte>, torn: nat)
    requires Overlay(bps, m, pristine) && torn < |word| == 4 && Mapped(m, at, torn)
    ensures Overlay(bps, Splice(m, at, word[..torn]), pristine) <==> Slice(m, at, torn) == word[..torn]
  {
    var m' := Splice(m, at, word[..torn]);
    if Slice(m, at, torn) == word[..torn] {
      assert forall i :: 0 <= i < |m| && at <= i < at + torn ==> m'[i] == Slice(m, at, torn)[i - at];
      assert m' == m;
    }
    if Overlay(bps, m', pristine) {
      OverlayDeterminesMemory(bps, m, m', pristine);
      assert forall j :: 0 <= j < torn ==> Slice(m, at, torn)[j] == m'[at + j] == word[..torn][j];
    }
  }

  /** Poking eight other bytes where a word was meant breaks the overlay unless they are that word and what follows
      it in memory. */
  lemma PokedWriteIsHarmlessIff(bps: Breakpoints, m: seq<byte>, pristine: seq<byte>, at: nat, word: seq<byte>,
                                pointer: seq<byte>)
    requires |word| == 4 && |pointer| == 8 && Mapped(m, at, 8) && Overlay(bps, Splice(m, at, word), pristine)
    ensures Overlay(bps, Splice(m, at, pointer), pristine) <==> pointer == word + Slice(m, at + 4, 4)
  {
    var meant, coded := Splice(m, at, word), Splice(m, at, pointer);
    assert forall i :: 0 <= i < 8 ==> meant[at + i] == (word + Slice(m, at + 4, 4))[i] && coded[at + i] == pointer[i];
    if pointer == word + Slice(m, at + 4, 4) {
      assert forall i :: 0 <= i < |m| && at <= i < at + 8 ==> coded[i] == pointer[i - at] == meant[at + (i - at)];
      assert coded == meant;
    }
    if Overlay(bps, coded, pristine) {
      OverlayDeterminesMemory(bps, meant, coded, pristine);
    }
  }

  /** A short bulk write of BRK over a NOP whose fallback then fails: the caller is told that nothing was set,
      no breakpoint is tracked, and the instruction is gone. */
  lemma TornWriteExample()
    ensures var nop: seq<byte> := [0x1F, 0x20, 0x03, 0xD5];
            var s := State(EMPTY_TABLES, nop, map[], 0, nop);
            var s' := s.(memory := [0x00, 0x20, 0x03, 0xD5]);
            MemoryOk(s) && Step(s, SetSoftware(1, 0, Refused, Torn(1)), s') && !MemoryOk(s')
  {
    var nop: seq<byte> := [0x1F, 0x20, 0x03, 0xD5];
    assert BRK[..1] == [0];
    assert Splice(nop, 0, [0]) == [0x00, 0x20, 0x03, 0xD5];
    assert !Covered(map[], 0);
  }

  // ---------- debug registers ----------

  ghost predicate DebugSane(s: State) {
    s.implemented <= DEBUG_SLOTS && forall tid :: tid in s.debug ==> SaneHwDebug(s.debug[tid], s.implemented)
  }

  /** One debug register of one thread; a register that does not exist reads as zero. */
  function SlotAt(debug: map<int, HwDebug>, tid: int, r: nat): DebugSlot {
    if tid in debug && r < |debug[tid].slots| then debug[tid].slots[r] else DebugSlot(0, 0)
  }

  /** What the register of a hardware breakpoint holds. */
  function SlotOf(b: Breakpoint): DebugSlot
    requires !b.kind.Software?
  {
    SetEnable(DebugSlot(b.address, ControlWord(b.kind)), b.enabled)
  }

  ghost predicate Agreement(s: State) {
    forall id :: id in s.tables.breakpoints && !s.tables.breakpoints[id].kind.Software? ==>
      var b := s.tables.breakpoints[id];
      b.tid in s.debug && SlotAt(s.debug, b.tid, b.hardwareRegister) == SlotOf(b)
  }

  ghost predicate DebugOk(s: State) { DebugSane(s) && Agreement(s) }

  lemma EnableBit(c: bv32)
    ensures (c | 1) & 0xFFFF_FFFE == c & 0xFFFF_FFFE
    ensures (c & 0xFFFF_FFFE) | 1 == c | 1
    ensures (c | 1) | 1 == c | 1 && (c & 0xFFFF_FFFE) & 0xFFFF_FFFE == c & 0xFFFF_FFFE
    ensures (c | 1) & 1 != 0 && (c & 0xFFFF_FFFE) & 1 == 0
  {
  }

  lemma SwitchingTwice(slot: DebugSlot, first: bool, second: bool)
    ensures SetEnable(SetEnable(slot, first), second) == SetEnable(slot, second)
  {
    EnableBit(slot.ctrl);
  }

  lemma NewSlotIsEnabled(address: nat, kind: Kind)
    requires !kind.Software?
    ensures SetEnable(DebugSlot(address, ControlWord(kind)), true) == DebugSlot(address, ControlWord(kind))
  {
  }

  /** One debug register is rewritten: every other register of every thread keeps its value. */
  lemma OneSlotWritten(s: State, tid: int, reg: nat, slot: DebugSlot, debug': map<int, HwDebug>)
    requires DebugSane(s) && reg < s.implemented && DebugWritten(s, tid, reg, slot, debug')
    ensures debug'.Keys == s.debug.Keys
    ensures forall i :: i in debug' ==> SaneHwDebug(debug'[i], s.implemented)
    ensures forall i, r: nat ::
              SlotAt(debug', i, r) == if i == tid && r == reg then slot else SlotAt(s.debug, i, r)
  {
    SetDbgTouchesOneSlot(s.debug[tid], reg, slot, s.implemented);
  }

  lemma SetHardwareKeepsDebug(s: State, e: Event, s': State)
    requires TablesOk(s.tables, s.implemented) && DebugOk(s)
    requires e.SetHardware? && SetHardwareStep(s, e, s') && s'.implemented == s.implemented
    ensures DebugOk(s')
  {
    if e.result.Created? {
      assert e.hardwareRegister in s.tables.FreeOf(e.tid);
      OneSlotWritten(s, e.tid, e.hardwareRegister, DebugSlot(e.address, ControlWord(e.kind)), s'.debug);
      NewSlotIsEnabled(e.address, e.kind);
    }
  }

  lemma SwitchKeepsDebug(s: State, id: int, on: bool, ok: bool, residue: Residue, s': State)
    requires TablesOk(s.tables, s.implemented) && DebugOk(s)
    requires SwitchStep(s, id, on, ok, residue, s') && s'.implemented == s.implemented
    ensures DebugOk(s')
  {
    if id in s.tables.breakpoints && !s.tables.breakpoints[id].kind.Software?
       && s.tables.breakpoints[id].enabled != on && ok {
      var b := s.tables.breakpoints[id];
      OneSlotWritten(s, b.tid, b.hardwareRegister, SetEnable(SlotOf(b), on), s'.debug);
      SwitchingTwice(DebugSlot(b.address, ControlWord(b.kind)), b.enabled, on);
    }
  }

  lemma RemoveKeepsDebug(s: State, e: Event, s': State)
    requires TablesOk(s.tables, s.implemented) && DebugOk(s)
    requires e.Remove? && RemoveStep(s, e, s') && s'.implemented == s.implemented
    ensures DebugOk(s')
  {
    if e.id in s.tables.breakpoints && !s.tables.breakpoints[e.id].kind.Software? && e.cleared {
      var b := s.tables.breakpoints[e.id];
      OneSlotWritten(s, b.tid, b.hardwareRegister, SetEnable(SlotOf(b), false), s'.debug);
    }
  }

  /** Every step, failed ones included, keeps the registers of the live hardware breakpoints as the table says. */
  lemma StepKeepsDebug(s: State, e: Event, s': State)
    requires TablesOk(s.tables, s.implemented) && DebugOk(s) && Step(s, e, s')
    ensures DebugOk(s')
  {
    match e
    case SetSoftware(_, _, _, _) =>
    case SetHardware(_, _, _, _, _) => SetHardwareKeepsDebug(s, e, s');
    case Enable(id, ok, residue) => SwitchKeepsDebug(s, id, true, ok, residue, s');
    case Disable(id, ok, residue) => SwitchKeepsDebug(s, id, false, ok, residue, s');
    case Remove(_, _, _, _) => RemoveKeepsDebug(s, e, s');
    case Probe(_, _, _, _) =>
    case Ran(_) =>
  }

  /** Every enabled debug register is held by a live breakpoint or is as it was at the start. */
  ghost predicate NoStrays(s: State, start: map<int, HwDebug>) {
    && s.debug.Keys == start.Keys
    && forall tid, r: nat :: r !in s.tables.Held(tid) && IsEnabled(SlotAt(s.debug, tid, r)) ==>
         SlotAt(s.debug, tid, r) == SlotAt(start, tid, r)
  }

  /** Registers stay held, and those not held keep their value. */
  ghost predicate OnlyHeldChange(s: State, s': State) {
    && s'.debug.Keys == s.debug.Keys
    && (forall tid, r :: r in s.tables.Held(tid) ==> r in s'.tables.Held(tid))
    && forall tid, r: nat :: r !in s'.tables.Held(tid) ==> SlotAt(s'.debug, tid, r) == SlotAt(s.debug, tid, r)
  }

  lemma SetSoftwareLeavesNoStrays(s: State, e: Event, s': State)
    requires TablesOk(s.tables, s.implemented) && DebugOk(s) && e.SetSoftware? && SetSoftwareStep(s, e, s')
    ensures OnlyHeldChange(s, s')
  {
    if e.result.Created? {
      forall tid {
        HeldAfterRegister(s.tables, Breakpoint(e.result.id, e.tid, e.address, Software, true,
                                               Slice(s.memory, e.address, 4), NO_REGISTER), tid);
      }
    }
  }

  lemma SetHardwareLeavesNoStrays(s: State, e: Event, s': State)
    requires TablesOk(s.tables, s.implemented) && DebugOk(s) && e.SetHardware? && SetHardwareStep(s, e, s')
    ensures OnlyHeldChange(s, s')
  {
    var fewer := s.tables.SetFree(e.tid, s.tables.FreeOf(e.tid) - {e.hardwareRegister});
    forall tid ensures s.tables.Held(tid) <= s'.tables.Held(tid) {
      if e.result.Created? {
        assert fewer.Held(tid) == s.tables.Held(tid);
        HeldAfterRegister(fewer, Breakpoint(e.result.id, e.tid, e.address, e.kind, true, NO_INSTRUCTION,
                                            e.hardwareRegister), tid);
      }
    }
    if e.result.Created? {
      assert e.hardwareRegister in s.tables.FreeOf(e.tid);
      OneSlotWritten(s, e.tid, e.hardwareRegister, DebugSlot(e.address, ControlWord(e.kind)), s'.debug);
      assert e.result.id in s'.tables.breakpoints;
      assert e.hardwareRegister in s'.tables.Held(e.tid);
    }
  }

  lemma SwitchLeavesNoStrays(s: State, id: int, on: bool, ok: bool, residue: Residue, s': State)
    requires TablesOk(s.tables, s.implemented) && DebugOk(s) && SwitchStep(s, id, on, ok, residue, s')
    ensures OnlyHeldChange(s, s')
  {
    forall tid { HeldAfterSwitch(s, id, on, s', tid); }
    if id in s.tables.breakpoints && !s.tables.breakpoints[id].kind.Software?
       && s.tables.breakpoints[id].enabled != on && ok {
      var b := s.tables.breakpoints[id];
      OneSlotWritten(s, b.tid, b.hardwareRegister, SetEnable(SlotOf(b), on), s'.debug);
      assert b.hardwareRegister in s.tables.Held(b.tid);
    }
  }

  lemma RemoveLeavesNoStrays(s: State, e: Event, s': State, start: map<int, HwDebug>)
    requires TablesOk(s.tables, s.implemented) && DebugOk(s) && e.Remove? && RemoveStep(s, e, s') && e.cleared
    requires s'.implemented == s.implemented && NoStrays(s, start)
    ensures NoStrays(s', start)
  {
    if e.id in s.tables.breakpoints && e.ok {
      var b := s.tables.breakpoints[e.id];
      forall tid { HeldAfterForget(s.tables, e.id, tid, s'.tables, s.implemented); }
      if !b.kind.Software? {
        OneSlotWritten(s, b.tid, b.hardwareRegister, SetEnable(SlotOf(b), false), s'.debug);
      }
    }
  }

  lemma StepLeavesNoStrays(s: State, e: Event, s': State, start: map<int, HwDebug>)
    requires TablesOk(s.tables, s.implemented) && DebugOk(s) && Step(s, e, s') && Clean(e)
    requires NoStrays(s, start)
    ensures NoStrays(s', start)
  {
    match e
    case SetSoftware(_, _, _, _) => SetSoftwareLeavesNoStrays(s, e, s');
    case SetHardware(_, _, _, _, _) => SetHardwareLeavesNoStrays(s, e, s');
    case Enable(id, ok, residue) => SwitchLeavesNoStrays(s, id, true, ok, residue, s');
    case Disable(id, ok, residue) => SwitchLeavesNoStrays(s, id, false, ok, residue, s');
    case Remove(_, _, _, _) => RemoveLeavesNoStrays(s, e, s', start);
    case Probe(_, _, _, _) =>
      forall tid ensures s'.tables.Held(tid) == s.tables.Held(tid) {}
    case Ran(_) =>
  }

  /** A removal whose register could not be cleared leaves a stray exactly when the breakpoint was enabled and its
      register is not by chance as it was at the start. */
  lemma UnclearedRemovalStraysIff(s: State, e: Event, s': State, start: map<int, HwDebug>)
    requires TablesOk(s.tables, s.implemented) && DebugOk(s) && NoStrays(s, start)
    requires e.Remove? && Step(s, e, s') && e.ok && !e.cleared && !s.tables.breakpoints[e.id].kind.Software?
    ensures var b := s.tables.breakpoints[e.id];
            NoStrays(s', start) <==> !(b.enabled && SlotOf(b) != SlotAt(start, b.tid, b.hardwareRegister))
  {
    var b := s.tables.breakpoints[e.id];
    forall tid { HeldAfterForget(s.tables, e.id, tid, s'.tables, s.implemented); }
    assert SlotAt(s'.debug, b.tid, b.hardwareRegister) == SlotOf(b);
    assert b.hardwareRegister !in s'.tables.Held(b.tid);
  }

  /** A probe that could not restore the registers leaves strays unless they all held the test value before. */
  lemma PollutedProbeStraysIff(s: State, e: Event, s': State, start: map<int, HwDebug>)
    requires TablesOk(s.tables, s.implemented) && DebugOk(s) && NoStrays(s, start)
    requires e.Probe? && Step(s, e, s') && e.polluted
    ensures NoStrays(s', start) <==> forall r: nat :: r < s.implemented ==> SlotAt(start, e.tid, r) == TEST_SLOT
  {
    HeldIsDisjoint(s.tables, s.implemented, e.tid);
    forall tid ensures s'.tables.Held(tid) == s.tables.Held(tid) {}
    assert IsEnabled(TEST_SLOT);
    forall tid, r: nat
      ensures SlotAt(s'.debug, tid, r)
              == if tid == e.tid && r < s.implemented then TEST_SLOT else SlotAt(s.debug, tid, r)
    {
    }
  }
}
