/**
 The breakpoint manager as a state machine over values: its tables together with the part of the
 tracee it patches, the steps its operations take with every possible I/O outcome, and what every
 run of such steps keeps.
 */
module BreakpointModel {
  import opened Tracees
  import opened RegisterControl

  lemma HasElement(s: set<int>)
    requires s != {}
    ensures exists x :: x in s
  {
    assert (forall x :: x !in s) ==> s == {};
  }

  lemma HasRegister(s: set<nat>)
    requires s != {}
    ensures exists x: nat :: x in s
  {
    assert (forall x: nat :: x !in s) ==> s == {};
  }

  // ---------- records and tables ----------

  datatype Kind = Software | HardwareExecution | HardwareWrite | HardwareReadWrite

  datatype Breakpoint = Breakpoint(
    id: int, tid: int, address: nat, kind: Kind, enabled: bool, original: seq<byte>, hardwareRegister: nat)

  /** The instruction 0xD4200000 as it lies in memory. */
  const BRK: seq<byte> := [0x00, 0x00, 0x20, 0xD4]

  const NO_INSTRUCTION: seq<byte> := [0, 0, 0, 0]

  const NO_REGISTER: nat := DBG_INVALID

  const ENABLE: bv32 := 1
  const ENABLE_CLEARED: bv32 := 0xFFFF_FFFE
  const EL0: bv32 := 64
  const TYPE_WRITE: bv32 := 2
  const TYPE_READWRITE: bv32 := 4

  /** The control word a new hardware breakpoint is given. */
  function ControlWord(kind: Kind): bv32
    requires !kind.Software?
  {
    ENABLE | EL0 | (match kind
                    case HardwareExecution => 0
                    case HardwareWrite => TYPE_WRITE
                    case HardwareReadWrite => TYPE_READWRITE)
  }

  predicate IsEnabled(slot: DebugSlot) { slot.ctrl & ENABLE != 0 }

  function SetEnable(slot: DebugSlot, on: bool): (r: DebugSlot)
    ensures IsEnabled(r) <==> on
    ensures r.addr == slot.addr
  {
    slot.(ctrl := if on then slot.ctrl | ENABLE else slot.ctrl & ENABLE_CLEARED)
  }

  datatype Tables = Tables(
    breakpoints: map<int, Breakpoint>,
    threads: map<int, set<int>>,
    addresses: map<nat, int>,
    freeRegisters: map<int, set<nat>>,
    registerCounts: map<int, nat>,
    nextId: int)
  {
    function ThreadIds(tid: int): set<int> { if tid in threads then threads[tid] else {} }

    function FreeOf(tid: int): set<nat> { if tid in freeRegisters then freeRegisters[tid] else {} }

    ghost predicate Duplicate(address: nat) {
      exists id :: id in breakpoints && breakpoints[id].address == address
    }

    /** The registers that live breakpoints of the thread hold. */
    ghost function Held(tid: int): set<nat> {
      set id | id in breakpoints && breakpoints[id].tid == tid && breakpoints[id].hardwareRegister < DEBUG_SLOTS
        :: breakpoints[id].hardwareRegister
    }

    /** Everything the pool of the thread is made of. */
    ghost function Owned(tid: int): set<nat> { FreeOf(tid) + Held(tid) }

    function Register(b: Breakpoint): Tables {
      this.(breakpoints := breakpoints[b.id := b],
            threads := threads[b.tid := ThreadIds(b.tid) + {b.id}],
            addresses := addresses[b.address := b.id],
            nextId := b.id + 1)
    }

    function Forget(id: int): Tables
      requires id in breakpoints
    {
      var tid := breakpoints[id].tid;
      var rest := ThreadIds(tid) - {id};
      this.(breakpoints := breakpoints - {id},
            threads := if rest == {} then threads - {tid} else threads[tid := rest])
    }

    function SetEnabled(id: int, on: bool): Tables
      requires id in breakpoints
    {
      this.(breakpoints := breakpoints[id := breakpoints[id].(enabled := on)])
    }

    function SetFree(tid: int, registers: set<nat>): Tables {
      this.(freeRegisters := freeRegisters[tid := registers])
    }

    /** Lookup by address, with the test for an absent entry the right way round. */
    function Lookup(address: nat): Option<Breakpoint> {
      if address in addresses && addresses[address] in breakpoints
      then Some(breakpoints[addresses[address]]) else None
    }

    /** Lookup by address as the source has it: an indexed address yields nothing, and an address without
        an entry dereferences the end iterator, which has no defined result. */
    function LookupAsCoded(address: nat): Option<Option<Breakpoint>> {
      if address in addresses then Some(None) else None
    }
  }

  const EMPTY_TABLES := Tables(map[], map[], map[], map[], map[], 1)

  /** The tables, what the manager patches, and the bytes the code would have without breakpoints. */
  datatype State = State(tables: Tables, memory: seq<byte>, debug: map<int, HwDebug>,
                         implemented: nat, pristine: seq<byte>)

  // ---------- steps ----------

  datatype SetResult = Threw | Refused | Created(id: int)

  /** How a four-byte write differs from one that stores all or nothing: a failed one may have stored a prefix, and
      one that pokes the address of a word, as the source does, has stored those eight bytes. */
  datatype Residue = Exact | Torn(count: nat) | Poked(pointer: seq<byte>)

  /** One operation with its outcome. */
  datatype Event =
    | SetSoftware(tid: int, address: nat, result: SetResult, residue: Residue)
    | SetHardware(tid: int, address: nat, kind: Kind, result: SetResult, hardwareRegister: nat)
    | Enable(id: int, ok: bool, residue: Residue)
    | Disable(id: int, ok: bool, residue: Residue)
    | Remove(id: int, ok: bool, residue: Residue, cleared: bool)
    | Probe(tid: int, ok: bool, count: nat, polluted: bool)
    | Ran(memory: seq<byte>)

  ghost predicate Patched(m: seq<byte>, at: nat, word: seq<byte>, ok: bool, residue: Residue, m': seq<byte>)
    requires |word| == 4
  {
    match residue
    case Exact => if ok then Mapped(m, at, 4) && m' == Splice(m, at, word) else m' == m
    case Torn(n) => !ok && 0 < n < 4 && Mapped(m, at, n) && m' == Splice(m, at, word[..n])
    case Poked(pointer) => ok && |pointer| == 8 && Mapped(m, at, 8) && m' == Splice(m, at, pointer)
  }

  ghost predicate SetSoftwareStep(s: State, e: Event, s': State)
    requires e.SetSoftware?
  {
    && s'.debug == s.debug && s'.pristine == s.pristine
    && (e.result.Threw? <==> e.address % 4 != 0)
    && match e.result
       case Threw => s' == s && e.residue.Exact?
       case Refused =>
         && s'.tables == s.tables
         && (s.tables.Duplicate(e.address) ==> s' == s && e.residue.Exact?)
         && Patched(s.memory, e.address, BRK, false, e.residue, s'.memory)
       case Created(id) =>
         && !s.tables.Duplicate(e.address) && e.tid >= 1 && id == s.tables.nextId
         && Patched(s.memory, e.address, BRK, true, e.residue, s'.memory)
         && s'.tables == s.tables.Register(
              Breakpoint(id, e.tid, e.address, Software, true, Slice(s.memory, e.address, 4), NO_REGISTER))
  }

  /** The debug registers after one of them is rewritten through its set. */
  ghost predicate DebugWritten(s: State, tid: int, reg: nat, slot: DebugSlot, debug': map<int, HwDebug>) {
    && tid in s.debug && |s.debug[tid].slots| == DEBUG_SLOTS && reg < DEBUG_SLOTS
    && debug' == s.debug[tid := Accepted(s.debug[tid], WithDbg(s.debug[tid], reg, slot), s.implemented)]
  }

  ghost predicate SetHardwareStep(s: State, e: Event, s': State)
    requires e.SetHardware?
  {
    var pool := s.tables.FreeOf(e.tid);
    && s'.memory == s.memory && s'.pristine == s.pristine
    && (e.result.Threw? <==> e.address % 4 != 0)
    && match e.result
       case Threw => s' == s
       case Refused =>
         && s'.debug == s.debug
         && if s.tables.Duplicate(e.address) then s'.tables == s.tables
            else if pool == {} then s'.tables == s.tables.SetFree(e.tid, {})
            else if e.kind.Software? then
              // the register is taken from the pool and never returned
              e.hardwareRegister in pool && s'.tables == s.tables.SetFree(e.tid, pool - {e.hardwareRegister})
            else s'.tables == s.tables
       case Created(id) =>
         && !s.tables.Duplicate(e.address) && !e.kind.Software? && e.hardwareRegister in pool
         && e.tid >= 1 && id == s.tables.nextId
         && DebugWritten(s, e.tid, e.hardwareRegister, DebugSlot(e.address, ControlWord(e.kind)), s'.debug)
         && s'.tables == s.tables.SetFree(e.tid, pool - {e.hardwareRegister}).Register(
              Breakpoint(id, e.tid, e.address, e.kind, true, NO_INSTRUCTION, e.hardwareRegister))
  }

  /** Enabling (`on`) or disabling a breakpoint. */
  ghost predicate SwitchStep(s: State, id: int, on: bool, ok: bool, residue: Residue, s': State) {
    && s'.pristine == s.pristine
    && if id !in s.tables.breakpoints then !ok && residue.Exact? && s' == s
       else
         var b := s.tables.breakpoints[id];
         if b.enabled == on then ok && residue.Exact? && s' == s
         else
           && s'.tables == (if ok then s.tables.SetEnabled(id, on) else s.tables)
           && if b.kind.Software? then
                && s'.debug == s.debug && |b.original| == 4
                && Patched(s.memory, b.address, if on then BRK else b.original, ok, residue, s'.memory)
              else
                && s'.memory == s.memory && residue.Exact?
                && if !ok then s'.debug == s.debug
                   else
                     && b.tid in s.debug && b.hardwareRegister < |s.debug[b.tid].slots|
                     && DebugWritten(s, b.tid, b.hardwareRegister,
                                     SetEnable(s.debug[b.tid].slots[b.hardwareRegister], on), s'.debug)
  }

  ghost predicate RemoveStep(s: State, e: Event, s': State)
    requires e.Remove?
  {
    && s'.pristine == s.pristine
    && if e.id !in s.tables.breakpoints then !e.ok && e.residue.Exact? && s' == s
       else
         var b := s.tables.breakpoints[e.id];
         if b.kind.Software? then
           && s'.debug == s.debug && |b.original| == 4
           && Patched(s.memory, b.address, b.original, e.ok, e.residue, s'.memory)
           && s'.tables == if e.ok then s.tables.Forget(e.id) else s.tables
         else
           // the register returns to the pool whether or not its enable bit could be cleared
           && e.ok && e.residue.Exact? && s'.memory == s.memory
           && s'.tables == s.tables.SetFree(b.tid, s.tables.FreeOf(b.tid) + {b.hardwareRegister}).Forget(e.id)
           && if !e.cleared then s'.debug == s.debug
              else
                && b.tid in s.debug && b.hardwareRegister < |s.debug[b.tid].slots|
                && DebugWritten(s, b.tid, b.hardwareRegister,
                                SetEnable(s.debug[b.tid].slots[b.hardwareRegister], false), s'.debug)
  }

  const TEST_SLOT := DebugSlot(0x10000000, ENABLE | EL0)

  /** A set with the test value in every slot. */
  function TestSet(h: HwDebug): HwDebug {
    h.(slots := seq(DEBUG_SLOTS, _ => TEST_SLOT))
  }

  function Upto(n: nat): (r: set<nat>)
    ensures forall i: nat :: i in r <==> i < n
  {
    if n == 0 then {} else Upto(n - 1) + {n - 1}
  }

  /** A thread is probed once. A failed probe still counts as done; if the original values could not be
      restored the test values stay in the implemented registers. */
  ghost predicate ProbeStep(s: State, e: Event, s': State)
    requires e.Probe?
  {
    && s'.memory == s.memory && s'.pristine == s.pristine
    && if e.tid in s.tables.registerCounts then
         e.ok && e.count == s.tables.registerCounts[e.tid] && !e.polluted && s' == s
       else
         && (e.ok ==> !e.polluted) && e.count in {0, s.implemented}
         && (e.ok ==> e.count == s.implemented && e.tid >= 1)
         && s'.tables == (if e.ok && e.count > 0
                          then s.tables.SetFree(e.tid, s.tables.FreeOf(e.tid) + Upto(e.count)) else s.tables)
                         .(registerCounts := s.tables.registerCounts[e.tid := e.count])
         && if !e.polluted then s'.debug == s.debug
            else e.tid in s.debug && |s.debug[e.tid].slots| == DEBUG_SLOTS
                 && s'.debug == s.debug[e.tid := Accepted(s.debug[e.tid], TestSet(s.debug[e.tid]), s.implemented)]
  }

  /** The bytes under software breakpoints, enabled or not. */
  ghost predicate UnderBreakpoint(t: Tables, i: nat) {
    exists id :: id in t.breakpoints && t.breakpoints[id].kind.Software?
                 && t.breakpoints[id].address <= i < t.breakpoints[id].address + 4
  }

  /** The tracee ran and wrote what it liked, except under software breakpoints. */
  ghost predicate RanStep(s: State, e: Event, s': State)
    requires e.Ran?
  {
    && s'.tables == s.tables && s'.debug == s.debug && s'.memory == e.memory
    && |s'.memory| == |s.memory| && |s'.pristine| == |s.pristine| == |s.memory|
    && forall i :: 0 <= i < |s.memory| ==>
         if UnderBreakpoint(s.tables, i) then s'.memory[i] == s.memory[i] && s'.pristine[i] == s.pristine[i]
         else s'.pristine[i] == s'.memory[i]
  }

  ghost predicate Step(s: State, e: Event, s': State) {
    && s'.implemented == s.implemented
    && match e
       case SetSoftware(_, _, _, _) => SetSoftwareStep(s, e, s')
       case SetHardware(_, _, _, _, _) => SetHardwareStep(s, e, s')
       case Enable(id, ok, residue) => SwitchStep(s, id, true, ok, residue, s')
       case Disable(id, ok, residue) => SwitchStep(s, id, false, ok, residue, s')
       case Remove(_, _, _, _) => RemoveStep(s, e, s')
       case Probe(_, _, _, _) => ProbeStep(s, e, s')
       case Ran(_) => RanStep(s, e, s')
  }

  predicate Writes(e: Event) { e.SetSoftware? || e.Enable? || e.Disable? || e.Remove? }

  /** The write of the operation, if it made one, stored all of its word or nothing. */
  predicate Whole(e: Event) { Writes(e) ==> e.residue.Exact? }

  /** The kernel did not leave part of a failed four-byte write behind. */
  predicate Untorn(e: Event) { Writes(e) ==> !e.residue.Torn? }

  /** What was poked was the word itself. */
  predicate ByValue(e: Event) { Writes(e) ==> !e.residue.Poked? }

  /** The debug-register calls of removals and of the restore after a probe succeeded. */
  predicate Clean(e: Event) {
    && (e.Remove? ==> e.cleared)
    && (e.Probe? ==> !e.polluted)
  }

  /** The debugger asks for a hardware breakpoint only with a hardware type. */
  predicate Dispatched(e: Event) {
    e.SetHardware? ==> !e.kind.Software?
  }
}
