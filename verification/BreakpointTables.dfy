/**
 What every step keeps of the manager's tables, whatever fails: the indexes agree with the table of
 live breakpoints, and the register pools neither lose nor share a register.
 */
module BreakpointTables {
  import opened Tracees
  import opened BreakpointModel

  ghost predicate Entries(t: Tables, implemented: nat) {
    && t.nextId >= 1
    && forall id :: id in t.breakpoints ==>
         var b := t.breakpoints[id];
         && b.id == id && 0 < id < t.nextId && b.tid >= 1 && b.address % 4 == 0 && |b.original| == 4
         && if b.kind.Software? then b.hardwareRegister == NO_REGISTER
            else b.hardwareRegister < implemented && b.tid in t.registerCounts
  }

  ghost predicate UniqueAddresses(t: Tables) {
    forall i, j :: i in t.breakpoints && j in t.breakpoints && i != j ==>
      t.breakpoints[i].address != t.breakpoints[j].address
  }

  /** An id is in a thread's set exactly when the live breakpoint with that id has that thread. */
  ghost predicate ThreadIndex(t: Tables) {
    && (forall tid :: tid in t.threads ==> t.threads[tid] != {})
    && (forall tid, id :: id in t.ThreadIds(tid) <==> id in t.breakpoints && t.breakpoints[id].tid == tid)
  }

  /** Live breakpoints are indexed by address; an entry left behind by a removed one is dead for good,
      because ids are not used again. */
  ghost predicate AddressIndex(t: Tables) {
    && (forall id :: id in t.breakpoints ==>
          t.breakpoints[id].address in t.addresses && t.addresses[t.breakpoints[id].address] == id)
    && (forall a :: a in t.addresses ==>
          t.addresses[a] < t.nextId
          && (t.addresses[a] in t.breakpoints ==> t.breakpoints[t.addresses[a]].address == a))
  }

  ghost predicate Pools(t: Tables, implemented: nat) {
    && (forall tid, r :: r in t.FreeOf(tid) ==> r < implemented && tid in t.registerCounts)
    && (forall id :: id in t.breakpoints && !t.breakpoints[id].kind.Software? ==>
          t.breakpoints[id].hardwareRegister !in t.FreeOf(t.breakpoints[id].tid))
    && (forall i, j :: i in t.breakpoints && j in t.breakpoints && i != j
          && !t.breakpoints[i].kind.Software? && !t.breakpoints[j].kind.Software?
          && t.breakpoints[i].tid == t.breakpoints[j].tid
          ==> t.breakpoints[i].hardwareRegister != t.breakpoints[j].hardwareRegister)
  }

  ghost predicate TablesOk(t: Tables, implemented: nat) {
    && implemented <= DEBUG_SLOTS
    && Entries(t, implemented) && UniqueAddresses(t) && ThreadIndex(t) && AddressIndex(t) && Pools(t, implemented)
  }

  // ---------- the three ways a step changes the tables ----------

  /** The breakpoint may join the tables. */
  ghost predicate Fits(t: Tables, b: Breakpoint, implemented: nat) {
    && b.id == t.nextId && b.tid >= 1 && b.address % 4 == 0 && |b.original| == 4
    && !t.Duplicate(b.address)
    && if b.kind.Software? then b.hardwareRegister == NO_REGISTER
       else b.hardwareRegister < implemented && b.tid in t.registerCounts
            && b.hardwareRegister !in t.FreeOf(b.tid) && b.hardwareRegister !in t.Held(b.tid)
  }

  lemma RegisterKeepsEntries(t: Tables, b: Breakpoint, implemented: nat)
    requires Entries(t, implemented) && UniqueAddresses(t) && Fits(t, b, implemented)
    ensures Entries(t.Register(b), implemented) && UniqueAddresses(t.Register(b))
  {
  }

  lemma RegisterKeepsIndexes(t: Tables, b: Breakpoint, implemented: nat)
    requires Entries(t, implemented) && ThreadIndex(t) && AddressIndex(t) && Fits(t, b, implemented)
    ensures ThreadIndex(t.Register(b)) && AddressIndex(t.Register(b))
  {
    var t' := t.Register(b);
    assert b.id !in t.breakpoints;
    forall tid, id
      ensures id in t'.ThreadIds(tid) <==> id in t'.breakpoints && t'.breakpoints[id].tid == tid
    {
      assert id in t.ThreadIds(tid) <==> id in t.breakpoints && t.breakpoints[id].tid == tid;
    }
  }

  lemma RegisterKeepsPools(t: Tables, b: Breakpoint, implemented: nat)
    requires implemented <= DEBUG_SLOTS && Entries(t, implemented) && Pools(t, implemented) && Fits(t, b, implemented)
    ensures Pools(t.Register(b), implemented)
  {
    assert forall tid :: t.Register(b).FreeOf(tid) == t.FreeOf(tid);
  }

  lemma RegisterKeepsTables(t: Tables, b: Breakpoint, implemented: nat)
    requires TablesOk(t, implemented) && Fits(t, b, implemented)
    ensures TablesOk(t.Register(b), implemented)
  {
    RegisterKeepsEntries(t, b, implemented);
    RegisterKeepsIndexes(t, b, implemented);
    RegisterKeepsPools(t, b, implemented);
  }

  lemma ForgetKeepsTables(t: Tables, id: int, implemented: nat)
    requires TablesOk(t, implemented) && id in t.breakpoints
    ensures TablesOk(t.Forget(id), implemented)
  {
    var t' := t.Forget(id);
    assert ThreadIndex(t') by {
      forall tid, i
        ensures i in t'.ThreadIds(tid) <==> i in t'.breakpoints && t'.breakpoints[i].tid == tid
      {
        assert i in t.ThreadIds(tid) <==> i in t.breakpoints && t.breakpoints[i].tid == tid;
      }
    }
    assert Pools(t', implemented) by {
      assert forall tid :: t'.FreeOf(tid) == t.FreeOf(tid);
    }
  }

  /** Giving a removed hardware breakpoint's register back, and forgetting the breakpoint. */
  lemma ReturnKeepsTables(t: Tables, id: int, implemented: nat)
    requires TablesOk(t, implemented) && id in t.breakpoints && !t.breakpoints[id].kind.Software?
    ensures var b := t.breakpoints[id];
            TablesOk(t.SetFree(b.tid, t.FreeOf(b.tid) + {b.hardwareRegister}).Forget(id), implemented)
  {
    var b := t.breakpoints[id];
    ForgetKeepsTables(t, id, implemented);
    var f := t.Forget(id);
    var t' := t.SetFree(b.tid, t.FreeOf(b.tid) + {b.hardwareRegister}).Forget(id);
    assert t' == f.SetFree(b.tid, f.FreeOf(b.tid) + {b.hardwareRegister});
    assert ThreadIndex(t') by {
      assert forall tid :: t'.ThreadIds(tid) == f.ThreadIds(tid);
    }
    assert Pools(t', implemented) by {
      assert forall tid :: t'.FreeOf(tid) == f.FreeOf(tid) + if tid == b.tid then {b.hardwareRegister} else {};
    }
  }

  /** The pool of one thread shrinks, or is filled by a first probe. */
  lemma SetFreeKeepsTables(t: Tables, tid: int, registers: set<nat>, counts: map<int, nat>, implemented: nat)
    requires TablesOk(t, implemented)
    requires t.registerCounts.Keys <= counts.Keys
    requires registers != {} ==> tid in counts
    requires forall r :: r in registers ==> r < implemented && r !in t.Held(tid)
    ensures TablesOk(t.SetFree(tid, registers).(registerCounts := counts), implemented)
  {
    var t' := t.SetFree(tid, registers).(registerCounts := counts);
    assert ThreadIndex(t') by {
      assert forall i :: t'.ThreadIds(i) == t.ThreadIds(i);
    }
    assert Pools(t', implemented) by {
      assert forall i :: t'.FreeOf(i) == if i == tid then registers else t.FreeOf(i);
    }
  }

  lemma SetEnabledKeepsEntries(t: Tables, id: int, on: bool, implemented: nat)
    requires Entries(t, implemented) && UniqueAddresses(t) && AddressIndex(t) && id in t.breakpoints
    ensures var t' := t.SetEnabled(id, on);
            Entries(t', implemented) && UniqueAddresses(t') && AddressIndex(t')
  {
  }

  lemma SetEnabledKeepsThreads(t: Tables, id: int, on: bool)
    requires ThreadIndex(t) && id in t.breakpoints
    ensures ThreadIndex(t.SetEnabled(id, on))
  {
    assert forall i :: t.SetEnabled(id, on).ThreadIds(i) == t.ThreadIds(i);
  }

  lemma SetEnabledKeepsPools(t: Tables, id: int, on: bool, implemented: nat)
    requires Pools(t, implemented) && id in t.breakpoints
    ensures Pools(t.SetEnabled(id, on), implemented)
  {
    assert forall i :: t.SetEnabled(id, on).FreeOf(i) == t.FreeOf(i);
  }

  lemma SetEnabledKeepsTables(t: Tables, id: int, on: bool, implemented: nat)
    requires TablesOk(t, implemented) && id in t.breakpoints
    ensures TablesOk(t.SetEnabled(id, on), implemented)
  {
    SetEnabledKeepsEntries(t, id, on, implemented);
    SetEnabledKeepsThreads(t, id, on);
    SetEnabledKeepsPools(t, id, on, implemented);
  }

  // ---------- steps ----------

  lemma HeldIsDisjoint(t: Tables, implemented: nat, tid: int)
    requires TablesOk(t, implemented)
    ensures t.FreeOf(tid) !! t.Held(tid)
    ensures tid !in t.registerCounts ==> t.Owned(tid) == {}
  {
  }

  lemma SetSoftwareKeepsTables(s: State, e: Event, s': State)
    requires TablesOk(s.tables, s.implemented) && e.SetSoftware? && SetSoftwareStep(s, e, s')
    ensures TablesOk(s'.tables, s.implemented)
  {
    if e.result.Created? {
      RegisterKeepsTables(s.tables, Breakpoint(e.result.id, e.tid, e.address, Software, true,
                                               Slice(s.memory, e.address, 4), NO_REGISTER), s.implemented);
    }
  }

  lemma SetHardwareKeepsTables(s: State, e: Event, s': State)
    requires TablesOk(s.tables, s.implemented) && e.SetHardware? && SetHardwareStep(s, e, s')
    ensures TablesOk(s'.tables, s.implemented)
  {
    var t, n, tid := s.tables, s.implemented, e.tid;
    HeldIsDisjoint(t, n, tid);
    var rest := t.FreeOf(tid) - {e.hardwareRegister};
    SetFreeKeepsTables(t, tid, rest, t.registerCounts, n);
    SetFreeKeepsTables(t, tid, {}, t.registerCounts, n);
    if e.result.Created? {
      var fewer := t.SetFree(tid, rest);
      assert fewer.FreeOf(tid) == rest && fewer.Held(tid) == t.Held(tid);
      assert fewer.(registerCounts := t.registerCounts) == fewer;
      assert e.hardwareRegister in t.FreeOf(tid);
      RegisterKeepsTables(fewer, Breakpoint(e.result.id, tid, e.address, e.kind, true, NO_INSTRUCTION,
                                            e.hardwareRegister), n);
    }
  }

  lemma SwitchKeepsTables(s: State, id: int, on: bool, ok: bool, residue: Residue, s': State)
    requires TablesOk(s.tables, s.implemented) && SwitchStep(s, id, on, ok, residue, s')
    ensures TablesOk(s'.tables, s.implemented)
  {
    if id in s.tables.breakpoints { SetEnabledKeepsTables(s.tables, id, on, s.implemented); }
  }

  lemma RemoveKeepsTables(s: State, e: Event, s': State)
    requires TablesOk(s.tables, s.implemented) && e.Remove? && RemoveStep(s, e, s')
    ensures TablesOk(s'.tables, s.implemented)
  {
    if e.id in s.tables.breakpoints {
      if s.tables.breakpoints[e.id].kind.Software? {
        ForgetKeepsTables(s.tables, e.id, s.implemented);
      } else {
        ReturnKeepsTables(s.tables, e.id, s.implemented);
      }
    }
  }

  lemma ProbeKeepsTables(s: State, e: Event, s': State)
    requires TablesOk(s.tables, s.implemented) && e.Probe? && ProbeStep(s, e, s')
    ensures TablesOk(s'.tables, s.implemented)
  {
    var t, n, tid := s.tables, s.implemented, e.tid;
    if tid !in t.registerCounts {
      HeldIsDisjoint(t, n, tid);
      var counts := t.registerCounts[tid := e.count];
      var t' := t.(registerCounts := counts);
      if e.ok && e.count > 0 {
        SetFreeKeepsTables(t, tid, t.FreeOf(tid) + Upto(e.count), counts, n);
      } else {
        assert forall i :: t'.ThreadIds(i) == t.ThreadIds(i) && t'.FreeOf(i) == t.FreeOf(i);
      }
    }
  }

  /** Every step keeps the tables in order, with any I/O outcome. */
  lemma StepKeepsTables(s: State, e: Event, s': State)
    requires TablesOk(s.tables, s.implemented) && Step(s, e, s')
    ensures TablesOk(s'.tables, s'.implemented)
  {
    match e
    case SetSoftware(_, _, _, _) => SetSoftwareKeepsTables(s, e, s');
    case SetHardware(_, _, _, _, _) => SetHardwareKeepsTables(s, e, s');
    case Enable(id, ok, residue) => SwitchKeepsTables(s, id, true, ok, residue, s');
    case Disable(id, ok, residue) => SwitchKeepsTables(s, id, false, ok, residue, s');
    case Remove(_, _, _, _) => RemoveKeepsTables(s, e, s');
    case Probe(_, _, _, _) => ProbeKeepsTables(s, e, s');
    case Ran(_) =>
  }

  // ---------- conservation of the pools ----------

  lemma SetHardwareConserves(s: State, e: Event, s': State, tid: int)
    requires TablesOk(s.tables, s.implemented) && e.SetHardware? && SetHardwareStep(s, e, s') && Dispatched(e)
    ensures s'.tables.Owned(tid) == s.tables.Owned(tid)
  {
    var t := s.tables;
    if e.result.Created? {
      var fewer := t.SetFree(e.tid, t.FreeOf(e.tid) - {e.hardwareRegister});
      assert fewer.Held(tid) == t.Held(tid);
      HeldAfterRegister(fewer, Breakpoint(e.result.id, e.tid, e.address, e.kind, true, NO_INSTRUCTION,
                                          e.hardwareRegister), tid);
    } else {
      assert s'.tables.Held(tid) == t.Held(tid);
    }
  }

  lemma RemoveConserves(s: State, e: Event, s': State, tid: int)
    requires TablesOk(s.tables, s.implemented) && e.Remove? && RemoveStep(s, e, s')
    ensures s'.tables.Owned(tid) == s.tables.Owned(tid)
  {
    if e.id in s.tables.breakpoints && e.ok {
      HeldAfterForget(s.tables, e.id, tid, s'.tables, s.implemented);
    }
  }

  lemma SetSoftwareConserves(s: State, e: Event, s': State, tid: int)
    requires TablesOk(s.tables, s.implemented) && e.SetSoftware? && SetSoftwareStep(s, e, s')
    ensures s'.tables.Owned(tid) == s.tables.Owned(tid)
  {
    if e.result.Created? {
      HeldAfterRegister(s.tables, Breakpoint(e.result.id, e.tid, e.address, Software, true,
                                             Slice(s.memory, e.address, 4), NO_REGISTER), tid);
    }
  }

  lemma ProbeConserves(s: State, e: Event, s': State, tid: int)
    requires TablesOk(s.tables, s.implemented) && e.Probe? && ProbeStep(s, e, s')
    ensures if e.tid == tid && tid !in s.tables.registerCounts
            then s'.tables.Owned(tid) == if e.ok then Upto(s.implemented) else {}
            else s'.tables.Owned(tid) == s.tables.Owned(tid)
  {
    HeldIsDisjoint(s.tables, s.implemented, tid);
    assert s'.tables.Held(tid) == s.tables.Held(tid);
  }

  /** What the pool of a probed thread is made of does not change, and the first successful probe makes it
      exactly the registers the hardware has. */
  lemma StepConservesPool(s: State, e: Event, s': State, tid: int)
    requires TablesOk(s.tables, s.implemented) && Step(s, e, s') && Dispatched(e)
    ensures tid in s.tables.registerCounts ==>
              tid in s'.tables.registerCounts && s'.tables.Owned(tid) == s.tables.Owned(tid)
    ensures tid !in s.tables.registerCounts && tid in s'.tables.registerCounts ==>
              e.Probe? && e.tid == tid && s'.tables.Owned(tid) == if e.ok then Upto(s.implemented) else {}
  {
    match e
    case SetSoftware(_, _, _, _) => SetSoftwareConserves(s, e, s', tid);
    case SetHardware(_, _, _, _, _) => SetHardwareConserves(s, e, s', tid);
    case Enable(id, _, _) => HeldAfterSwitch(s, id, true, s', tid);
    case Disable(id, _, _) => HeldAfterSwitch(s, id, false, s', tid);
    case Remove(_, _, _, _) => RemoveConserves(s, e, s', tid);
    case Probe(_, _, _, _) => ProbeConserves(s, e, s', tid);
    case Ran(_) =>
  }

  lemma HeldAfterRegister(t: Tables, b: Breakpoint, tid: int)
    requires b.id !in t.breakpoints
    ensures t.Register(b).Held(tid)
            == t.Held(tid) + if b.tid == tid && b.hardwareRegister < DEBUG_SLOTS then {b.hardwareRegister} else {}
    ensures t.Register(b).FreeOf(tid) == t.FreeOf(tid)
  {
    var t' := t.Register(b);
    assert b.id in t'.breakpoints;
    forall r | r in t.Held(tid) ensures r in t'.Held(tid) {
      var id :| id in t.breakpoints && t.breakpoints[id].tid == tid && t.breakpoints[id].hardwareRegister == r;
      assert id in t'.breakpoints && t'.breakpoints[id] == t.breakpoints[id];
    }
  }

  lemma HeldAfterSwitch(s: State, id: int, on: bool, s': State, tid: int)
    requires s'.tables == s.tables || (id in s.tables.breakpoints && s'.tables == s.tables.SetEnabled(id, on))
    ensures s'.tables.Held(tid) == s.tables.Held(tid) && s'.tables.FreeOf(tid) == s.tables.FreeOf(tid)
  {
    var t, t' := s.tables, s'.tables;
    assert forall i :: i in t.breakpoints <==> i in t'.breakpoints;
    assert forall i :: i in t.breakpoints ==>
        t'.breakpoints[i].tid == t.breakpoints[i].tid
        && t'.breakpoints[i].hardwareRegister == t.breakpoints[i].hardwareRegister;
  }

  lemma HeldAfterForget(t: Tables, id: int, tid: int, t': Tables, implemented: nat)
    requires TablesOk(t, implemented) && id in t.breakpoints
    requires t'.breakpoints == t.breakpoints - {id}
    ensures var b := t.breakpoints[id];
            t'.Held(tid) == t.Held(tid)
                            - if b.tid == tid && !b.kind.Software? then {b.hardwareRegister} else {}
  {
    assert forall i :: i in t'.breakpoints <==> i in t.breakpoints && i != id;
    var b := t.breakpoints[id];
    var gone := if b.tid == tid && !b.kind.Software? then {b.hardwareRegister} else {};
    forall r | r in t.Held(tid) && r !in gone ensures r in t'.Held(tid) {
      var i :| i in t.breakpoints && t.breakpoints[i].tid == tid && t.breakpoints[i].hardwareRegister == r;
      assert i != id;
      assert i in t'.breakpoints;
    }
  }

  /** The type that `set_hardware_breakpoint` does not expect costs the pool a register for good, and nothing
      else does: a step on a probed thread conserves the pool unless it took a register for that type. */
  lemma PoolLeaksIff(s: State, e: Event, s': State)
    requires TablesOk(s.tables, s.implemented) && Step(s, e, s')
    requires e.SetHardware? && e.tid in s.tables.registerCounts
    ensures s'.tables.Owned(e.tid) == s.tables.Owned(e.tid)
            <==> !(e.kind.Software? && e.address % 4 == 0 && !s.tables.Duplicate(e.address)
                   && s.tables.FreeOf(e.tid) != {})
  {
    HeldIsDisjoint(s.tables, s.implemented, e.tid);
    if e.kind.Software? {
      assert s'.tables.Held(e.tid) == s.tables.Held(e.tid);
    } else {
      StepConservesPool(s, e, s', e.tid);
    }
  }

  /** What a successful probe step means for the pool: a first one makes exactly the implemented registers free,
      and a repeated one changes nothing. */
  lemma ProbeFindsTheRegisters(s: State, e: Event, s': State)
    requires TablesOk(s.tables, s.implemented) && Step(s, e, s') && e.Probe? && e.ok
    ensures s'.debug == s.debug && s'.tables.breakpoints == s.tables.breakpoints
    ensures e.tid !in s.tables.registerCounts ==>
              s'.tables.registerCounts[e.tid] == s.implemented && s'.tables.FreeOf(e.tid) == Upto(s.implemented)
    ensures e.tid in s.tables.registerCounts ==> s' == s
  {
    HeldIsDisjoint(s.tables, s.implemented, e.tid);
  }

  // ---------- lookups ----------

  /** Lookup by address finds a breakpoint exactly when the scan for duplicates does, stale entries
      notwithstanding, and it is the one at that address. */
  lemma LookupAgreesWithScan(t: Tables, implemented: nat, address: nat)
    requires TablesOk(t, implemented)
    ensures t.Lookup(address).Some? <==> t.Duplicate(address)
    ensures forall id :: id in t.breakpoints && t.breakpoints[id].address == address ==>
              t.Lookup(address) == Some(t.breakpoints[id])
  {
  }

  /** As the source has it the lookup gives that answer only for an address whose entry is stale. */
  lemma LookupAsCodedIsRightIff(t: Tables, implemented: nat, address: nat)
    requires TablesOk(t, implemented)
    ensures t.LookupAsCoded(address) == Some(t.Lookup(address))
            <==> address in t.addresses && t.addresses[address] !in t.breakpoints
  {
  }

  /** A thread that was never probed cannot be given a hardware breakpoint. */
  lemma UnprobedIsRefused(s: State, e: Event, s': State)
    requires TablesOk(s.tables, s.implemented) && Step(s, e, s')
    requires e.SetHardware? && e.tid !in s.tables.registerCounts
    ensures !e.result.Created? && s'.debug == s.debug && s'.tables.breakpoints == s.tables.breakpoints
  {
    HeldIsDisjoint(s.tables, s.implemented, e.tid);
  }
}
