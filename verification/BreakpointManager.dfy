/**
 The breakpoint manager itself: mutable tables over a tracee that any call may fail on. Every operation is
 proved to take one step of the state machine in BreakpointModel, so whatever holds of every run of that
 machine holds of every sequence of calls to a manager.
 */
module BreakpointManagers {
  import opened Tracees
  import opened RegisterControl
  import MemoryControl
  import opened BreakpointModel
  import opened BreakpointTables
  import opened BreakpointWords
  import opened BreakpointPatches
  import opened BreakpointRuns
  import opened BreakpointEffects

  ghost predicate Recorded(before: seq<Event>, after: seq<Event>) {
    |after| == |before| + 1 && after[..|before|] == before
  }

  /** What a reachable state says about one of its entries. */
  lemma ReachableEntry(states: seq<State>, events: seq<Event>, id: int)
    requires IsRun(states, events) && Initial(states[0])
    ensures var s := states[|events|];
            id in s.tables.breakpoints ==>
              var b := s.tables.breakpoints[id];
              && b.id == id && |b.original| == 4
              && if b.kind.Software? then b.hardwareRegister == NO_REGISTER
                 else b.hardwareRegister < DEBUG_SLOTS && b.tid in s.debug && |s.debug[b.tid].slots| == DEBUG_SLOTS
  {
    InitialIsSound(states[0]);
    RunIsSound(states, events, |events|);
  }

  /** Registers are in a pool only after the thread was probed. */
  lemma ReachablePool(states: seq<State>, events: seq<Event>, tid: int)
    requires IsRun(states, events) && Initial(states[0])
    ensures var t := states[|events|].tables;
            forall r :: r in t.FreeOf(tid) ==> r < DEBUG_SLOTS && tid in t.registerCounts
  {
    InitialIsSound(states[0]);
    RunIsSound(states, events, |events|);
  }

  /** A set survives being overwritten with anything and restored. */
  lemma RestoreUndoesTest(h: HwDebug, test: HwDebug, implemented: nat)
    requires SaneHwDebug(h, implemented) && |test.slots| == DEBUG_SLOTS
    ensures Accepted(Accepted(h, test, implemented), h, implemented) == h
    ensures Accepted(h, h, implemented) == h
  {
    assert Accepted(Accepted(h, test, implemented), h, implemented).slots == h.slots;
    assert Accepted(h, h, implemented).slots == h.slots;
  }

  class BreakpointManager {
    const tracee: Tracee
    // whether the word-wise write pokes the word, as it is meant to, or the word's address, as the source does
    const byValue: bool

    var breakpoints: map<int, Breakpoint>
    var threads: map<int, set<int>>
    var addresses: map<nat, int>
    var freeRegisters: map<int, set<nat>>
    var registerCounts: map<int, nat>
    var nextId: int

    // the code bytes as they would be without breakpoints, and all that has happened
    ghost var pristine: seq<byte>
    ghost var states: seq<State>
    ghost var events: seq<Event>
    // whether any patch was left to the word-wise write
    ghost var fellBack: bool

    ghost function AllTables(): Tables
      reads this
    {
      Tables(breakpoints, threads, addresses, freeRegisters, registerCounts, nextId)
    }

    ghost function Now(): State
      reads this, tracee
    {
      State(AllTables(), tracee.memory, tracee.debug, tracee.implemented, pristine)
    }

    /** The present state is the last of a run from an initial one. */
    ghost predicate Valid()
      reads this, tracee
    {
      && tracee.Valid()
      && IsRun(states, events) && Initial(states[0]) && states[|events|] == Now()
      && WritesOk(events)
    }

    /** What is known of the writes so far: of those that went by the bulk path, of a kernel that does not split them,
        and of a word-wise write that pokes words. */
    ghost predicate WritesOk(events: seq<Event>)
      reads this
    {
      && (!fellBack ==> AllWhole(events))
      && (tracee.wholeElements ==> AllUntorn(events))
      && (byValue ==> AllByValue(events))
    }

    constructor (tracee: Tracee, byValue: bool)
      requires tracee.Valid()
      ensures Valid() && fresh(this) && this.tracee == tracee && this.byValue == byValue && !fellBack
      ensures events == [] && AllTables() == EMPTY_TABLES && pristine == tracee.memory
    {
      this.tracee, this.byValue, fellBack := tracee, byValue, false;
      breakpoints, threads, addresses := map[], map[], map[];
      freeRegisters, registerCounts, nextId := map[], map[], 1;
      pristine := tracee.memory;
      states := [State(EMPTY_TABLES, tracee.memory, tracee.debug, tracee.implemented, tracee.memory)];
      events := [];
    }

    /** What a patch may have left. */
    ghost predicate ResidueOk(residue: Residue)
      reads this
    {
      && (!fellBack ==> residue.Exact?)
      && (tracee.wholeElements ==> !residue.Torn?) && (byValue ==> !residue.Poked?)
    }

    /** Only a patch that met a fault was left to the word-wise write. */
    twostate predicate FellBackOnFault()
      reads this, tracee
    {
      (old(fellBack) ==> fellBack) && (fellBack ==> old(fellBack) || tracee.faults > old(tracee.faults))
    }

    ghost predicate WriteOk(e: Event)
      reads this
    {
      Writes(e) ==> ResidueOk(e.residue)
    }

    ghost method Record(e: Event)
      requires tracee.Valid() && IsRun(states, events) && Initial(states[0])
      requires Step(states[|events|], e, Now())
      requires WritesOk(events) && WriteOk(e)
      modifies this`states, this`events
      ensures Valid()
      ensures Recorded(old(events), events) && events[|old(events)|] == e
    {
      RunExtends(states, events, e, Now());
      states, events := states + [Now()], events + [e];
    }

    // The tracee has run since `before`: what it wrote outside breakpoints is its own code and data now
    ghost method RecordRun(before: State)
      requires tracee.Valid() && IsRun(states, events) && Initial(states[0]) && states[|events|] == before
      requires WritesOk(events)
      requires Now() == before.(memory := tracee.memory) && |tracee.memory| == |before.memory|
      requires forall i :: 0 <= i < |before.memory| && UnderBreakpoint(before.tables, i) ==>
                 tracee.memory[i] == before.memory[i]
      modifies this`pristine, this`states, this`events
      ensures Valid() && Recorded(old(events), events) && events[|old(events)|] == Ran(tracee.memory)
      ensures Step(before, Ran(tracee.memory), Now())
    {
      InitialIsSound(states[0]);
      RunIsSound(states, events, |events|);
      var memory := tracee.memory;
      pristine := seq(|before.memory|, i requires 0 <= i < |before.memory| =>
                        if UnderBreakpoint(before.tables, i) then before.pristine[i] else memory[i]);
      Record(Ran(tracee.memory));
    }

    lemma SoundNow()
      requires Valid()
      ensures Sound(Now())
    {
      InitialIsSound(states[0]);
      RunIsSound(states, events, |events|);
    }

    lemma OverlayNow()
      requires Valid()
      ensures !fellBack || (tracee.wholeElements && byValue) ==> MemoryOk(Now())
    {
      InitialIsSound(states[0]);
      if !fellBack || (tracee.wholeElements && byValue) {
        assert AllWhole(events);
        RunKeepsOverlay(states, events, |events|);
      }
    }

    /** What holds of every manager, however many calls it has seen and however many of them failed. */
    lemma Guarantees()
      requires Valid()
      ensures TablesOk(AllTables(), tracee.implemented) && DebugOk(Now())
      ensures !fellBack || (tracee.wholeElements && byValue) ==> MemoryOk(Now())
      ensures forall at: nat :: at % 4 == 0 && Undamaged(states, events, |events|, at) ==> WordAtOk(Now(), at)
    {
      SoundNow();
      OverlayNow();
      InitialIsSound(states[0]);
      forall at: nat | at % 4 == 0 && Undamaged(states, events, |events|, at) ensures WordAtOk(Now(), at) {
        OverlayGivesWord(states[0], at);
        RunKeepsWord(states, events, |events|, at);
      }
    }

    // ---------- reading the tables ----------

    method CheckDuplicateBreakpoint(address: nat) returns (duplicate: bool)
      ensures duplicate <==> AllTables().Duplicate(address)
    {
      var rest := breakpoints.Keys;
      while rest != {}
        invariant rest <= breakpoints.Keys
        invariant forall id :: id in breakpoints && id !in rest ==> breakpoints[id].address != address
        decreases rest
      {
        HasElement(rest);
        var id :| id in rest;
        if breakpoints[id].address == address { return true; }
        rest := rest - {id};
      }
      return false;
    }

    /** `list` has every breakpoint with one of the ids once. */
    ghost predicate Lists(list: seq<Breakpoint>, ids: set<int>)
      reads this
    {
      && |list| == |ids| && ids <= breakpoints.Keys
      && (forall id :: id in ids ==> breakpoints[id] in list)
      && (forall i :: 0 <= i < |list| ==> exists id :: id in ids && list[i] == breakpoints[id])
    }

    lemma ListsOneMore(list: seq<Breakpoint>, ids: set<int>, id: int)
      requires Lists(list, ids) && id !in ids && id in breakpoints
      ensures Lists(list + [breakpoints[id]], ids + {id})
    {
      var more := list + [breakpoints[id]];
      forall i | i in ids + {id} ensures breakpoints[i] in more {
        assert more[|list|] == breakpoints[id];
        if i in ids {
          var k :| 0 <= k < |list| && list[k] == breakpoints[i];
          assert more[k] == breakpoints[i];
        }
      }
    }

    method GetBreakpoints() returns (list: seq<Breakpoint>)
      ensures Lists(list, breakpoints.Keys)
    {
      list := [];
      var rest := breakpoints.Keys;
      ghost var done: set<int> := {};
      while rest != {}
        invariant rest <= breakpoints.Keys && Lists(list, done)
        invariant forall id :: id in done <==> id in breakpoints.Keys && id !in rest
        decreases rest
      {
        HasElement(rest);
        var id :| id in rest;
        ListsOneMore(list, done, id);
        list := list + [breakpoints[id]];
        done := done + {id};
        rest := rest - {id};
      }
      assert forall id :: id in done <==> id in breakpoints.Keys;
      assert done == breakpoints.Keys;
    }

    // The loop over a thread's ids, which skips ids without a breakpoint
    method Collect(ids: set<int>) returns (list: seq<Breakpoint>)
      ensures Lists(list, ids * breakpoints.Keys)
    {
      list := [];
      var rest := ids;
      ghost var done: set<int> := {};
      while rest != {}
        invariant rest <= ids && Lists(list, done)
        invariant forall id :: id in done <==> id in ids && id !in rest && id in breakpoints
        decreases rest
      {
        HasElement(rest);
        var id :| id in rest;
        if id in breakpoints {
          ListsOneMore(list, done, id);
          list := list + [breakpoints[id]];
          done := done + {id};
        }
        rest := rest - {id};
      }
      assert forall id :: id in done <==> id in ids * breakpoints.Keys;
      assert done == ids * breakpoints.Keys;
    }

    /** The breakpoints of one thread are exactly the live ones with that thread. */
    method GetBreakpointsOf(tid: int) returns (list: seq<Breakpoint>)
      requires Valid()
      ensures Lists(list, set id | id in breakpoints && breakpoints[id].tid == tid)
    {
      ghost var wanted := set id | id in breakpoints && breakpoints[id].tid == tid;
      ThreadIdsAreFiltered(tid);
      assert wanted * breakpoints.Keys == wanted;
      if tid !in threads { return []; }
      list := Collect(threads[tid]);
    }

    lemma ThreadIdsAreFiltered(tid: int)
      requires Valid()
      ensures AllTables().ThreadIds(tid) == set id | id in breakpoints && breakpoints[id].tid == tid
    {
      InitialIsSound(states[0]);
      RunIsSound(states, events, |events|);
      var t := AllTables();
      assert ThreadIndex(t);
      forall id ensures id in t.ThreadIds(tid) <==> id in t.breakpoints && t.breakpoints[id].tid == tid {}
    }

    method GetBreakpoint(id: int) returns (b: Option<Breakpoint>)
      ensures b == if id in breakpoints then Some(breakpoints[id]) else None
    {
      if id in breakpoints { return Some(breakpoints[id]); }
      return None;
    }

    /** Lookup by address, with the intended test: the answer of the linear scan. */
    method GetBreakpointAt(address: nat) returns (b: Option<Breakpoint>)
      requires Valid()
      ensures b.Some? <==> AllTables().Duplicate(address)
      ensures b.Some? ==> b.value.address == address && b.value.id in breakpoints && breakpoints[b.value.id] == b.value
    {
      if address in addresses {
        b := GetBreakpoint(addresses[address]);
      } else {
        b := None;
      }
      assert b == AllTables().Lookup(address);
      InitialIsSound(states[0]);
      RunIsSound(states, events, |events|);
      LookupAgreesWithScan(AllTables(), tracee.implemented, address);
    }

    // ---------- operations ----------

    // Breakpoint's constructor rejects these arguments; no caller gets here with them
    method NewBreakpoint(tid: int, address: nat, kind: Kind, original: seq<byte>) returns (id: int)
      requires tid >= 1 && address % 4 == 0
      modifies this`breakpoints, this`threads, this`addresses, this`nextId
      ensures id == old(nextId)
      ensures AllTables() == old(AllTables()).Register(Breakpoint(id, tid, address, kind, true, original, NO_REGISTER))
    {
      id := nextId;
      nextId := nextId + 1;
      breakpoints := breakpoints[id := Breakpoint(id, tid, address, kind, true, original, NO_REGISTER)];
      threads := threads[tid := (if tid in threads then threads[tid] else {}) + {id}];
      addresses := addresses[address := id];
    }

    // The address of a local variable, as its eight bytes
    method LocalAddress() returns (pointer: seq<byte>)
      ensures |pointer| == 8
    {
      pointer := *;
      if |pointer| != 8 { pointer := [0, 0, 0, 0, 0, 0, 0, 0]; }
    }

    // One four-byte patch; `residue` is what sets it apart from one that stored all or nothing
    method PatchMemory(tid: int, address: nat, word: seq<byte>) returns (ok: bool, ghost residue: Residue)
      requires |word| == 4
      modifies this`fellBack, tracee`memory, tracee`faults
      ensures Patched(old(tracee.memory), address, word, ok, residue, tracee.memory)
      ensures ok ==> tid >= 1
      ensures tracee.wholeElements ==> !residue.Torn?
      ensures byValue ==> !residue.Poked?
      ensures fellBack <==> old(fellBack) || tracee.faults > old(tracee.faults)
      ensures tracee.faults == old(tracee.faults) ==> residue.Exact?
      ensures tracee.faults >= old(tracee.faults) && (!ok ==> tracee.faults > old(tracee.faults))
    {
      var argument := MemoryControl.WordValue;
      if !byValue {
        var pointer := LocalAddress();
        argument := MemoryControl.WordAddress(pointer);
      }
      ok := MemoryControl.WriteMemory(tracee, tid, address, word, argument);
      residue := Exact;
      if tracee.faults > old(tracee.faults) {
        fellBack := true;
        residue := ResidueOf(old(tracee.memory), address, word, argument, ok);
      }
    }

    // What the fallback has left
    ghost method ResidueOf(m: seq<byte>, address: nat, word: seq<byte>, argument: MemoryControl.PokeArgument, ok: bool)
      returns (residue: Residue)
      requires |word| == 4 && MemoryControl.ValidArgument(argument)
      requires ok ==>
                 exists n: nat ::
                   MemoryControl.FallbackDone(m, address, word, n, argument, tracee.wholeElements, tracee.memory)
      requires !ok ==>
                 exists n: nat ::
                   MemoryControl.FallbackFailed(m, address, word, n, argument, tracee.wholeElements, tracee.memory)
      ensures Patched(m, address, word, ok, residue, tracee.memory)
      ensures tracee.wholeElements ==> !residue.Torn?
      ensures argument.WordValue? ==> !residue.Poked?
    {
      var n: nat;
      if ok {
        n :| MemoryControl.FallbackDone(m, address, word, n, argument, tracee.wholeElements, tracee.memory);
        residue := if argument.WordValue? then Exact else Poked(argument.pointer);
      } else {
        n :| MemoryControl.FallbackFailed(m, address, word, n, argument, tracee.wholeElements, tracee.memory);
        residue := if n == 0 then Exact else Torn(n);
      }
      MemoryControl.OneWordWritten(m, address, word, n, argument, tracee.wholeElements, tracee.memory);
    }

    method SetSoftwareBreakpoint(tid: int, address: nat) returns (result: SetResult)
      requires Valid()
      modifies this, tracee`memory, tracee`faults
      ensures Valid() && Recorded(old(events), events) && pristine == old(pristine) && FellBackOnFault()
      ensures var e := events[|old(events)|];
              && e.SetSoftware? && e.tid == tid && e.address == address && e.result == result
              && Step(old(Now()), e, Now()) && (tracee.faults == old(tracee.faults) ==> Whole(e))
      ensures result.Refused? ==> old(AllTables()).Duplicate(address) || tracee.faults > old(tracee.faults)
      ensures tracee.faults >= old(tracee.faults)
      // in plain terms
      ensures result.Threw? <==> address % 4 != 0
      ensures result.Created? ==>
                && result.id !in old(breakpoints) && !old(AllTables()).Duplicate(address)
                && address + 4 <= |old(tracee.memory)|
                && breakpoints == old(breakpoints)[result.id :=
                     Breakpoint(result.id, tid, address, Software, true, old(tracee.memory)[address..address + 4], 18)]
                && (byValue || tracee.faults == old(tracee.faults) ==>
                      && InForce(breakpoints[result.id], tracee.memory, tracee.debug)
                      && OnlyWord(old(tracee.memory), tracee.memory, address))
      ensures !result.Created? ==>
                && breakpoints == old(breakpoints)
                && (tracee.wholeElements || tracee.faults == old(tracee.faults) ==> tracee.memory == old(tracee.memory))
    {
      SoundNow();
      ghost var residue := Exact;
      if address % 4 != 0 {
        result := Threw;
      } else {
        result, residue := PatchAndTrack(tid, address);
      }
      Record(SetSoftware(tid, address, result, residue));
      SettingSoftware(old(Now()), SetSoftware(tid, address, result, residue), Now());
    }

    // set_software_breakpoint after its check of the alignment
    method PatchAndTrack(tid: int, address: nat) returns (result: SetResult, ghost residue: Residue)
      requires tracee.Valid() && address % 4 == 0
      modifies this`breakpoints, this`threads, this`addresses, this`nextId, this`fellBack
      modifies tracee`memory, tracee`faults
      ensures tracee.Valid() && ResidueOk(residue) && FellBackOnFault()
      ensures tracee.faults == old(tracee.faults) ==> residue.Exact?
      ensures SetSoftwareStep(old(Now()), SetSoftware(tid, address, result, residue), Now())
      ensures result.Refused? ==> old(AllTables()).Duplicate(address) || tracee.faults > old(tracee.faults)
      ensures tracee.faults >= old(tracee.faults)
    {
      var duplicate := CheckDuplicateBreakpoint(address);
      if duplicate { return Refused, Exact; }
      var buffer := new byte[4];
      var ok := MemoryControl.ReadMemory(tracee, tid, address, buffer);
      if !ok { return Refused, Exact; }
      var original := buffer[..];
      ok, residue := PatchMemory(tid, address, BRK);
      if !ok { return Refused, residue; }
      var id := NewBreakpoint(tid, address, Software, original);
      result := Created(id);
    }

    method GetHardwareRegistersCount(tid: int) returns (count: int)
      requires Valid()
      modifies this, tracee`debug, tracee`faults
      ensures Valid() && Recorded(old(events), events) && pristine == old(pristine) && fellBack == old(fellBack)
      ensures var e := events[|old(events)|];
              e.Probe? && e.tid == tid && Step(old(Now()), e, Now()) && count == if e.ok then e.count else -1
      ensures count == -1 ==> tracee.faults > old(tracee.faults)
    {
      var ok := InitHardwareRegister(tid);
      if ok { return registerCounts[tid]; }
      return -1;
    }

    method InitHardwareRegister(tid: int) returns (ok: bool)
      requires Valid()
      modifies this, tracee`debug, tracee`faults
      ensures Valid() && Recorded(old(events), events) && pristine == old(pristine) && fellBack == old(fellBack)
      ensures var e := events[|old(events)|];
              && e.Probe? && e.tid == tid && e.ok == ok && tid in registerCounts && e.count == registerCounts[tid]
              && Step(old(Now()), e, Now())
      ensures !ok ==> tracee.faults > old(tracee.faults)
      // in plain terms
      ensures breakpoints == old(breakpoints)
      ensures ok && tid !in old(registerCounts) ==>
                && registerCounts[tid] == tracee.implemented && tracee.debug == old(tracee.debug)
                && forall r: nat :: r in AllTables().FreeOf(tid) <==> r < tracee.implemented
      ensures !ok ==> AllTables().FreeOf(tid) == old(AllTables()).FreeOf(tid)
      ensures tid in old(registerCounts) ==> ok && Now() == old(Now())
    {
      SoundNow();
      ReachablePool(states, events, tid);
      assert old(AllTables()).FreeOf(tid) == {} || tid in registerCounts;
      ghost var polluted;
      ok, polluted := ProbeRegisters(tid);
      Record(Probe(tid, ok, registerCounts[tid], polluted));
      Probing(old(Now()), Probe(tid, ok, registerCounts[tid], polluted), Now());
    }

    // The body of init_hardware_register
    method ProbeRegisters(tid: int) returns (ok: bool, ghost polluted: bool)
      requires tracee.Valid() && (tid !in registerCounts && tid in freeRegisters ==> freeRegisters[tid] == {})
      modifies this`registerCounts, this`freeRegisters, tracee`debug, tracee`faults
      ensures tracee.Valid()
      ensures tid in registerCounts
      ensures ProbeStep(old(Now()), Probe(tid, ok, registerCounts[tid], polluted), Now())
      ensures !ok ==> tracee.faults > old(tracee.faults)
      ensures tid in old(registerCounts) ==> ok && tracee.faults == old(tracee.faults)
    {
      polluted := false;
      if tid in registerCounts { return true, false; }
      registerCounts := registerCounts[tid := 0];
      var origin := tracee.GetHwDebug(tid);
      if origin.None? { return false, false; }

      var test := TestValues(origin.value);
      RestoreUndoesTest(origin.value, test, tracee.implemented);
      var submitted := tracee.SetHwDebug(tid, test);
      if !submitted {
        var _ := tracee.SetHwDebug(tid, origin.value);
        assert tracee.debug == old(tracee.debug);
        return false, false;
      }
      ok, polluted := VerifyAndRestore(tid, origin.value);
    }

    // The second half of the probe, with the test values in place
    method VerifyAndRestore(tid: int, origin: HwDebug) returns (ok: bool, ghost polluted: bool)
      requires tracee.Valid() && SaneHwDebug(origin, tracee.implemented)
      requires tid in tracee.debug && tracee.debug[tid] == Accepted(origin, TestSet(origin), tracee.implemented)
      requires tid in registerCounts && registerCounts[tid] == 0
      modifies this`registerCounts, this`freeRegisters, tracee`debug, tracee`faults
      ensures tracee.Valid()
      ensures tid in registerCounts && registerCounts[tid] in {0, tracee.implemented}
      ensures registerCounts == old(registerCounts)[tid := registerCounts[tid]]
      ensures tracee.debug == if polluted then old(tracee.debug) else old(tracee.debug)[tid := origin]
      ensures ok ==> tid >= 1 && !polluted && registerCounts[tid] == tracee.implemented
      ensures freeRegisters == if ok && registerCounts[tid] > 0
                               then old(AllTables()).SetFree(tid, old(AllTables()).FreeOf(tid)
                                                                  + Upto(registerCounts[tid])).freeRegisters
                               else old(freeRegisters)
      ensures tracee.faults >= old(tracee.faults) && (!ok ==> tracee.faults > old(tracee.faults))
    {
      RestoreUndoesTest(origin, TestSet(origin), tracee.implemented);
      var verify := tracee.GetHwDebug(tid);
      if verify.None? {
        var restored := tracee.SetHwDebug(tid, origin);
        return false, !restored;
      }
      CountVerified(tid, verify.value);
      var restored := tracee.SetHwDebug(tid, origin);
      if !restored { return false, true; }
      FillPool(tid);
      return true, false;
    }

    method TestValues(origin: HwDebug) returns (test: HwDebug)
      requires |origin.slots| == DEBUG_SLOTS
      ensures test == TestSet(origin)
    {
      test := origin;
      for index := 0 to DEBUG_SLOTS
        invariant |test.slots| == DEBUG_SLOTS && test.info == origin.info
        invariant forall i :: 0 <= i < index ==> test.slots[i] == TEST_SLOT
      {
        test := test.(slots := test.slots[index := TEST_SLOT]);
      }
    }

    method CountVerified(tid: int, verify: HwDebug)
      requires tracee.implemented <= DEBUG_SLOTS && |verify.slots| == DEBUG_SLOTS
      requires forall i :: 0 <= i < DEBUG_SLOTS ==>
                 verify.slots[i] == if i < tracee.implemented then TEST_SLOT else DebugSlot(0, 0)
      requires tid in registerCounts && registerCounts[tid] == 0
      modifies this`registerCounts
      ensures registerCounts == old(registerCounts)[tid := tracee.implemented]
    {
      for index := 0 to DEBUG_SLOTS
        invariant registerCounts == old(registerCounts)[tid := Min(index, tracee.implemented)]
      {
        if verify.slots[index] == TEST_SLOT {
          registerCounts := registerCounts[tid := registerCounts[tid] + 1];
        }
      }
    }

    method FillPool(tid: int)
      requires tid in registerCounts
      modifies this`freeRegisters
      ensures var n, t := registerCounts[tid], old(AllTables());
              AllTables() == if n > 0 then t.SetFree(tid, t.FreeOf(tid) + Upto(n)) else t
    {
      for i := 0 to registerCounts[tid]
        invariant var t := old(AllTables());
                  freeRegisters == if i > 0 then t.SetFree(tid, t.FreeOf(tid) + Upto(i)).freeRegisters
                                   else t.freeRegisters
      {
        ghost var t := old(AllTables());
        assert t.FreeOf(tid) + Upto(i + 1) == (if i > 0 then t.FreeOf(tid) + Upto(i) else t.FreeOf(tid)) + {i};
        freeRegisters := freeRegisters[tid := (if tid in freeRegisters then freeRegisters[tid] else {}) + {i}];
      }
    }

    method SetHardwareBreakpoint(tid: int, address: nat, kind: Kind) returns (result: SetResult)
      requires Valid()
      modifies this, tracee`debug, tracee`faults
      ensures Valid() && Recorded(old(events), events) && pristine == old(pristine) && fellBack == old(fellBack)
      ensures var e := events[|old(events)|];
              && e.SetHardware? && e.tid == tid && e.address == address && e.kind == kind && e.result == result
              && Step(old(Now()), e, Now())
      ensures result.Refused? ==>
                || old(AllTables()).Duplicate(address) || old(AllTables()).FreeOf(tid) == {} || kind.Software?
                || tracee.faults > old(tracee.faults)
      // in plain terms
      ensures result.Threw? <==> address % 4 != 0
      ensures result.Created? ==>
                && result.id !in old(breakpoints) && !old(AllTables()).Duplicate(address) && !kind.Software?
                && result.id in breakpoints
                && var b := breakpoints[result.id];
                   && breakpoints == old(breakpoints)[result.id := b]
                   && b == Breakpoint(result.id, tid, address, kind, true, [0, 0, 0, 0], b.hardwareRegister)
                   && b.hardwareRegister in old(AllTables()).FreeOf(tid)
                   && AllTables().FreeOf(tid) == old(AllTables()).FreeOf(tid) - {b.hardwareRegister}
                   && SlotAt(tracee.debug, tid, b.hardwareRegister)
                      == DebugSlot(address, match kind
                                            case HardwareExecution => 65
                                            case HardwareWrite => 67
                                            case _ => 69)
                   && OnlySlot(old(tracee.debug), tracee.debug, tid, b.hardwareRegister)
      ensures !result.Created? ==> breakpoints == old(breakpoints) && tracee.debug == old(tracee.debug)
      ensures !result.Created? && !kind.Software? ==> AllTables().FreeOf(tid) == old(AllTables()).FreeOf(tid)
    {
      SoundNow();
      ghost var reg := 0;
      if address % 4 != 0 {
        result := Threw;
      } else {
        result, reg := TakeFromPool(tid, address, kind);
      }
      Record(SetHardware(tid, address, kind, result, reg));
      SettingHardware(old(Now()), SetHardware(tid, address, kind, result, reg), Now());
    }

    // set_hardware_breakpoint after its check of the alignment
    method TakeFromPool(tid: int, address: nat, kind: Kind) returns (result: SetResult, ghost taken: nat)
      requires Valid() && address % 4 == 0
      modifies this`breakpoints, this`threads, this`addresses, this`nextId, this`freeRegisters, this`registerCounts
      modifies tracee`debug, tracee`faults
      ensures tracee.Valid()
      ensures SetHardwareStep(old(Now()), SetHardware(tid, address, kind, result, taken), Now())
      ensures result.Refused? ==>
                || old(AllTables()).Duplicate(address) || old(AllTables()).FreeOf(tid) == {} || kind.Software?
                || tracee.faults > old(tracee.faults)
    {
      var duplicate := CheckDuplicateBreakpoint(address);
      if duplicate { return Refused, 0; }
      if tid !in freeRegisters || freeRegisters[tid] == {} {
        freeRegisters := freeRegisters[tid := {}];
        return Refused, 0;
      }
      var probed := ProbeAgain(tid);
      if !probed { assert false; }
      HasRegister(freeRegisters[tid]);
      var reg: nat :| reg in freeRegisters[tid];
      taken := reg;
      result := ClaimRegister(tid, address, kind, reg);
    }

    // A pool that is not empty belongs to a thread that has been probed: probing it again does nothing
    method ProbeAgain(tid: int) returns (ok: bool)
      requires Valid() && tid in freeRegisters && freeRegisters[tid] != {}
      modifies this`registerCounts, this`freeRegisters, tracee`debug, tracee`faults
      ensures ok && Now() == old(Now()) && Valid() && tracee.faults == old(tracee.faults)
      ensures forall r :: r in freeRegisters[tid] ==> r < DEBUG_SLOTS
    {
      ReachablePool(states, events, tid);
      HasRegister(freeRegisters[tid]);
      assert AllTables().FreeOf(tid) == freeRegisters[tid];
      assert tid in registerCounts;
      ghost var polluted;
      ok, polluted := ProbeRegisters(tid);
    }

    // The rest of set_hardware_breakpoint, once there is a register to use
    method ClaimRegister(tid: int, address: nat, kind: Kind, reg: nat) returns (result: SetResult)
      requires tracee.Valid() && address % 4 == 0 && reg < DEBUG_SLOTS
      requires !AllTables().Duplicate(address) && tid in freeRegisters && reg in freeRegisters[tid]
      modifies this`breakpoints, this`threads, this`addresses, this`nextId, this`freeRegisters
      modifies tracee`debug, tracee`faults
      ensures tracee.Valid()
      ensures SetHardwareStep(old(Now()), SetHardware(tid, address, kind, result, reg), Now())
      ensures result.Refused? ==> kind.Software? || tracee.faults > old(tracee.faults)
    {
      freeRegisters := freeRegisters[tid := freeRegisters[tid] - {reg}];
      ghost var fewer := AllTables();
      assert fewer == old(AllTables()).SetFree(tid, old(AllTables()).FreeOf(tid) - {reg});
      var control := ENABLE | EL0;
      match kind {
        case HardwareExecution => control := control | 0;
        case HardwareWrite => control := control | TYPE_WRITE;
        case HardwareReadWrite => control := control | TYPE_READWRITE;
        case Software => return Refused;
      }
      var ok := SetDbg(tracee, tid, reg, DebugSlot(address, control));
      if !ok {
        freeRegisters := freeRegisters[tid := freeRegisters[tid] + {reg}];
        assert freeRegisters[tid] == old(freeRegisters)[tid];
        assert freeRegisters == old(freeRegisters);
        return Refused;
      }
      var id := NewBreakpoint(tid, address, kind, NO_INSTRUCTION);
      breakpoints := breakpoints[id := breakpoints[id].(hardwareRegister := reg)];
      assert breakpoints == fewer.breakpoints[id := Breakpoint(id, tid, address, kind, true, NO_INSTRUCTION, reg)];
      result := Created(id);
    }

    method RemoveBreakpoint(id: int) returns (ok: bool)
      requires Valid()
      modifies this, tracee`memory, tracee`debug, tracee`faults
      ensures Valid() && Recorded(old(events), events) && pristine == old(pristine) && FellBackOnFault()
      ensures var e := events[|old(events)|];
              && e.Remove? && e.id == id && e.ok == ok && Step(old(Now()), e, Now())
              && (!e.cleared ==> tracee.faults > old(tracee.faults))
              && (tracee.faults == old(tracee.faults) ==> Whole(e))
      ensures !ok ==> id !in old(breakpoints) || tracee.faults > old(tracee.faults)
      ensures tracee.faults >= old(tracee.faults)
      // in plain terms
      ensures ok ==> id in old(breakpoints) && breakpoints == old(breakpoints) - {id}
      ensures !ok ==> breakpoints == old(breakpoints)
      ensures ok && (tracee.faults == old(tracee.faults) || (byValue && old(breakpoints)[id].kind.Software?)) ==>
                Suspended(old(breakpoints)[id], tracee.memory, tracee.debug)
      ensures ok && !old(breakpoints)[id].kind.Software? ==>
                var b := old(breakpoints)[id];
                AllTables().FreeOf(b.tid) == old(AllTables()).FreeOf(b.tid) + {b.hardwareRegister}
      ensures id in old(breakpoints) && tracee.faults == old(tracee.faults) ==>
                OnlyAt(old(breakpoints)[id], old(Now()), Now())
    {
      SoundNow();
      ReachableEntry(states, events, id);
      ghost var residue, cleared := Exact, true;
      if id !in breakpoints {
        ok := false;
      } else {
        ok, residue, cleared := UndoAndForget(breakpoints[id]);
      }
      Record(Remove(id, ok, residue, cleared));
      Removing(old(Now()), Remove(id, ok, residue, cleared), Now());
    }

    // remove_breakpoint once the breakpoint is found
    method UndoAndForget(b: Breakpoint) returns (ok: bool, ghost residue: Residue, ghost cleared: bool)
      requires tracee.Valid() && b.id in breakpoints && breakpoints[b.id] == b && |b.original| == 4
      requires !b.kind.Software? ==> b.hardwareRegister < DEBUG_SLOTS
      modifies this`breakpoints, this`threads, this`freeRegisters, this`fellBack
      modifies tracee`memory, tracee`debug, tracee`faults
      ensures tracee.Valid() && ResidueOk(residue) && FellBackOnFault()
      ensures tracee.faults == old(tracee.faults) ==> residue.Exact?
      ensures RemoveStep(old(Now()), Remove(b.id, ok, residue, cleared), Now())
      ensures !ok || !cleared ==> tracee.faults > old(tracee.faults)
      ensures tracee.faults >= old(tracee.faults)
    {
      residue, cleared := Exact, true;
      if b.kind.Software? {
        ok, residue := PatchMemory(b.tid, b.address, b.original);
        if !ok { return false, residue, true; }
      } else if b.hardwareRegister != NO_REGISTER {
        cleared := SwitchRegister(b.tid, b.hardwareRegister, false);
        freeRegisters := freeRegisters[b.tid := (if b.tid in freeRegisters then freeRegisters[b.tid] else {})
                                                + {b.hardwareRegister}];
      }
      Forget(b);
      ok := true;
    }

    // The bookkeeping at the end of a removal
    method Forget(b: Breakpoint)
      requires b.id in breakpoints && breakpoints[b.id] == b
      modifies this`threads, this`breakpoints
      ensures AllTables() == old(AllTables()).Forget(b.id)
    {
      var rest := (if b.tid in threads then threads[b.tid] else {}) - {b.id};
      threads := threads[b.tid := rest];
      if rest == {} { threads := threads - {b.tid}; }
      breakpoints := breakpoints - {b.id};
      assert threads == old(AllTables()).Forget(b.id).threads;
    }

    // get_dbg, change of the enable bit, set_dbg
    method SwitchRegister(tid: int, reg: nat, on: bool) returns (ok: bool)
      requires tracee.Valid() && reg < DEBUG_SLOTS
      modifies tracee`debug, tracee`faults
      ensures tracee.Valid()
      ensures ok ==> tid in old(tracee.debug) && reg < |old(tracee.debug)[tid].slots|
                     && DebugWritten(old(Now()), tid, reg, SetEnable(old(tracee.debug)[tid].slots[reg], on),
                                     tracee.debug)
      ensures !ok ==> tracee.debug == old(tracee.debug) && tracee.faults > old(tracee.faults)
      ensures tracee.faults >= old(tracee.faults)
    {
      var slot := GetDbg(tracee, tid, reg);
      if slot.None? { return false; }
      ok := SetDbg(tracee, tid, reg, SetEnable(slot.value, on));
    }

    // What enabling and disabling have in common: the patch or the register write, and then the flag
    method Switch(b: Breakpoint, on: bool) returns (ok: bool, ghost residue: Residue)
      requires tracee.Valid() && b.id in breakpoints && breakpoints[b.id] == b && |b.original| == 4 && b.enabled != on
      requires !b.kind.Software? ==> b.hardwareRegister < DEBUG_SLOTS
      modifies this`breakpoints, this`fellBack, tracee`memory, tracee`debug, tracee`faults
      ensures tracee.Valid() && ResidueOk(residue) && FellBackOnFault()
      ensures SwitchStep(old(Now()), b.id, on, ok, residue, Now())
      ensures tracee.faults == old(tracee.faults) ==> residue.Exact?
      ensures tracee.faults >= old(tracee.faults) && (!ok ==> tracee.faults > old(tracee.faults))
    {
      residue := Exact;
      if b.kind.Software? {
        ok, residue := PatchMemory(b.tid, b.address, if on then BRK else b.original);
      } else if b.hardwareRegister != NO_REGISTER {
        ok := SwitchRegister(b.tid, b.hardwareRegister, on);
      }
      if ok {
        breakpoints := breakpoints[b.id := b.(enabled := on)];
      }
    }

    /** What a switch means for the entry and the tracee. */
    lemma SwitchLaw(before: State, id: int, on: bool, ok: bool, residue: Residue)
      requires Valid() && Sound(before) && SwitchStep(before, id, on, ok, residue, Now())
      requires before.implemented == tracee.implemented
      ensures ok ==> id in before.tables.breakpoints
                     && breakpoints == before.tables.breakpoints[id := before.tables.breakpoints[id].(enabled := on)]
      ensures !ok ==> breakpoints == before.tables.breakpoints
      ensures ok && (|| !fellBack || !breakpoints[id].kind.Software?
                     || (residue.Exact? && before.tables.breakpoints[id].enabled != on)) ==>
                if on then InForce(breakpoints[id], tracee.memory, tracee.debug)
                else Suspended(breakpoints[id], tracee.memory, tracee.debug)
      ensures id in before.tables.breakpoints && residue.Exact? ==> OnlyAt(before.tables.breakpoints[id], before, Now())
    {
      SoundNow();
      OverlayNow();
      SwitchMeans(before, id, on, ok, residue, Now(), !fellBack);
    }

    method EnableBreakpoint(id: int) returns (ok: bool)
      requires Valid()
      modifies this, tracee`memory, tracee`debug, tracee`faults
      ensures Valid() && Recorded(old(events), events) && pristine == old(pristine) && FellBackOnFault()
      ensures var e := events[|old(events)|];
              && e.Enable? && e.id == id && e.ok == ok && Step(old(Now()), e, Now())
              && (tracee.faults == old(tracee.faults) ==> Whole(e))
      ensures !ok ==> id !in old(breakpoints) || tracee.faults > old(tracee.faults)
      ensures tracee.faults >= old(tracee.faults)
      // in plain terms
      ensures ok ==> id in old(breakpoints)
                     && breakpoints == old(breakpoints)[id := old(breakpoints)[id].(enabled := true)]
      ensures !ok ==> breakpoints == old(breakpoints)
      ensures ok && (|| !fellBack || !breakpoints[id].kind.Software?
                     || (tracee.faults == old(tracee.faults) && !old(breakpoints)[id].enabled)) ==>
                InForce(breakpoints[id], tracee.memory, tracee.debug)
      ensures id in old(breakpoints) && tracee.faults == old(tracee.faults) ==>
                OnlyAt(old(breakpoints)[id], old(Now()), Now())
    {
      SoundNow();
      ghost var before := Now();
      ReachableEntry(states, events, id);
      ghost var residue := Exact;
      if id !in breakpoints {
        ok := false;
      } else if breakpoints[id].enabled {
        ok := true;
      } else {
        ok, residue := Switch(breakpoints[id], true);
      }
      Record(Enable(id, ok, residue));
      SwitchLaw(before, id, true, ok, residue);
    }

    method DisableBreakpoint(id: int) returns (ok: bool)
      requires Valid()
      modifies this, tracee`memory, tracee`debug, tracee`faults
      ensures Valid() && Recorded(old(events), events) && pristine == old(pristine) && FellBackOnFault()
      ensures var e := events[|old(events)|];
              && e.Disable? && e.id == id && e.ok == ok && Step(old(Now()), e, Now())
              && (tracee.faults == old(tracee.faults) ==> Whole(e))
      ensures !ok ==> id !in old(breakpoints) || tracee.faults > old(tracee.faults)
      ensures tracee.faults >= old(tracee.faults)
      // in plain terms
      ensures ok ==> id in old(breakpoints)
                     && breakpoints == old(breakpoints)[id := old(breakpoints)[id].(enabled := false)]
      ensures !ok ==> breakpoints == old(breakpoints)
      ensures ok && (|| !fellBack || !breakpoints[id].kind.Software?
                     || (tracee.faults == old(tracee.faults) && old(breakpoints)[id].enabled)) ==>
                Suspended(breakpoints[id], tracee.memory, tracee.debug)
      ensures id in old(breakpoints) && tracee.faults == old(tracee.faults) ==>
                OnlyAt(old(breakpoints)[id], old(Now()), Now())
    {
      SoundNow();
      ghost var before := Now();
      ReachableEntry(states, events, id);
      ghost var residue := Exact;
      if id !in breakpoints {
        ok := false;
      } else if !breakpoints[id].enabled {
        ok := true;
      } else {
        ok, residue := Switch(breakpoints[id], false);
      }
      Record(Disable(id, ok, residue));
      SwitchLaw(before, id, false, ok, residue);
    }
  }
}
