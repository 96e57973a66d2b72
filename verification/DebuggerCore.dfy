/**
 The debugger session: which process and threads it is attached to, breakpoints by type code, and stepping
 over an instruction with a temporary breakpoint.
 */
module DebuggerCore {
  import opened Tracees
  import opened RegisterControl
  import MemoryControl
  import opened BreakpointModel
  import opened BreakpointTables
  import opened BreakpointRuns
  import opened BreakpointEffects
  import opened BreakpointManagers
  import AppLaunch = Launch

  // ---------- what the kernel tells about threads ----------

  /** How one thread of the target fared: found stopped under trace already, or attached and waited for;
      and whether its ptrace options could be set. */
  datatype ThreadOutcome = ThreadOutcome(tid: int, tracingStop: bool, attached: bool, waited: bool, optionsSet: bool)
  {
    predicate Joined() { (tracingStop || (attached && waited)) && optionsSet }
  }

  function JoinedTids(threads: seq<ThreadOutcome>): seq<int> {
    if threads == [] then []
    else
      var rest := JoinedTids(threads[..|threads| - 1]);
      var last := threads[|threads| - 1];
      if last.Joined() then rest + [last.tid] else rest
  }

  /** A thread is recorded exactly when some listing of it could be joined. */
  lemma {:induction false} JoinedTidsAre(threads: seq<ThreadOutcome>, tid: int)
    ensures tid in JoinedTids(threads)
            <==> exists o :: o in threads && o.tid == tid
                             && (o.tracingStop || (o.attached && o.waited)) && o.optionsSet
  {
    if threads != [] {
      var init, last := threads[..|threads| - 1], threads[|threads| - 1];
      JoinedTidsAre(init, tid);
      assert threads == init + [last];
      assert forall o :: o in threads <==> o in init || o == last;
    }
  }

  /** The package of an activity: what precedes the first slash, or all of it. */
  ghost predicate IsPackage(package: string, activity: string) {
    package <= activity && '/' !in package && (package == activity || activity[|package|] == '/')
  }

  function PackageOf(activity: string): (package: string)
    ensures IsPackage(package, activity)
  {
    if activity == [] || activity[0] == '/' then [] else [activity[0]] + PackageOf(activity[1..])
  }

  /** Threads are recorded in the order in which they are listed. */
  lemma {:induction false} JoinedInOrder(a: seq<ThreadOutcome>, b: seq<ThreadOutcome>)
    ensures JoinedTids(a + b) == JoinedTids(a) + JoinedTids(b)
  {
    if b == [] {
      assert a + b == a;
    } else {
      var init, last := b[..|b| - 1], b[|b| - 1];
      JoinedInOrder(a, init);
      assert (a + b)[..|a + b| - 1] == a + init && (a + b)[|a + b| - 1] == last;
    }
  }

  function Filter(tids: seq<int>, p: int -> bool): (r: seq<int>)
    ensures forall tid :: tid in r <==> tid in tids && p(tid)
  {
    if tids == [] then []
    else
      var init, last := tids[..|tids| - 1], tids[|tids| - 1];
      assert tids == init + [last];
      Filter(init, p) + if p(last) then [last] else []
  }

  lemma OnePackage(p: string, q: string, activity: string)
    requires IsPackage(p, activity) && IsPackage(q, activity)
    ensures p == q
  {
    assert forall i :: 0 <= i < |p| ==> p[i] == activity[i] && p[i] != '/';
    assert forall i :: 0 <= i < |q| ==> q[i] == activity[i] && q[i] != '/';
  }

  lemma Reassociated(a: seq<int>, b: seq<int>, c: seq<int>)
    ensures a + (b + c) == a + b + c
  {
  }

  lemma FilterLast(tids: seq<int>, tid: int, p: int -> bool)
    ensures Filter(tids + [tid], p) == Filter(tids, p) + if p(tid) then [tid] else []
  {
    assert (tids + [tid])[..|tids|] == tids;
  }

  /** The order is kept, and a thread is taken as often as it is listed. */
  lemma {:induction false} FilteredInOrder(a: seq<int>, b: seq<int>, p: int -> bool)
    ensures Filter(a + b, p) == Filter(a, p) + Filter(b, p)
    decreases |b|
  {
    if b == [] {
      assert a + b == a;
    } else {
      var init, last := b[..|b| - 1], b[|b| - 1];
      FilteredInOrder(a, init, p);
      FilterLast(init, last, p);
      FilterLast(a + init, last, p);
      assert b == init + [last];
      Reassociated(a, init, [last]);
      Reassociated(Filter(a, p), Filter(init, p), if p(last) then [last] else []);
    }
  }

  lemma FilterOneMore(tids: seq<int>, i: nat, p: int -> bool)
    requires i < |tids|
    ensures Filter(tids[..i + 1], p) == if p(tids[i]) then Filter(tids[..i], p) + [tids[i]] else Filter(tids[..i], p)
  {
    assert tids[..i + 1][..i] == tids[..i];
  }

  /** The threads that PTRACE_CONT was asked for since `before`. */
  ghost predicate SentOn(before: seq<(int, bool)>, after: seq<(int, bool)>, tids: seq<int>) {
    && before <= after && |after| == |before| + |tids|
    && forall i :: 0 <= i < |tids| ==> after[|before| + i].0 == tids[i]
  }

  ghost predicate AllSentOn(before: seq<(int, bool)>, after: seq<(int, bool)>) {
    forall i :: |before| <= i < |after| ==> after[i].1
  }

  lemma OneMoreSentOn(before: seq<(int, bool)>, middle: seq<(int, bool)>, tids: seq<int>, tid: int)
    requires SentOn(before, middle, tids)
    ensures forall ok :: SentOn(before, middle + [(tid, ok)], tids + [tid])
    ensures forall ok :: AllSentOn(before, middle + [(tid, ok)]) <==> AllSentOn(before, middle) && ok
  {
    forall ok ensures AllSentOn(before, middle + [(tid, ok)]) <==> AllSentOn(before, middle) && ok {
      var after := middle + [(tid, ok)];
      assert after[|middle|] == (tid, ok);
      if AllSentOn(before, after) {
        forall i | |before| <= i < |middle| ensures middle[i].1 { assert after[i] == middle[i]; }
      }
    }
  }

  ghost predicate SessionOk(pid: int, tids: seq<int>, currentTid: int) {
    if pid == -1 then tids == [] else pid in tids && currentTid in tids
  }

  // ---------- set_breakpoint ----------

  function KindOf(code: int): Option<Kind> {
    match code
    case 1 => Some(Software)
    case 2 => Some(HardwareExecution)
    case 3 => Some(HardwareWrite)
    case 4 => Some(HardwareReadWrite)
    case _ => None
  }

  datatype StepOutcome = PcUnreadable | NextUnreadable | NotSet | SetThrew | NotRemoved | NotStopped | Done

  /** Removing what was just added leaves the tables as they were, except for the id and the stale entry. */
  lemma ForgetUndoesRegister(t: Tables, b: Breakpoint, implemented: nat)
    requires TablesOk(t, implemented) && b.id == t.nextId
    ensures b.id in t.Register(b).breakpoints
    ensures t.Register(b).Forget(b.id) == t.(addresses := t.addresses[b.address := b.id], nextId := b.id + 1)
  {
    assert b.id !in t.breakpoints && b.id !in t.ThreadIds(b.tid);
    var t' := t.Register(b).Forget(b.id);
    assert t'.breakpoints == t.breakpoints;
    assert t.ThreadIds(b.tid) + {b.id} - {b.id} == t.ThreadIds(b.tid);
    assert t'.threads == t.threads;
  }

  function WordAt(at: nat): set<nat> { {at, at + 1, at + 2, at + 3} }

  /** Every byte under a breakpoint of `t`, and the word at `at`, is the same in both memories. */
  ghost predicate SameCode(t: Tables, at: nat, m: seq<byte>, m': seq<byte>) {
    && |m'| == |m|
    && forall i :: 0 <= i < |m| && (UnderBreakpoint(t, i) || at <= i < at + 4) ==> m'[i] == m[i]
  }

  /** The tables after a temporary breakpoint has come and gone: one id is used up, and its address entry stays. */
  ghost function Stepped(t: Tables, next: nat): Tables {
    t.(addresses := t.addresses[next := t.nextId], nextId := t.nextId + 1)
  }

  /** The tracee ran, and then removal of a breakpoint was tried; `whole` tells that its write was not cut short or
      garbled. */
  ghost predicate RanThenRemoved(s: State, id: int, ok: bool, whole: bool, s': State) {
    exists ran: Event, s2: State, removal: Event {:trigger Step(s, ran, s2), Step(s2, removal, s')} ::
      && ran.Ran? && Step(s, ran, s2)
      && removal.Remove? && removal.id == id && removal.ok == ok && Step(s2, removal, s')
      && (whole ==> Whole(removal))
  }

  lemma LessKnownOfRemoval(s: State, id: int, ok: bool, whole: bool, less: bool, s': State)
    requires RanThenRemoved(s, id, ok, whole, s') && (less ==> whole)
    ensures RanThenRemoved(s, id, ok, less, s')
  {
    var ran: Event, s2: State, removal: Event :|
      && ran.Ran? && Step(s, ran, s2)
      && removal.Remove? && removal.id == id && removal.ok == ok && Step(s2, removal, s')
      && (whole ==> Whole(removal));
    assert Step(s, ran, s2) && Step(s2, removal, s');
  }

  lemma FailedRemovalKeepsTables(s: State, id: int, whole: bool, s': State)
    requires RanThenRemoved(s, id, false, whole, s') && id in s.tables.breakpoints
    ensures s'.tables == s.tables
  {
  }

  /** A byte of code while a temporary breakpoint is set, the tracee runs and the old word is restored. */
  lemma ByteIsUndone(t: Tables, b: Breakpoint, m0: seq<byte>, m1: seq<byte>, m2: seq<byte>, m3: seq<byte>, i: nat)
    requires b.id !in t.breakpoints && Mapped(m0, b.address, 4) && b.original == Slice(m0, b.address, 4)
    requires |m2| == |m0| && m1 == Splice(m0, b.address, BRK) && m3 == Splice(m2, b.address, b.original)
    requires i < |m0| && UnderBreakpoint(t.Register(b), i) ==> m2[i] == m1[i]
    requires i < |m0| && (UnderBreakpoint(t, i) || b.address <= i < b.address + 4)
    ensures m3[i] == m0[i]
  {
    if b.address <= i < b.address + 4 {
      assert b.original[i - b.address] == m0[i];
    } else {
      StillUnderBreakpoint(t, b, i);
    }
  }

  /** What a run and a removal do to a software breakpoint, with the memory in between. */
  lemma RunAndRemovalOf(s1: State, id: int, whole: bool, s3: State) returns (m2: seq<byte>)
    requires RanThenRemoved(s1, id, true, whole, s3)
    requires id in s1.tables.breakpoints && s1.tables.breakpoints[id].kind.Software?
    ensures s3.tables == s1.tables.Forget(id) && s3.debug == s1.debug && |m2| == |s1.memory|
    ensures forall i :: 0 <= i < |m2| && UnderBreakpoint(s1.tables, i) ==> m2[i] == s1.memory[i]
    ensures var b := s1.tables.breakpoints[id];
            |b.original| == 4
            && (whole ==> Mapped(m2, b.address, 4) && s3.memory == Splice(m2, b.address, b.original))
  {
    var ran: Event, s2: State, removal: Event :|
      && ran.Ran? && Step(s1, ran, s2)
      && removal.Remove? && removal.id == id && removal.ok && Step(s2, removal, s3)
      && (whole ==> Whole(removal));
    m2 := s2.memory;
  }

  /** Setting a breakpoint, letting the tracee run and removing the breakpoint again restores the tables, and the code
      too if both patches were whole. */
  lemma TemporaryBreakpointIsUndone(s0: State, setting: Event, s1: State, whole: bool, s3: State)
    requires TablesOk(s0.tables, s0.implemented)
    requires setting.SetSoftware? && setting.result.Created? && Step(s0, setting, s1) && (whole ==> Whole(setting))
    requires RanThenRemoved(s1, setting.result.id, true, whole, s3)
    ensures s3.tables == Stepped(s0.tables, setting.address) && s3.debug == s0.debug
    ensures whole ==> SameCode(s0.tables, setting.address, s0.memory, s3.memory)
  {
    var at, id, t := setting.address, setting.result.id, s0.tables;
    var b := Temporary(s0, setting.tid, at);
    assert s1.tables == t.Register(b);
    ForgetUndoesRegister(t, b, s0.implemented);
    assert s1.tables.breakpoints[id] == b;
    var m2 := RunAndRemovalOf(s1, id, whole, s3);
    if whole {
      forall i | 0 <= i < |s0.memory| && (UnderBreakpoint(t, i) || at <= i < at + 4)
        ensures s3.memory[i] == s0.memory[i]
      {
        ByteIsUndone(t, b, s0.memory, s1.memory, m2, s3.memory, i);
      }
    }
  }

  lemma StillUnderBreakpoint(t: Tables, b: Breakpoint, i: nat)
    requires b.id !in t.breakpoints && UnderBreakpoint(t, i)
    ensures UnderBreakpoint(t.Register(b), i)
  {
    var id :| id in t.breakpoints && t.breakpoints[id].kind.Software?
              && t.breakpoints[id].address <= i < t.breakpoints[id].address + 4;
    assert id in t.Register(b).breakpoints && t.Register(b).breakpoints[id] == t.breakpoints[id];
  }

  /** The temporary breakpoint of a step. */
  ghost function Temporary(s: State, tid: int, next: nat): Breakpoint {
    Breakpoint(s.tables.nextId, tid, next, Software, true,
               if Mapped(s.memory, next, 4) then Slice(s.memory, next, 4) else [], NO_REGISTER)
  }

  /** The debugger asks the manager for hardware breakpoints by a hardware type only, and never for a probe. */
  predicate Issued(e: Event) { Dispatched(e) && !e.Probe? }

  ghost predicate AllIssued(events: seq<Event>) { forall i :: 0 <= i < |events| ==> Issued(events[i]) }

  lemma StillIssued(before: seq<Event>, after: seq<Event>)
    requires AllIssued(before) && Recorded(before, after) && Issued(after[|before|])
    ensures AllIssued(after)
  {
    forall i | 0 <= i < |after| ensures Issued(after[i]) {
      if i < |before| { assert after[i] == before[i]; }
    }
  }

  /** The thread's general register of that name holds the value. */
  ghost predicate Holds(registers: map<(int, RegisterClass), seq<nat>>, tid: int, name: string, value: nat) {
    && (tid, Gpr) in registers && RegisterNumber(Gpr, name) < |registers[(tid, Gpr)]|
    && value == registers[(tid, Gpr)][RegisterNumber(Gpr, name)]
  }

  lemma PcHolds(registers: map<(int, RegisterClass), seq<nat>>, tid: int, value: nat)
    requires (tid, Gpr) in registers && PC < |registers[(tid, Gpr)]| && value == registers[(tid, Gpr)][PC]
    ensures Holds(registers, tid, "pc", value)
  {
    PcIsNamed();
  }

  /** What is seen of the session's effects: the manager's state, and the requests and faults so far. */
  datatype View = View(now: State, continued: seq<(int, bool)>, lastWait: (int, int, bool), faults: nat)

  /** What a step depends on besides: the current thread, whether it is recorded, and how writes may go wrong. */
  datatype Circumstances = Circumstances(tid: int, recorded: bool, wholeElements: bool, byValue: bool)

  /** PTRACE_CONT was asked for once, for the thread, if that is a recorded one. */
  ghost predicate SentOnce(before: seq<(int, bool)>, after: seq<(int, bool)>, tid: int, recorded: bool) {
    if recorded then |after| == |before| + 1 && before <= after && after[|before|].0 == tid
    else after == before
  }

  /** What single stepping has done, for each of its outcomes after the next instruction was read. */
  ghost predicate StepDone(before: View, after: View, c: Circumstances, next: nat, r: StepOutcome) {
    var t, t' := before.now.tables, after.now.tables;
    && (r in {NotSet, SetThrew} ==>
          && t' == t && after.now.debug == before.now.debug && after.continued == before.continued
          && (c.wholeElements || r.SetThrew? || t.Duplicate(next) ==> after.now.memory == before.now.memory))
    && (r.SetThrew? <==> next % 4 != 0)
    && (t.Duplicate(next) && next % 4 == 0 ==> r.NotSet?)
    && (r in {NotSet, NotRemoved} ==> t.Duplicate(next) || after.faults > before.faults)
    && (r.Done? ==> after.lastWait == (c.tid, c.tid, true))
    && (r.NotStopped? ==> after.lastWait.0 == c.tid && after.lastWait != (c.tid, c.tid, true))
    && (r !in {NotSet, SetThrew} ==> SentOnce(before.continued, after.continued, c.tid, c.recorded))
    && (r.NotRemoved? ==> t' == t.Register(Temporary(before.now, c.tid, next)))
    && (r in {NotStopped, Done} ==>
          && t' == Stepped(t, next) && after.now.debug == before.now.debug
          && (c.byValue || after.faults == before.faults ==>
                SameCode(t, next, before.now.memory, after.now.memory)))
  }

  lemma SettingFailed(before: View, e: Event, after: View, c: Circumstances, next: nat, r: StepOutcome)
    requires TablesOk(before.now.tables, before.now.implemented)
    requires e.SetSoftware? && e.address == next && Step(before.now, e, after.now)
    requires after.continued == before.continued
    requires (r.SetThrew? && e.result.Threw?) || (r.NotSet? && e.result.Refused?)
    requires r.NotSet? ==> before.now.tables.Duplicate(next) || after.faults > before.faults
    requires c.wholeElements ==> Untorn(e)
    ensures StepDone(before, after, c, next, r)
  {
  }

  lemma RemovalFailed(before: View, e: Event, s1: State, whole: bool, after: View, c: Circumstances, next: nat)
    requires TablesOk(before.now.tables, before.now.implemented)
    requires e.SetSoftware? && e.address == next && e.tid == c.tid && e.result.Created? && Step(before.now, e, s1)
    requires RanThenRemoved(s1, e.result.id, false, whole, after.now) && after.faults > before.faults
    requires SentOnce(before.continued, after.continued, c.tid, c.recorded)
    ensures StepDone(before, after, c, next, NotRemoved)
  {
    assert s1.tables == before.now.tables.Register(Temporary(before.now, c.tid, next));
    FailedRemovalKeepsTables(s1, e.result.id, whole, after.now);
  }

  lemma StepCompleted(before: View, e: Event, s1: State, whole: bool, after: View, c: Circumstances, next: nat,
                      r: StepOutcome)
    requires TablesOk(before.now.tables, before.now.implemented)
    requires e.SetSoftware? && e.address == next && e.result.Created? && Step(before.now, e, s1)
    requires RanThenRemoved(s1, e.result.id, true, whole, after.now) && (whole ==> Whole(e))
    requires c.byValue || after.faults == before.faults ==> whole
    requires SentOnce(before.continued, after.continued, c.tid, c.recorded)
    requires after.lastWait.0 == c.tid && r == if after.lastWait == (c.tid, c.tid, true) then Done else NotStopped
    ensures StepDone(before, after, c, next, r)
  {
    TemporaryBreakpointIsUndone(before.now, e, s1, whole, after.now);
  }

  /** Faults that precede it do not change what is said of a step. */
  lemma StepDoneSince(before: View, middle: View, after: View, c: Circumstances, next: nat, r: StepOutcome)
    requires middle == before.(faults := middle.faults) && before.faults <= middle.faults <= after.faults
    requires StepDone(middle, after, c, next, r)
    ensures StepDone(before, after, c, next, r)
  {
  }

  /** The `n`-th operation sets a software breakpoint on the thread at the address. */
  ghost predicate SetAt(events: seq<Event>, n: nat, tid: int, address: nat) {
    n < |events| && events[n].SetSoftware? && events[n].tid == tid && events[n].address == address
  }

  lemma SetAtStays(before: seq<Event>, after: seq<Event>, n: nat, tid: int, address: nat)
    requires SetAt(before, n, tid, address) && before <= after
    ensures SetAt(after, n, tid, address)
  {
  }

  lemma RecordedTwice(a: seq<Event>, b: seq<Event>, c: seq<Event>)
    requires Recorded(a, b) && Recorded(b, c)
    ensures a <= c
  {
    assert c[..|a|] == b[..|a|];
  }

  class DebuggerCore {
    const tracee: Tracee
    const manager: BreakpointManager

    var pid: int
    var tids: seq<int>
    var currentTid: int

    ghost predicate Valid()
      reads this, manager, tracee
    {
      manager.tracee == tracee && manager.Valid() && AllIssued(manager.events) && SessionOk(pid, tids, currentTid)
    }

    constructor (tracee: Tracee, byValue: bool)
      requires tracee.Valid()
      ensures Valid() && fresh(this) && fresh(manager) && this.tracee == tracee && pid == -1
      ensures manager.byValue == byValue
    {
      this.tracee := tracee;
      manager := new BreakpointManager(tracee, byValue);
      pid, tids, currentTid := -1, [], -1;
    }

    /** Nobody probes a thread through the debugger. So no thread has a debug register to give, free or held, only
        software breakpoints live, and the debug registers are as they were before the debugger came. */
    lemma OnlySoftwareBreakpoints()
      requires Valid()
      ensures NoHardware(manager.states[0], manager.Now())
      ensures forall tid :: manager.AllTables().Owned(tid) == {}
    {
      assert NeverProbed(manager.events) by {
        forall i | 0 <= i < |manager.events| ensures !manager.events[i].Probe? { assert Issued(manager.events[i]); }
      }
      UnprobedRunHasNoHardware(manager.states, manager.events, |manager.events|);
      InitialIsSound(manager.states[0]);
      RunIsSound(manager.states, manager.events, |manager.events|);
      forall tid ensures manager.AllTables().Owned(tid) == {} {
        HeldIsDisjoint(manager.AllTables(), tracee.implemented, tid);
      }
    }

    // ---------- threads ----------

    /** Succeeds exactly when the main thread could be joined; otherwise the recorded session stays. */
    method Attach(target: int, threads: seq<ThreadOutcome>) returns (ok: bool)
      requires Valid()
      requires forall o :: o in threads ==> o.tid > 0
      modifies this`pid, this`tids, this`currentTid
      ensures Valid()
      ensures ok <==> exists o :: o in threads && o.tid == target
                                  && (o.tracingStop || (o.attached && o.waited)) && o.optionsSet
      ensures ok ==> pid == currentTid == target && tids == JoinedTids(threads)
      ensures !ok ==> pid == old(pid) && tids == old(tids) && currentTid == old(currentTid)
    {
      if threads == [] { return false; }
      var attached: seq<int> := [];
      for i := 0 to |threads|
        invariant attached == JoinedTids(threads[..i])
      {
        var o := threads[i];
        assert threads[..i + 1][..i] == threads[..i];
        if !o.tracingStop {
          if !o.attached { continue; }
          if !o.waited { continue; }
        }
        if !o.optionsSet { continue; }
        attached := attached + [o.tid];
      }
      assert threads[..|threads|] == threads;
      JoinedTidsAre(threads, target);
      if attached == [] || target !in attached { return false; }
      pid, currentTid, tids := target, target, attached;
      return true;
    }

    /** Starts an app and attaches to it. It succeeds exactly when the app was caught and its main thread joined;
        otherwise the recorded session stays. A zygote that was attached to is let go whatever happens. */
    method Launch(activity: string, zygote: Option<int>, attached: bool, stopped: bool, optionsSet: bool, started: bool,
                  reports: seq<AppLaunch.Report>, threads: int -> seq<ThreadOutcome>)
      returns (ok: bool, log: seq<AppLaunch.Action>)
      requires Valid()
      requires zygote.Some? ==> AppLaunch.Plausible(reports, zygote.value)
      requires forall app, o :: o in threads(app) ==> o.tid > 0
      modifies this`pid, this`tids, this`currentTid
      ensures Valid()
      ensures var r := AppLaunch.LaunchOutcome(PackageOf(activity), attached, stopped, optionsSet, started, reports);
              && (ok <==> zygote.Some? && r.Found? && r.pid in JoinedTids(threads(r.pid)))
              && (ok ==> pid == currentTid == r.pid && tids == JoinedTids(threads(r.pid)))
              && (zygote.Some? && attached ==>
                    AppLaunch.Replay(log, zygote.value)
                    == Some(AppLaunch.Released(r.NoOptions? || r.NoApp? || r.Found?)))
      ensures !ok ==> pid == old(pid) && tids == old(tids) && currentTid == old(currentTid)
      ensures zygote.None? || !attached ==> log == []
      // in plain terms: the first fork of the package, with nothing before it that ends the watching
      ensures ok ==> && zygote.Some? && attached && stopped && optionsSet && started && pid > 0
                     && exists package :: IsPackage(package, activity) && AppLaunch.Caught(reports, package, pid)
      ensures forall package, app ::
                && zygote.Some? && attached && stopped && optionsSet && started && app > 0
                && IsPackage(package, activity) && AppLaunch.Caught(reports, package, app)
                && app in JoinedTids(threads(app)) ==>
                  ok && pid == app
    {
      var package := PackageOf(activity);
      forall p | IsPackage(p, activity) ensures p == package {
        OnePackage(p, package, activity);
      }
      if zygote.None? { return false, []; }
      var launcher := new AppLaunch.Launcher(zygote.value);
      var outcome := launcher.Run(package, attached, stopped, optionsSet, started, reports);
      log := launcher.log;
      ok := false;
      if outcome.Found? {
        ok := Attach(outcome.pid, threads(outcome.pid));
        JoinedTidsAre(threads(outcome.pid), outcome.pid);
      }
    }

    method SwitchThread(tid: int) returns (ok: bool)
      requires Valid()
      modifies this`currentTid
      ensures Valid()
      ensures ok <==> tid in tids
      ensures currentTid == if ok then tid else old(currentTid)
    {
      ok := tid in tids;
      if ok { currentTid := tid; }
    }

    /** Every recorded thread is asked to go once; the session stays recorded. */
    method Detach(detached: int -> bool, zombie: int -> bool) returns (ok: bool, asked: seq<int>)
      requires Valid()
      ensures ok <==> pid >= 0 && forall tid :: tid in tids ==> detached(tid) || zombie(tid)
      ensures asked == if pid < 0 then [] else tids
    {
      asked := [];
      if pid < 0 { return false, []; }
      ok := true;
      for i := 0 to |tids|
        invariant asked == tids[..i]
        invariant ok <==> forall tid :: tid in tids[..i] ==> detached(tid) || zombie(tid)
      {
        asked := asked + [tids[i]];
        assert tids[..i + 1] == tids[..i] + [tids[i]];
        assert forall tid :: tid in tids[..i + 1] <==> tid in tids[..i] || tid == tids[i];
        if !detached(tids[i]) && !zombie(tids[i]) { ok := false; }
      }
    }

    method Kill(stopped: bool, detached: int -> bool, zombie: int -> bool, killed: bool)
      returns (ok: bool, asked: seq<int>)
      requires Valid()
      modifies this`pid, this`tids
      ensures Valid()
      ensures ok <==> old(pid) >= 0 && killed
      ensures ok ==> pid == -1 && tids == []
      ensures !ok ==> pid == old(pid) && tids == old(tids)
      ensures asked == if old(pid) >= 0 && stopped then old(tids) else []
    {
      asked := [];
      if pid < 0 { return false, []; }
      if stopped {
        var detachedAll, all := Detach(detached, zombie);
        asked := all;
      }
      if !killed { return false, asked; }
      pid, tids := -1, [];
      ok := true;
    }

    method ResumeThread(tid: int) returns (ok: bool)
      requires Valid()
      modifies tracee`faults, tracee`continued
      ensures Valid()
      ensures tid in tids ==> tracee.continued == old(tracee.continued) + [(tid, ok)]
      ensures tid !in tids ==> !ok && tracee.continued == old(tracee.continued)
      ensures !ok ==> tid !in tids || tracee.faults > old(tracee.faults)
      ensures tracee.faults >= old(tracee.faults)
    {
      if tid !in tids { return false; }
      ok := tracee.Continue(tid);
    }

    /** Exactly the recorded threads found in a tracing stop are sent on, once each and in order; it succeeds exactly
        when the kernel did so for all of them. */
    method Resume(stopped: int -> bool) returns (ok: bool)
      requires Valid()
      modifies tracee`faults, tracee`continued
      ensures Valid()
      ensures SentOn(old(tracee.continued), tracee.continued, if pid > 0 then Filter(tids, stopped) else [])
      ensures ok <==> pid > 0 && AllSentOn(old(tracee.continued), tracee.continued)
      ensures !ok ==> pid <= 0 || tracee.faults > old(tracee.faults)
    {
      if pid <= 0 || tids == [] { return false; }
      ghost var before := tracee.continued;
      ok := true;
      for i := 0 to |tids|
        invariant Valid()
        invariant SentOn(before, tracee.continued, Filter(tids[..i], stopped))
        invariant ok <==> AllSentOn(before, tracee.continued)
        invariant tracee.faults >= old(tracee.faults) && (!ok ==> tracee.faults > old(tracee.faults))
      {
        FilterOneMore(tids, i, stopped);
        if stopped(tids[i]) {
          OneMoreSentOn(before, tracee.continued, Filter(tids[..i], stopped), tids[i]);
          var resumed := ResumeThread(tids[i]);
          if !resumed { ok := false; }
        }
      }
      assert tids[..|tids|] == tids;
    }

    // ---------- breakpoints ----------

    /** A type code outside the four known ones is refused before anything happens. */
    method SetBreakpoint(code: int, address: nat) returns (result: SetResult)
      requires Valid()
      modifies manager, tracee`memory, tracee`debug, tracee`faults
      ensures Valid() && manager.pristine == old(manager.pristine)
      ensures KindOf(code).None? ==> result.Refused? && manager.Now() == old(manager.Now())
                                     && manager.events == old(manager.events)
      ensures KindOf(code).Some? ==>
                && Recorded(old(manager.events), manager.events)
                && var e := manager.events[|old(manager.events)|];
                   && Step(old(manager.Now()), e, manager.Now())
                   && if KindOf(code) == Some(Software)
                      then e.SetSoftware? && e.tid == currentTid && e.address == address && e.result == result
                      else e.SetHardware? && e.tid == currentTid && e.address == address && e.result == result
                           && Some(e.kind) == KindOf(code)
      ensures result.Refused? && KindOf(code) == Some(Software) ==>
                old(manager.AllTables()).Duplicate(address) || tracee.faults > old(tracee.faults)
      // a hardware breakpoint is never set: no thread has been probed, and none is before its pool is looked at
      ensures result.Created? ==> KindOf(code) == Some(Software)
      ensures KindOf(code).Some? && KindOf(code) != Some(Software) ==>
                && (result.Threw? <==> address % 4 != 0)
                && tracee.debug == old(tracee.debug) && tracee.memory == old(tracee.memory)
                && manager.breakpoints == old(manager.breakpoints)
      // in plain terms
      ensures code !in {1, 2, 3, 4} ==> result.Refused? && manager.events == old(manager.events)
      ensures code in {2, 3, 4} ==>
                && Recorded(old(manager.events), manager.events)
                && var e := manager.events[|old(manager.events)|];
                   e.SetHardware? && e.kind == match code
                                               case 2 => HardwareExecution
                                               case 3 => HardwareWrite
                                               case _ => HardwareReadWrite
      ensures code == 1 ==> (result.Threw? <==> address % 4 != 0)
      ensures result.Created? ==>
                && code == 1 && result.id !in old(manager.breakpoints) && address + 4 <= |old(tracee.memory)|
                && manager.breakpoints == old(manager.breakpoints)[result.id :=
                     Breakpoint(result.id, currentTid, address, Software, true,
                                old(tracee.memory)[address..address + 4], 18)]
                && (manager.byValue || tracee.faults == old(tracee.faults) ==>
                      && InForce(manager.breakpoints[result.id], tracee.memory, tracee.debug)
                      && OnlyWord(old(tracee.memory), tracee.memory, address))
      ensures !result.Created? ==> manager.breakpoints == old(manager.breakpoints)
    {
      OnlySoftwareBreakpoints();
      match KindOf(code) {
        case None => result := Refused;
        case Some(kind) =>
          if kind.Software? {
            result := manager.SetSoftwareBreakpoint(currentTid, address);
          } else {
            result := manager.SetHardwareBreakpoint(currentTid, address, kind);
          }
          StillIssued(old(manager.events), manager.events);
      }
    }

    method RemoveBreakpoint(id: int) returns (ok: bool)
      requires Valid()
      modifies manager, tracee`memory, tracee`debug, tracee`faults
      ensures Valid() && Recorded(old(manager.events), manager.events) && manager.pristine == old(manager.pristine)
      ensures var e := manager.events[|old(manager.events)|];
              e.Remove? && e.id == id && e.ok == ok && Step(old(manager.Now()), e, manager.Now())
      ensures !ok ==> id !in old(manager.breakpoints) || tracee.faults > old(tracee.faults)
      ensures ok ==> id in old(manager.breakpoints) && manager.breakpoints == old(manager.breakpoints) - {id}
      ensures !ok ==> manager.breakpoints == old(manager.breakpoints)
      ensures ok && (tracee.faults == old(tracee.faults)
                     || (manager.byValue && old(manager.breakpoints)[id].kind.Software?)) ==>
                Suspended(old(manager.breakpoints)[id], tracee.memory, tracee.debug)
      ensures id in old(manager.breakpoints) && tracee.faults == old(tracee.faults) ==>
                OnlyAt(old(manager.breakpoints)[id], old(manager.Now()), manager.Now())
    {
      ok := manager.RemoveBreakpoint(id);
      StillIssued(old(manager.events), manager.events);
    }

    method EnableBreakpoint(id: int) returns (ok: bool)
      requires Valid()
      modifies manager, tracee`memory, tracee`debug, tracee`faults
      ensures Valid() && Recorded(old(manager.events), manager.events) && manager.pristine == old(manager.pristine)
      ensures var e := manager.events[|old(manager.events)|];
              e.Enable? && e.id == id && e.ok == ok && Step(old(manager.Now()), e, manager.Now())
      ensures !ok ==> id !in old(manager.breakpoints) || tracee.faults > old(tracee.faults)
      ensures ok ==> id in old(manager.breakpoints)
                     && manager.breakpoints
                        == old(manager.breakpoints)[id := old(manager.breakpoints)[id].(enabled := true)]
      ensures !ok ==> manager.breakpoints == old(manager.breakpoints)
      ensures ok && (|| !manager.fellBack
                     || (tracee.faults == old(tracee.faults) && !old(manager.breakpoints)[id].enabled)) ==>
                InForce(manager.breakpoints[id], tracee.memory, tracee.debug)
      ensures id in old(manager.breakpoints) && tracee.faults == old(tracee.faults) ==>
                OnlyAt(old(manager.breakpoints)[id], old(manager.Now()), manager.Now())
    {
      ok := manager.EnableBreakpoint(id);
      StillIssued(old(manager.events), manager.events);
    }

    method DisableBreakpoint(id: int) returns (ok: bool)
      requires Valid()
      modifies manager, tracee`memory, tracee`debug, tracee`faults
      ensures Valid() && Recorded(old(manager.events), manager.events) && manager.pristine == old(manager.pristine)
      ensures var e := manager.events[|old(manager.events)|];
              e.Disable? && e.id == id && e.ok == ok && Step(old(manager.Now()), e, manager.Now())
      ensures !ok ==> id !in old(manager.breakpoints) || tracee.faults > old(tracee.faults)
      ensures ok ==> id in old(manager.breakpoints)
                     && manager.breakpoints
                        == old(manager.breakpoints)[id := old(manager.breakpoints)[id].(enabled := false)]
      ensures !ok ==> manager.breakpoints == old(manager.breakpoints)
      ensures ok && (|| !manager.fellBack
                     || (tracee.faults == old(tracee.faults) && old(manager.breakpoints)[id].enabled)) ==>
                Suspended(manager.breakpoints[id], tracee.memory, tracee.debug)
      ensures id in old(manager.breakpoints) && tracee.faults == old(tracee.faults) ==>
                OnlyAt(old(manager.breakpoints)[id], old(manager.Now()), manager.Now())
    {
      ok := manager.DisableBreakpoint(id);
      StillIssued(old(manager.events), manager.events);
    }

    // ---------- stepping over ----------

    // The bytes that the tracee may not rewrite while it runs
    method CodeUnderBreakpoints() returns (code: set<nat>)
      ensures forall i: nat :: i in code <==> UnderBreakpoint(manager.AllTables(), i)
    {
      code := set id, i | id in manager.breakpoints && manager.breakpoints[id].kind.Software?
                          && i in WordAt(manager.breakpoints[id].address) :: i;
      forall i: nat | UnderBreakpoint(manager.AllTables(), i) ensures i in code {
        var id :| id in manager.breakpoints && manager.breakpoints[id].kind.Software?
                  && manager.breakpoints[id].address <= i < manager.breakpoints[id].address + 4;
        assert i in WordAt(manager.breakpoints[id].address);
      }
      forall i: nat | i in code ensures UnderBreakpoint(manager.AllTables(), i) {
        var id :| id in manager.breakpoints && manager.breakpoints[id].kind.Software?
                  && i in WordAt(manager.breakpoints[id].address);
        assert manager.breakpoints[id].address <= i < manager.breakpoints[id].address + 4;
      }
    }

    // resume_thread and waitpid: the current thread runs until the kernel reports something
    method ResumeAndWait() returns (reported: int, stopped: bool)
      requires Valid()
      modifies manager`pristine, manager`states, manager`events
      modifies tracee`memory, tracee`registers, tracee`faults, tracee`continued, tracee`lastWait
      ensures Valid()
      ensures Recorded(old(manager.events), manager.events) && tracee.lastWait == (currentTid, reported, stopped)
      ensures SentOnce(old(tracee.continued), tracee.continued, currentTid, currentTid in tids)
      ensures manager.events[|old(manager.events)|] == Ran(tracee.memory) && tracee.faults >= old(tracee.faults)
      ensures Step(old(manager.Now()), Ran(tracee.memory), manager.Now())
    {
      var code := CodeUnderBreakpoints();
      ghost var before := manager.Now();
      var _ := ResumeThread(currentTid);
      reported, stopped := tracee.RunAndWait(currentTid, code);
      manager.RecordRun(before);
      StillIssued(old(manager.events), manager.events);
    }

    ghost function Seen(): View
      reads this, manager, tracee, manager.tracee
    {
      View(manager.Now(), tracee.continued, tracee.lastWait, tracee.faults)
    }

    ghost function Present(): Circumstances
      reads this, manager
    {
      Circumstances(currentTid, currentTid in tids, tracee.wholeElements, manager.byValue)
    }

    /** Whatever the wait reports: once the temporary breakpoint is removed again, the table, the thread index, the
        pools and, unless an address was poked for a word, the code are as before; if it could not be set nothing has
        changed; if it could not be removed it is still tracked. */
    method StepOver() returns (r: StepOutcome, ghost at: nat)
      requires Valid()
      modifies manager, tracee`memory, tracee`debug, tracee`registers, tracee`faults, tracee`continued, tracee`lastWait
      ensures Valid()
      ensures r in {PcUnreadable, NextUnreadable} ==>
                manager.Now() == old(manager.Now()) && manager.events == old(manager.events)
      ensures r in {PcUnreadable, NextUnreadable} ==> tracee.faults > old(tracee.faults)
      // the thread's register of the name pc holds `at`, and the breakpoint is set four bytes after it
      ensures r !in {PcUnreadable, NextUnreadable} ==>
                && Holds(old(tracee.registers), currentTid, "pc", at)
                && SetAt(manager.events, |old(manager.events)|, currentTid, (at + 4) % 0x1_0000_0000_0000_0000)
                && StepDone(old(Seen()), Seen(), Present(), (at + 4) % 0x1_0000_0000_0000_0000, r)
    {
      ghost var before := Seen();
      var unreadable, pc, next := FindNext();
      at := pc;
      if unreadable.Some? { return unreadable.value, at; }
      ghost var middle := Seen();
      r := RunToBreakpoint(next);
      StepDoneSince(before, middle, Seen(), Present(), next, r);
    }

    // The first part of single_step_impl: the next instruction and whether it can be read
    method FindNext() returns (unreadable: Option<StepOutcome>, pc: nat, next: nat)
      requires Valid()
      modifies tracee`faults
      ensures Valid() && Seen() == old(Seen()).(faults := tracee.faults) && tracee.faults >= old(tracee.faults)
      ensures unreadable.Some? ==>
                unreadable.value in {PcUnreadable, NextUnreadable} && tracee.faults > old(tracee.faults)
      ensures unreadable.None? ==> Holds(tracee.registers, currentTid, "pc", pc)
                                   && next == (pc + 4) % 0x1_0000_0000_0000_0000
    {
      var found := GetRegister(tracee, currentTid, Gpr, PC);
      if found.None? { return Some(PcUnreadable), 0, 0; }
      pc := found.value;
      PcHolds(tracee.registers, currentTid, pc);
      next := (pc + 4) % 0x1_0000_0000_0000_0000;

      var originalInstruction := new byte[4];
      var readable := MemoryControl.ReadMemory(tracee, pid, next, originalInstruction);
      unreadable := if readable then None else Some(NextUnreadable);
    }

    // The rest of single_step_impl, once the next instruction is known to be readable
    method RunToBreakpoint(next: nat) returns (r: StepOutcome)
      requires Valid()
      modifies manager, tracee`memory, tracee`debug, tracee`registers, tracee`faults, tracee`continued, tracee`lastWait
      ensures Valid() && r in {NotSet, SetThrew, NotRemoved, NotStopped, Done} && tracee.faults >= old(tracee.faults)
      ensures SetAt(manager.events, |old(manager.events)|, currentTid, next)
      ensures StepDone(old(Seen()), Seen(), Present(), next, r)
    {
      manager.SoundNow();
      ghost var before := Seen();
      var result;
      ghost var e;
      result, e := SetTemporary(next);
      if result.Created? {
        ghost var events := manager.events;
        r := RunAndConclude(before, e, result.id);
        SetAtStays(events, manager.events, |old(manager.events)|, currentTid, next);
      } else {
        r := if result.Threw? then SetThrew else NotSet;
        SettingFailed(before, e, Seen(), Present(), next, r);
      }
    }

    // From the resumption to the verdict, with the temporary breakpoint set
    method RunAndConclude(ghost before: View, ghost e: Event, id: int) returns (r: StepOutcome)
      requires Valid() && TablesOk(before.now.tables, before.now.implemented) && id in manager.breakpoints
      requires e.SetSoftware? && e.tid == currentTid && e.result == Created(id) && Step(before.now, e, manager.Now())
      requires before.continued == tracee.continued && before.faults <= tracee.faults
      requires before.faults == tracee.faults || manager.byValue ==> Whole(e)
      modifies manager, tracee`memory, tracee`debug, tracee`registers, tracee`faults, tracee`continued, tracee`lastWait
      ensures Valid() && r in {NotRemoved, NotStopped, Done} && tracee.faults >= old(tracee.faults)
      ensures old(manager.events) <= manager.events
      ensures StepDone(before, Seen(), Present(), e.address, r)
    {
      ghost var s1 := manager.Now();
      ghost var whole;
      var reported, stopped, removed;
      reported, stopped, removed, whole := RunAndRemove(id);
      if !removed {
        RemovalFailed(before, e, s1, whole, Seen(), Present(), e.address);
        return NotRemoved;
      }
      LessKnownOfRemoval(s1, id, true, whole, whole && Whole(e), manager.Now());
      r := if reported != currentTid || !stopped then NotStopped else Done;
      StepCompleted(before, e, s1, whole && Whole(e), Seen(), Present(), e.address, r);
    }

    // The temporary breakpoint of a step
    method SetTemporary(next: nat) returns (result: SetResult, ghost e: Event)
      requires Valid()
      modifies manager, tracee`memory, tracee`faults
      ensures Valid() && SetAt(manager.events, |old(manager.events)|, currentTid, next)
      ensures e.SetSoftware? && e.tid == currentTid && e.address == next && e.result == result
      ensures Step(old(manager.Now()), e, manager.Now()) && tracee.faults >= old(tracee.faults)
      ensures result.Refused? ==> old(manager.AllTables()).Duplicate(next) || tracee.faults > old(tracee.faults)
      ensures tracee.wholeElements ==> Untorn(e)
      ensures tracee.faults == old(tracee.faults) || (manager.byValue && result.Created?) ==> Whole(e)
      ensures result.Created? ==> result.id in manager.breakpoints
    {
      ghost var n := |manager.events|;
      result := manager.SetSoftwareBreakpoint(currentTid, next);
      StillIssued(old(manager.events), manager.events);
      e := manager.events[n];
    }

    method RunAndRemove(id: int)
      returns (reported: int, stopped: bool, removed: bool, ghost whole: bool)
      requires Valid() && id in manager.breakpoints
      modifies manager, tracee`memory, tracee`debug, tracee`registers, tracee`faults, tracee`continued, tracee`lastWait
      ensures Valid() && tracee.faults >= old(tracee.faults) && old(manager.events) <= manager.events
      ensures RanThenRemoved(old(manager.Now()), id, removed, whole, manager.Now())
      ensures removed && (manager.byValue || tracee.faults == old(tracee.faults)) ==> whole
      ensures tracee.lastWait == (currentTid, reported, stopped) && (!removed ==> tracee.faults > old(tracee.faults))
      ensures SentOnce(old(tracee.continued), tracee.continued, currentTid, currentTid in tids)
    {
      ghost var n := |manager.events|;
      reported, stopped := ResumeAndWait();
      ghost var ran, s2, before := manager.events[n], manager.Now(), manager.events;
      removed := manager.RemoveBreakpoint(id);
      ghost var removal := manager.events[n + 1];
      StillIssued(before, manager.events);
      RecordedTwice(old(manager.events), before, manager.events);
      assert Step(s2, removal, manager.Now());
      whole := Whole(removal);
    }
  }
}
