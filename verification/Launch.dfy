/**
 Launching an app: the debugger attaches to the zygote, watches it for the fork of the app, and lets go of it.
 The protocol an observer would hold the debugger to is the automaton `Next`; the event loop is proved to
 follow it for every finite sequence of kernel reports.
 */
module Launch {
  import opened Tracees

  /** What one turn of the loop finds: the deadline passed, or what waitpid reports. */
  datatype Report =
    | Late
    | WaitFailed
    | NothingYet
    | ZygoteFork(message: Option<int>, name: Option<string>)
    | ZygoteSyscall
    | ZygoteSignal
    | ZygoteExit
    | ZygoteOther
    | Other(pid: int)
  {
    /** The fork of the wanted app. */
    predicate Matches(package: string) { ZygoteFork? && message.Some? && name == Some(package) }

    /** The loop ends here. */
    predicate Decides(package: string) { Late? || WaitFailed? || ZygoteExit? || Matches(package) }
  }

  datatype Request = Attach(pid: int) | SetOptions(pid: int) | GetMessage(pid: int)
                   | Cont(pid: int) | Syscall(pid: int) | Detach(pid: int)

  datatype Action = FirstStop | Saw(report: Report) | Asked(request: Request)

  datatype Outcome = NotAttached | NotStopped | NoOptions | NotStarted | TimedOut | NoReport | ZygoteDied
                   | NoApp | Found(pid: int)

  // ---------- the protocol ----------

  /** The zygote as an observer of reports and requests knows it. */
  datatype Zygote = Untraced | Running | Fresh | Forked | Stopped(syscall: bool) | Owing(pid: int) | Dead
                  | Released(stopped: bool)

  /** One action; None if it breaks the protocol. In its first stop the zygote is given its options, and in a fork stop
      it is asked for the child. A stop must be answered before the next wait, a syscall stop by SYSCALL and any other
      by CONT; another process that is reported is continued at once; a traced zygote is
      detached once, and left alone after that. */
  function Next(z: Zygote, zygote: int, a: Action): Option<Zygote> {
    match a
    case FirstStop => if z.Running? then Some(Fresh) else None
    case Saw(r) =>
      if !z.Running? then None
      else if r.ZygoteFork? then Some(Forked)
      else if r.ZygoteSyscall? || r.ZygoteSignal? then Some(Stopped(r.ZygoteSyscall?))
      else if r.ZygoteExit? then Some(Dead)
      else if r.Other? then Some(Owing(r.pid))
      else Some(Running)
    case Asked(q) =>
      if z.Owing? then (if q == Cont(z.pid) && q.pid != zygote then Some(Running) else None)
      else if q.pid != zygote then Some(z)
      else
        match q
        case Attach(_) => if z.Untraced? then Some(Running) else None
        case SetOptions(_) => if z.Fresh? then Some(Stopped(false)) else None
        case GetMessage(_) => if z.Forked? then Some(Stopped(false)) else None
        case Cont(_) => if z == Stopped(false) then Some(Running) else None
        case Syscall(_) => if z == Stopped(true) then Some(Running) else None
        case Detach(_) => if z.Running? || z.Stopped? || z.Dead? then Some(Released(z.Stopped?)) else None
  }

  function Replay(log: seq<Action>, zygote: int): Option<Zygote> {
    if log == [] then Some(Untraced)
    else
      match Replay(log[..|log| - 1], zygote)
      case None => None
      case Some(z) => Next(z, zygote, log[|log| - 1])
  }

  lemma ReplayOneMore(log: seq<Action>, zygote: int, a: Action)
    requires Replay(log, zygote).Some?
    ensures Replay(log + [a], zygote) == Next(Replay(log, zygote).value, zygote, a)
  {
    assert (log + [a])[..|log|] == log;
  }

  function Count(log: seq<Action>, p: Action -> bool): nat {
    if log == [] then 0 else Count(log[..|log| - 1], p) + if p(log[|log| - 1]) then 1 else 0
  }

  predicate IsStop(a: Action) {
    a.FirstStop? || (a.Saw? && (a.report.ZygoteFork? || a.report.ZygoteSyscall? || a.report.ZygoteSignal?))
  }

  predicate IsAnswer(zygote: int, a: Action) { a == Asked(Cont(zygote)) || a == Asked(Syscall(zygote)) }

  /** What an accepted log amounts to: every stop was answered once, except one that is still open or was
      ended by the detach, and there was one detach if the zygote is released and none otherwise. */
  lemma {:induction false} AcceptedLog(log: seq<Action>, zygote: int)
    requires Replay(log, zygote).Some?
    ensures var z := Replay(log, zygote).value;
            && Count(log, IsStop) == Count(log, a => IsAnswer(zygote, a))
                                     + (if z.Stopped? || z.Fresh? || z.Forked? || z == Released(true) then 1 else 0)
            && Count(log, a => a == Asked(Detach(zygote))) == if z.Released? then 1 else 0
  {
    if log != [] { AcceptedLog(log[..|log| - 1], zygote); }
  }

  /** The request that a stop has to be answered with. */
  function AnswerTo(zygote: int, stop: Action): Action {
    Asked(if stop.Saw? && stop.report.ZygoteSyscall? then Syscall(zygote) else Cont(zygote))
  }

  lemma {:induction false} PrefixIsAccepted(log: seq<Action>, zygote: int, n: nat)
    requires Replay(log, zygote).Some? && n <= |log|
    ensures Replay(log[..n], zygote).Some?
  {
    if n < |log| {
      PrefixIsAccepted(log[..|log| - 1], zygote, n);
      assert log[..|log| - 1][..n] == log[..n];
    } else {
      assert log[..n] == log;
    }
  }

  /** What an accepted log did with its last entry. */
  lemma LastAction(log: seq<Action>, zygote: int, j: nat)
    requires Replay(log, zygote).Some? && j < |log|
    ensures Replay(log[..j], zygote).Some? && Next(Replay(log[..j], zygote).value, zygote, log[j]).Some?
  {
    PrefixIsAccepted(log, zygote, j + 1);
    assert log[..j + 1][..j] == log[..j];
  }

  lemma {:induction false} StillReleased(log: seq<Action>, zygote: int, i: nat)
    requires Replay(log, zygote).Some? && i < |log| && log[i] == Asked(Detach(zygote))
    ensures Replay(log, zygote).value.Released?
  {
    if i < |log| - 1 { StillReleased(log[..|log| - 1], zygote, i); }
  }

  /** After the zygote is let go there is no wait, and nothing is asked of it any more. */
  lemma NothingAfterDetach(log: seq<Action>, zygote: int, i: nat, j: nat)
    requires Replay(log, zygote).Some? && i < j < |log| && log[i] == Asked(Detach(zygote))
    ensures log[j].Asked? && log[j].request.pid != zygote
  {
    LastAction(log, zygote, j);
    StillReleased(log[..j], zygote, i);
  }

  lemma {:induction false} StillOpen(log: seq<Action>, zygote: int, i: nat)
    requires Replay(log, zygote).Some? && i < |log| && IsStop(log[i])
    requires forall k :: i < k < |log| ==> log[k] != AnswerTo(zygote, log[i])
    ensures var z := Replay(log, zygote).value;
            || z.Released? || z == Stopped(log[i].Saw? && log[i].report.ZygoteSyscall?)
            || (z.Fresh? && log[i].FirstStop?) || (z.Forked? && log[i].Saw? && log[i].report.ZygoteFork?)
  {
    if i < |log| - 1 { StillOpen(log[..|log| - 1], zygote, i); }
  }

  /** Between a stop and the next wait there is the answer that this stop needs. */
  lemma AnsweredBeforeNextWait(log: seq<Action>, zygote: int, i: nat, j: nat)
    requires Replay(log, zygote).Some? && i < j < |log| && IsStop(log[i]) && log[j].Saw?
    ensures exists k :: i < k < j && log[k] == AnswerTo(zygote, log[i])
  {
    LastAction(log, zygote, j);
    if forall k :: i < k < j ==> log[k] != AnswerTo(zygote, log[i]) {
      StillOpen(log[..j], zygote, i);
    }
  }

  /** Another process that is reported is continued by the very next request. */
  lemma OthersGoOn(log: seq<Action>, zygote: int, i: nat, pid: int)
    requires Replay(log, zygote).Some? && i + 1 < |log| && log[i] == Saw(Other(pid))
    ensures log[i + 1] == Asked(Cont(pid))
  {
    LastAction(log, zygote, i);
    LastAction(log, zygote, i + 1);
    assert log[..i + 1][..i] == log[..i];
  }

  /** The first thing after the first stop are the options, and after a fork stop the question for the child. */
  lemma StopsAreUsed(log: seq<Action>, zygote: int, i: nat)
    requires Replay(log, zygote).Some? && i + 1 < |log|
    ensures log[i].FirstStop? && log[i + 1].Asked? && log[i + 1].request.pid == zygote ==>
              log[i + 1].request == SetOptions(zygote)
    ensures log[i].Saw? && log[i].report.ZygoteFork? && log[i + 1].Asked? && log[i + 1].request.pid == zygote ==>
              log[i + 1].request == GetMessage(zygote)
  {
    LastAction(log, zygote, i);
    LastAction(log, zygote, i + 1);
    assert log[..i + 1][..i] == log[..i];
  }

  /** The reports in a log, in order. */
  function Seen(log: seq<Action>): seq<Report> {
    if log == [] then []
    else
      var last := log[|log| - 1];
      Seen(log[..|log| - 1]) + if last.Saw? then [last.report] else []
  }

  /** The processes that were let go, in order. */
  function LetGo(log: seq<Action>): seq<int> {
    if log == [] then []
    else
      var last := log[|log| - 1];
      LetGo(log[..|log| - 1]) + if last.Asked? && last.request.Detach? then [last.request.pid] else []
  }

  // ---------- the code ----------

  /** A report at which watching ends: the deadline, an error, the zygote's end, or the fork of the wanted app. */
  ghost predicate Ends(report: Report, package: string) {
    || report.Late? || report.WaitFailed? || report.ZygoteExit?
    || (report.ZygoteFork? && report.message.Some? && report.name == Some(package))
  }

  /** Where the loop ends: at the first decisive report, or past the last one. */
  function FirstDecisive(reports: seq<Report>, package: string): (k: nat)
    ensures k <= |reports|
    ensures forall i :: 0 <= i < k ==> !Ends(reports[i], package)
    ensures k < |reports| ==> Ends(reports[k], package)
  {
    if reports == [] || reports[0].Decides(package) then 0 else 1 + FirstDecisive(reports[1..], package)
  }

  /** What a decisive report means. */
  function Meaning(report: Report, package: string): Outcome
    requires report.Decides(package)
  {
    match report
    case Late => TimedOut
    case WaitFailed => NoReport
    case ZygoteExit => ZygoteDied
    case ZygoteFork(message, _) => Found(message.value)
  }

  /** The outcome of watching: the first decisive report, or the deadline when no more come. */
  function Verdict(reports: seq<Report>, package: string): Outcome {
    var k := FirstDecisive(reports, package);
    if k == |reports| then TimedOut else Meaning(reports[k], package)
  }

  /** The `k`-th report is the first of its kind: nothing before it ends the watching. */
  ghost predicate FirstEnd(reports: seq<Report>, package: string, k: nat) {
    k < |reports| && Ends(reports[k], package) && forall i :: 0 <= i < k ==> !Ends(reports[i], package)
  }

  /** What watching comes to, by the first report that ends it. */
  lemma VerdictIs(reports: seq<Report>, package: string)
    ensures (forall k: nat :: !FirstEnd(reports, package, k)) ==> Verdict(reports, package).TimedOut?
    ensures forall k: nat :: FirstEnd(reports, package, k) ==>
              match reports[k]
              case Late => Verdict(reports, package).TimedOut?
              case WaitFailed => Verdict(reports, package).NoReport?
              case ZygoteExit => Verdict(reports, package).ZygoteDied?
              case ZygoteFork(message, name) =>
                message.Some? && name == Some(package) && Verdict(reports, package) == Found(message.value)
              case _ => false
  {
    var d := FirstDecisive(reports, package);
    if d < |reports| { assert FirstEnd(reports, package, d); }
    forall k: nat | FirstEnd(reports, package, k) ensures k == d {}
  }

  /** The app was caught: its fork with this child is the first report that ends the watching. */
  ghost predicate Caught(reports: seq<Report>, package: string, app: int) {
    exists k: nat :: FirstEnd(reports, package, k) && reports[k] == ZygoteFork(Some(app), Some(package))
  }

  lemma CaughtIsFound(reports: seq<Report>, package: string, app: int)
    ensures Caught(reports, package, app) <==> Verdict(reports, package) == Found(app)
  {
    VerdictIs(reports, package);
    if Verdict(reports, package) == Found(app) {
      var k: nat :| FirstEnd(reports, package, k);
      assert reports[k] == ZygoteFork(Some(app), Some(package));
    }
  }

  function Usable(r: Outcome): Outcome {
    if r.Found? && r.pid <= 0 then NoApp else r
  }

  /** How a launch ends before the app is attached to. */
  function LaunchOutcome(package: string, attached: bool, stopped: bool, optionsSet: bool, started: bool,
                         reports: seq<Report>): Outcome
  {
    if !attached then NotAttached else if !stopped then NotStopped else if !optionsSet then NoOptions
    else if !started then NotStarted else Usable(Verdict(reports, package))
  }

  /** The kernel names other processes than the zygote. */
  predicate PlausibleReport(report: Report, zygote: int) {
    && (report.Other? ==> report.pid != zygote)
    && (report.ZygoteFork? ==> report.message != Some(zygote))
  }

  predicate Plausible(reports: seq<Report>, zygote: int) {
    forall i :: 0 <= i < |reports| ==> PlausibleReport(reports[i], zygote)
  }

  lemma PrefixOneMore(reports: seq<Report>, i: nat)
    requires i < |reports|
    ensures reports[..i + 1] == reports[..i] + [reports[i]]
  {
  }

  class Launcher {
    const zygote: int
    var log: seq<Action>
    // what the log amounts to: the zygote's state, the reports read and the processes let go
    ghost var state: Zygote
    ghost var seen: seq<Report>
    ghost var letGo: seq<int>

    ghost predicate Valid()
      reads this
    {
      Replay(log, zygote) == Some(state) && Seen(log) == seen && LetGo(log) == letGo
    }

    constructor (zygote: int)
      ensures Valid() && log == [] && this.zygote == zygote
    {
      this.zygote, log := zygote, [];
      state, seen, letGo := Untraced, [], [];
    }

    method Note(a: Action)
      requires Valid() && Next(state, zygote, a).Some?
      modifies this
      ensures Valid()
      ensures Some(state) == Next(old(state), zygote, a)
      ensures seen == old(seen) + if a.Saw? then [a.report] else []
      ensures letGo == old(letGo) + if a.Asked? && a.request.Detach? then [a.request.pid] else []
    {
      ReplayOneMore(log, zygote, a);
      assert (log + [a])[..|log|] == log;
      log := log + [a];
      state := Next(state, zygote, a).value;
      seen := seen + if a.Saw? then [a.report] else [];
      letGo := letGo + if a.Asked? && a.request.Detach? then [a.request.pid] else [];
    }

    method Ask(request: Request)
      requires Valid() && Next(state, zygote, Asked(request)).Some?
      modifies this
      ensures Valid()
      ensures Some(state) == Next(old(state), zygote, Asked(request)) && seen == old(seen)
      ensures letGo == if request.Detach? then old(letGo) + [request.pid] else old(letGo)
    {
      Note(Asked(request));
    }

    /** Releases the zygote exactly once if it was attached at all, in a stop exactly when the options could
        not be set or the app was caught, answers every stop before it waits again, and lets nothing else go
        but the app it caught. */
    method Run(package: string, attached: bool, stopped: bool, optionsSet: bool, started: bool, reports: seq<Report>)
      returns (r: Outcome)
      requires Valid() && log == [] && Plausible(reports, zygote)
      modifies this
      ensures Valid()
      ensures r == LaunchOutcome(package, attached, stopped, optionsSet, started, reports)
      ensures r.NotAttached? <==> !attached
      ensures r.NotStopped? <==> attached && !stopped
      ensures r.NoOptions? <==> attached && stopped && !optionsSet
      ensures r.NotStarted? <==> attached && stopped && optionsSet && !started
      ensures r.Found? ==> r.pid > 0 && Caught(reports, package, r.pid)
      ensures attached && stopped && optionsSet && started ==>
                forall app :: Caught(reports, package, app) ==> if app > 0 then r == Found(app) else r.NoApp?
      ensures !attached ==> log == []
      ensures attached ==> state == Released(r.NoOptions? || r.NoApp? || r.Found?)
      ensures attached && stopped && optionsSet && started ==>
                var k := FirstDecisive(reports, package);
                seen == if k < |reports| then reports[..k + 1] else reports
      ensures letGo == if !attached then []
                       else if stopped && optionsSet && started && Verdict(reports, package).Found?
                       then [Verdict(reports, package).pid] + [zygote] else [zygote]
    {
      assert state == Untraced && seen == [] && letGo == [];
      forall app ensures Caught(reports, package, app) <==> Verdict(reports, package) == Found(app) {
        CaughtIsFound(reports, package, app);
      }
      if !attached { return NotAttached; }
      var refused := Prepare(stopped, optionsSet, started);
      if refused.Some? { return refused.value; }
      r := WatchAndRelease(package, reports);
    }

    // From the loop to the end: the zygote is released, after the app if it was caught
    method WatchAndRelease(package: string, reports: seq<Report>) returns (r: Outcome)
      requires Valid() && state == Running && seen == [] && letGo == [] && Plausible(reports, zygote)
      modifies this
      ensures Valid()
      ensures r == Usable(Verdict(reports, package))
      ensures state == Released(Verdict(reports, package).Found?)
      ensures var k := FirstDecisive(reports, package);
              seen == if k < |reports| then reports[..k + 1] else reports
      ensures letGo == if Verdict(reports, package).Found? then [Verdict(reports, package).pid] + [zygote] else [zygote]
    {
      r := Watch(package, reports);
      if r.Found? {
        Ask(Detach(zygote));
        if r.pid <= 0 { r := NoApp; }
      }
    }

    // From the attach to the start of the app: either everything works, or the zygote is let go again
    method Prepare(stopped: bool, optionsSet: bool, started: bool) returns (refused: Option<Outcome>)
      requires Valid() && state == Untraced && seen == [] && letGo == []
      modifies this
      ensures Valid()
      ensures refused == if !stopped then Some(NotStopped) else if !optionsSet then Some(NoOptions)
                         else if !started then Some(NotStarted) else None
      ensures seen == [] && letGo == if refused.None? then [] else [zygote]
      ensures state == if refused.None? then Running else Released(refused == Some(NoOptions))
    {
      Ask(Attach(zygote));
      if !stopped {
        Ask(Detach(zygote));
        return Some(NotStopped);
      }
      Note(FirstStop);
      Ask(SetOptions(zygote));
      if !optionsSet {
        Ask(Detach(zygote));
        return Some(NoOptions);
      }
      Ask(Cont(zygote));
      if !started {
        Ask(Detach(zygote));
        return Some(NotStarted);
      }
      return None;
    }

    // The loop: the app found, with the zygote still in its fork stop, or a failure with the zygote released
    method Watch(package: string, reports: seq<Report>) returns (r: Outcome)
      requires Valid() && state == Running && seen == [] && letGo == [] && Plausible(reports, zygote)
      modifies this
      ensures Valid() && r == Verdict(reports, package)
      ensures forall app :: r == Found(app) <==> Caught(reports, package, app)
      ensures letGo == [if r.Found? then r.pid else zygote]
      ensures var k := FirstDecisive(reports, package);
              seen == if k < |reports| then reports[..k + 1] else reports
      ensures state == if r.Found? then Stopped(false) else Released(false)
    {
      forall app ensures Verdict(reports, package) == Found(app) <==> Caught(reports, package, app) {
        CaughtIsFound(reports, package, app);
      }
      var i := 0;
      while i < |reports|
        invariant i <= FirstDecisive(reports, package)
        invariant Valid() && state == Running && seen == reports[..i] && letGo == []
      {
        var report := reports[i];
        var ended := Handle(package, report);
        PrefixOneMore(reports, i);
        if ended.Some? {
          assert FirstDecisive(reports, package) == i;
          return ended.value;
        }
        i := i + 1;
      }
      assert reports[..i] == reports;
      Ask(Detach(zygote));
      return TimedOut;
    }

    // One turn of the loop
    method Handle(package: string, report: Report) returns (ended: Option<Outcome>)
      requires Valid() && state == Running && PlausibleReport(report, zygote)
      modifies this
      ensures Valid()
      ensures ended == if report.Decides(package) then Some(Meaning(report, package)) else None
      ensures ended.Some? <==> Ends(report, package)
      ensures forall app :: ended == Some(Found(app)) <==> report == ZygoteFork(Some(app), Some(package))
      ensures seen == old(seen) + [report]
      ensures state == if ended.None? then Running else if ended.value.Found? then Stopped(false) else Released(false)
      ensures letGo == if ended.None? then old(letGo)
                       else old(letGo) + [if ended.value.Found? then ended.value.pid else zygote]
    {
      Note(Saw(report));
      match report {
        case Late =>
          Ask(Detach(zygote));
          return Some(TimedOut);
        case WaitFailed =>
          Ask(Detach(zygote));
          return Some(NoReport);
        case NothingYet =>
        case ZygoteFork(message, name) =>
          Ask(GetMessage(zygote));
          if message.Some? && name == Some(package) {
            Ask(Detach(message.value));
            return Some(Found(message.value));
          }
          Ask(Cont(zygote));
        case ZygoteSyscall =>
          Ask(Syscall(zygote));
        case ZygoteSignal =>
          Ask(Cont(zygote));
        case ZygoteExit =>
          Ask(Detach(zygote));
          return Some(ZygoteDied);
        case ZygoteOther =>
        case Other(pid) =>
          Ask(Cont(pid));
      }
      return None;
    }
  }
}
