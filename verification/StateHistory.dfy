/**
  Where reports and writes come from: what a process holds was read by that process,
  from the file and the counters as they were at its own steps.
 */
module StateHistory {
  import opened Wrappers
  import opened Traffic
  import opened StateVersions

  /** The system after the first n actions of a run. */
  function At(counters: Reading, actions: seq<Action>, n: nat): System
    requires n <= |actions|
  {
    Exec(Init(counters), actions[..n])
  }

  lemma AtNext(counters: Reading, actions: seq<Action>, n: nat)
    requires n < |actions|
    ensures At(counters, actions, n + 1) == Act(At(counters, actions, n), actions[n])
  {
    assert actions[..n + 1] == actions[..n] + [actions[n]];
    ExecConcat(Init(counters), actions[..n], [actions[n]]);
    OneAction(At(counters, actions, n), actions[n]);
  }

  predicate Takes(a: Action, pid: nat) { !a.Count? && a.pid == pid }

  /** From action k, which the process starts with, up to action n it is never idle. */
  ghost predicate Busy(counters: Reading, actions: seq<Action>, pid: nat, k: nat, n: nat)
    requires n <= |actions|
  {
    && k < n
    && ProcessOf(At(counters, actions, k), pid).Idle?
    && forall j :: k < j <= n ==> !ProcessOf(At(counters, actions, j), pid).Idle?
  }

  // ---------------------------------------------------------------- what a process holds

  /** Action k reads the file for a report, which sees that version. */
  ghost predicate ReadsFile(counters: Reading, actions: seq<Action>, pid: nat, k: nat, version: TrafficState)
    requires k < |actions|
  {
    && actions[k] == ReadForReport(pid, version.cycleKey, version.interface)
    && At(counters, actions, k).published == Some(version)
  }

  /** Action k measures for a reset. */
  ghost predicate Measures(counters: Reading, actions: seq<Action>, pid: nat, k: nat, e: Event)
    requires k < |actions|
  {
    && e == ResetEvent(e.cycleKey, e.interface, At(counters, actions, k).counters)
    && actions[k] == Measure(pid, e.cycleKey, e.interface)
  }

  /** Action k asks for a correction. */
  ghost predicate Asks(actions: seq<Action>, pid: nat, k: nat, cycleKey: string, interface: string, target: Target, at: int)
    requires k < |actions|
  {
    actions[k] == LockForCorrection(pid, cycleKey, interface, target, at)
  }

  /** Action m, after k, plans the correction over the counters as they are then. */
  ghost predicate Plans(counters: Reading, actions: seq<Action>, pid: nat, k: nat, m: nat, e: Event)
    requires k < m < |actions|
  {
    && e.CorrectEvent?
    && Asks(actions, pid, k, e.cycleKey, e.interface, e.target, e.at)
    && actions[m] == PlanCorrection(pid)
    && e.reading == At(counters, actions, m).counters
  }

  /** After action k the process has written its temporary file out, at action w. */
  ghost predicate WritesOut(counters: Reading, actions: seq<Action>, pid: nat, k: nat, w: nat, e: Event)
    requires k < w < |actions|
  {
    && actions[w] == WriteTemporary(pid)
    && ProcessOf(At(counters, actions, w), pid).Writing? && ProcessOf(At(counters, actions, w), pid).event == e
  }

  ghost predicate Sourced(counters: Reading, actions: seq<Action>, pid: nat, k: nat, n: nat, e: Event)
    requires k < n <= |actions|
  {
    if e.ResetEvent? then Measures(counters, actions, pid, k, e)
    else exists m :: k < m < n && Plans(counters, actions, pid, k, m, e)
  }

  /** What the process holds after n actions it has gathered since action k. */
  ghost predicate Gathered(counters: Reading, actions: seq<Action>, pid: nat, k: nat, n: nat)
    requires k < n <= |actions|
  {
    match ProcessOf(At(counters, actions, n), pid)
    case Idle => false
    case Measured(e) => Measures(counters, actions, pid, k, e)
    case ResetLocked(e) => Measures(counters, actions, pid, k, e)
    case CorrectLocked(key, iface, target, at) => Asks(actions, pid, k, key, iface, target, at)
    case CorrectLoaded(key, iface, target, at, _) => Asks(actions, pid, k, key, iface, target, at)
    case Writing(e, _, whole) =>
      Sourced(counters, actions, pid, k, n, e) && (whole ==> exists w :: k < w < n && WritesOut(counters, actions, pid, k, w, e))
    case Published => true
    case Seen(version) => ReadsFile(counters, actions, pid, k, version)
  }

  /** What one action can make of a process: nothing, an idle one, or its own next step. */
  ghost predicate Moves(s: System, a: Action, pid: nat, q: Process) {
    var p := ProcessOf(s, pid);
    || q == p || q.Idle?
    || (Takes(a, pid) &&
        match a
        case Measure(_, key, iface) => p.Idle? && q == Measured(ResetEvent(key, iface, s.counters))
        case LockForReset(_) => p.Measured? && q == ResetLocked(p.reset)
        case LoadForReset(_) => p.ResetLocked? && q.Writing? && q.event == p.reset && q.event.ResetEvent? && !q.whole
        case LockForCorrection(_, key, iface, target, at) => p.Idle? && q == CorrectLocked(key, iface, target, at)
        case LoadForCorrection(_) =>
          p.CorrectLocked? && q.CorrectLoaded? && q == CorrectLoaded(p.cycleKey, p.interface, p.target, p.at, q.prior)
        case PlanCorrection(_) =>
          p.CorrectLoaded? && q.Writing? && !q.whole && q.event == CorrectEvent(p.cycleKey, p.interface, s.counters, p.target, p.at)
        case WriteTemporary(_) => p.Writing? && q == p.(whole := true)
        case Rename(_) => p.Writing? && p.whole && q.Published?
        case ReadForReport(_, key, iface) => p.Idle? && q.Seen? && s.published == Some(q.version) && ForPeriodOf(q.version, key, iface)
        case _ => false)
  }

  lemma ActMoves(s: System, a: Action, pid: nat)
    ensures Moves(s, a, pid, ProcessOf(Act(s, a), pid))
  {
    if Takes(a, pid) {
      OwnActMoves(s, a);
    } else {
      OthersActLeaves(s, a, pid);
    }
  }

  lemma OwnActMoves(s: System, a: Action)
    requires !a.Count?
    ensures Moves(s, a, a.pid, ProcessOf(Act(s, a), a.pid))
  {
  }

  lemma OthersActLeaves(s: System, a: Action, pid: nat)
    requires !Takes(a, pid)
    ensures ProcessOf(Act(s, a), pid) == ProcessOf(s, pid)
  {
  }

  lemma StepMoves(counters: Reading, actions: seq<Action>, pid: nat, n: nat)
    requires n < |actions|
    ensures Moves(At(counters, actions, n), actions[n], pid, ProcessOf(At(counters, actions, n + 1), pid))
  {
    AtNext(counters, actions, n);
    ActMoves(At(counters, actions, n), actions[n], pid);
  }

  lemma {:induction false} WhatIsHeldWasGathered(counters: Reading, actions: seq<Action>, pid: nat, n: nat) returns (k: nat)
    requires n <= |actions| && !ProcessOf(At(counters, actions, n), pid).Idle?
    ensures k < n && Busy(counters, actions, pid, k, n) && Gathered(counters, actions, pid, k, n)
    decreases n
  {
    assert n > 0;
    if ProcessOf(At(counters, actions, n - 1), pid).Idle? {
      k := n - 1;
      StartGathers(counters, actions, pid, k);
    } else {
      k := WhatIsHeldWasGathered(counters, actions, pid, n - 1);
      GatheringGoesOn(counters, actions, pid, k, n - 1);
    }
  }

  lemma StartGathers(counters: Reading, actions: seq<Action>, pid: nat, k: nat)
    requires k < |actions|
    requires ProcessOf(At(counters, actions, k), pid).Idle? && !ProcessOf(At(counters, actions, k + 1), pid).Idle?
    ensures Gathered(counters, actions, pid, k, k + 1)
  {
    StepMoves(counters, actions, pid, k);
  }

  lemma GatheringGoesOn(counters: Reading, actions: seq<Action>, pid: nat, k: nat, n: nat)
    requires k < n < |actions| && Gathered(counters, actions, pid, k, n)
    requires !ProcessOf(At(counters, actions, n + 1), pid).Idle?
    ensures Gathered(counters, actions, pid, k, n + 1)
  {
    StepMoves(counters, actions, pid, n);
    var p, q := ProcessOf(At(counters, actions, n), pid), ProcessOf(At(counters, actions, n + 1), pid);
    if q.Writing? {
      WritingGoesOn(counters, actions, pid, k, n);
    }
  }

  lemma WritingGoesOn(counters: Reading, actions: seq<Action>, pid: nat, k: nat, n: nat)
    requires k < n < |actions| && Gathered(counters, actions, pid, k, n)
    requires ProcessOf(At(counters, actions, n + 1), pid).Writing?
    ensures Gathered(counters, actions, pid, k, n + 1)
  {
    StepMoves(counters, actions, pid, n);
    var p, q := ProcessOf(At(counters, actions, n), pid), ProcessOf(At(counters, actions, n + 1), pid);
    if q.event.CorrectEvent? {
      if p.Writing? {
        var m :| k < m < n && Plans(counters, actions, pid, k, m, p.event);
        assert Plans(counters, actions, pid, k, m, q.event);
      } else {
        assert Plans(counters, actions, pid, k, n, q.event);
      }
    }
    if q.whole {
      if p.Writing? && p.whole {
        var w :| k < w < n && WritesOut(counters, actions, pid, k, w, p.event);
        assert WritesOut(counters, actions, pid, k, w, q.event);
      } else {
        assert WritesOut(counters, actions, pid, k, n, q.event);
      }
    }
  }

  // ---------------------------------------------------------------- reports

  lemma ReportsGrow(counters: Reading, actions: seq<Action>, n: nat)
    requires n < |actions|
    ensures var s, t := At(counters, actions, n), At(counters, actions, n + 1);
            || t.reports == s.reports
            || (actions[n].FinishReport? && ProcessOf(s, actions[n].pid).Seen?
                && t.reports == s.reports + [Report(ProcessOf(s, actions[n].pid).version, s.counters)])
  {
    AtNext(counters, actions, n);
  }

  /** A report of the file as it was when action k read it and of the counters as they were at action m. */
  ghost predicate ReportOf(counters: Reading, actions: seq<Action>, k: nat, m: nat, r: Report)
    requires k < m < |actions|
  {
    exists pid ::
      && actions[m] == FinishReport(pid)
      && ReadsFile(counters, actions, pid, k, r.version)
      && Busy(counters, actions, pid, k, m)
      && r.reading == At(counters, actions, m).counters
  }

  /**
    In every interleaving each report is of the version that was the published
    file when its process read it, at the counters of the moment it finished.
   */
  lemma {:induction false} EveryReportIsOfTheFileItRead(counters: Reading, actions: seq<Action>, n: nat, i: nat) returns (k: nat, m: nat)
    requires n <= |actions| && i < |At(counters, actions, n).reports|
    ensures k < m < n && ReportOf(counters, actions, k, m, At(counters, actions, n).reports[i])
    ensures At(counters, actions, k).published == Run(None, At(counters, actions, k).writes)
    decreases n
  {
    ReportsGrow(counters, actions, n - 1);
    var before, a := At(counters, actions, n - 1), actions[n - 1];
    if i < |before.reports| {
      k, m := EveryReportIsOfTheFileItRead(counters, actions, n - 1, i);
    } else {
      m := n - 1;
      k := WhatIsHeldWasGathered(counters, actions, a.pid, m);
      assert ReportOf(counters, actions, k, m, At(counters, actions, n).reports[i]);
      InterleavingsAreSerial(counters, actions[..k]);
    }
  }

  lemma {:induction false} OthersLeaveTheProcess(s: System, actions: seq<Action>, pid: nat)
    requires forall a :: a in actions ==> !Takes(a, pid)
    ensures ProcessOf(Exec(s, actions), pid) == ProcessOf(s, pid)
    decreases |actions|
  {
    if actions != [] {
      assert actions[0] in actions;
      OthersActLeaves(s, actions[0], pid);
      OthersLeaveTheProcess(Act(s, actions[0]), actions[1..], pid);
    }
  }

  /**
    A report that reads the file after any run, while other processes go on, is of
    what the writes up to its reading give, however many versions follow before it
    finishes, and of the counters at its end.
   */
  lemma AReportIsOfTheFileItReads(counters: Reading, first: seq<Action>, pid: nat, cycleKey: string, interface: string, middle: seq<Action>)
    requires forall a :: a in middle ==> !Takes(a, pid)
    requires var s := Exec(Init(counters), first);
             ProcessOf(s, pid).Idle? && s.published.Some? && ForPeriodOf(s.published.value, cycleKey, interface)
    ensures var t := Exec(Init(counters), first + [ReadForReport(pid, cycleKey, interface)] + middle);
            var u := Exec(Init(counters), first + [ReadForReport(pid, cycleKey, interface)] + middle + [FinishReport(pid)]);
            var file := Run(None, Exec(Init(counters), first).writes);
            && file.Some?
            && u.reports == t.reports + [Report(file.value, t.counters)]
            && t.counters == u.counters
  {
    var s, read, finish := Exec(Init(counters), first), ReadForReport(pid, cycleKey, interface), FinishReport(pid);
    InterleavingsAreSerial(counters, first);
    ExecConcat(Init(counters), first, [read]);
    OneAction(s, read);
    ExecConcat(Init(counters), first + [read], middle);
    OthersLeaveTheProcess(Act(s, read), middle, pid);
    ExecConcat(Init(counters), first + [read] + middle, [finish]);
    OneAction(Exec(Init(counters), first + [read] + middle), finish);
  }

  // ---------------------------------------------------------------- writes

  lemma WritesGrow(counters: Reading, actions: seq<Action>, n: nat)
    requires n < |actions|
    ensures var s, t := At(counters, actions, n), At(counters, actions, n + 1);
            || t.writes == s.writes
            || (actions[n].Rename? && ProcessOf(s, actions[n].pid).Writing? && ProcessOf(s, actions[n].pid).whole
                && t.writes == s.writes + [ProcessOf(s, actions[n].pid).event])
  {
    AtNext(counters, actions, n);
  }

  /** A write whose period and counters, or whose correction, its process gathered between actions k and m, the rename of a file written out whole. */
  ghost predicate WriteOf(counters: Reading, actions: seq<Action>, k: nat, m: nat, e: Event)
    requires k < m < |actions|
  {
    exists pid ::
      && actions[m] == Rename(pid)
      && Busy(counters, actions, pid, k, m)
      && Sourced(counters, actions, pid, k, m, e)
      && exists w :: k < w < m && WritesOut(counters, actions, pid, k, w, e)
  }

  /**
    In every interleaving each committed write was made by one process without a
    break: a reset from the counters at its own measurement, for the period it was
    asked for then; a correction as it was asked for, from the counters it planned at;
    and either only after its temporary file was whole.
   */
  lemma {:induction false} EveryWriteWasMeasured(counters: Reading, actions: seq<Action>, n: nat, i: nat) returns (k: nat, m: nat)
    requires n <= |actions| && i < |At(counters, actions, n).writes|
    ensures k < m < n && WriteOf(counters, actions, k, m, At(counters, actions, n).writes[i])
    decreases n
  {
    WritesGrow(counters, actions, n - 1);
    var before, a := At(counters, actions, n - 1), actions[n - 1];
    if i < |before.writes| {
      k, m := EveryWriteWasMeasured(counters, actions, n - 1, i);
    } else {
      m := n - 1;
      k := WhatIsHeldWasGathered(counters, actions, a.pid, m);
      assert WriteOf(counters, actions, k, m, At(counters, actions, n).writes[i]);
    }
  }
}
