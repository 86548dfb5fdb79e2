/**
  state.json under concurrent resets, corrections and lock-free reports. Each read,
  lock, write and rename is a step, and any process may fail between two of them.
 */
module StateVersions {
  import opened Wrappers
  import opened Traffic
  import opened Chains

  datatype Process =
    | Idle
    // A reset reads its clock and the counters before it waits for the lock.
    | Measured(reset: Event)
    | ResetLocked(reset: Event)
    // A correction takes the lock first, then reads the state, then the counters.
    | CorrectLocked(cycleKey: string, interface: string, target: Target, at: int)
    | CorrectLoaded(cycleKey: string, interface: string, target: Target, at: int, prior: Option<TrafficState>)
    // The next version is going to a temporary file; `whole` once it is all there.
    | Writing(event: Event, next: TrafficState, whole: bool)
    // Renamed, the lock not yet released.
    | Published
    // A report has read the file and not yet the counters.
    | Seen(version: TrafficState)

  datatype Report = Report(version: TrafficState, reading: Reading)

  datatype System = System(
    published: Option<TrafficState>,
    lock: Option<nat>,
    processes: map<nat, Process>,
    counters: Reading,
    versions: seq<TrafficState>,
    writes: seq<Event>,
    reports: seq<Report>)

  datatype Action =
    | Count(reading: Reading)
    | Measure(pid: nat, cycleKey: string, interface: string)
    | LockForReset(pid: nat)
    | LoadForReset(pid: nat)
    | LockForCorrection(pid: nat, cycleKey: string, interface: string, target: Target, at: int)
    | LoadForCorrection(pid: nat)
    | PlanCorrection(pid: nat)
    | WriteTemporary(pid: nat)
    | Rename(pid: nat)
    | Release(pid: nat)
    | Fail(pid: nat)
    | ReadForReport(pid: nat, cycleKey: string, interface: string)
    | FinishReport(pid: nat)

  function Init(counters: Reading): System {
    System(None, None, map[], counters, [], [], [])
  }

  function ProcessOf(s: System, pid: nat): Process {
    if pid in s.processes then s.processes[pid] else Idle
  }

  predicate Critical(p: Process) {
    p.ResetLocked? || p.CorrectLocked? || p.CorrectLoaded? || p.Writing? || p.Published?
  }

  function Move(s: System, pid: nat, p: Process): System {
    s.(processes := s.processes[pid := p])
  }

  function Leave(s: System, pid: nat): System {
    Move(s, pid, Idle).(lock := if s.lock == Some(pid) then None else s.lock)
  }

  /** One atomic step; an action that is not enabled changes nothing. */
  function Act(s: System, a: Action): System {
    match a
    case Count(reading) => s.(counters := reading)
    case Measure(pid, key, iface) =>
      if ProcessOf(s, pid).Idle? then Move(s, pid, Measured(ResetEvent(key, iface, s.counters))) else s
    case LockForReset(pid) =>
      var p := ProcessOf(s, pid);
      if p.Measured? && s.lock.None? then Move(s, pid, ResetLocked(p.reset)).(lock := Some(pid)) else s
    case LoadForReset(pid) =>
      var p := ProcessOf(s, pid);
      if p.ResetLocked? && p.reset.ResetEvent? then
        var next := AfterReset(s.published, p.reset.cycleKey, p.reset.interface, p.reset.reading);
        // An unchanged state is not written again.
        if s.published == Some(next) then Leave(s, pid) else Move(s, pid, Writing(p.reset, next, false))
      else s
    case LockForCorrection(pid, key, iface, target, at) =>
      if ProcessOf(s, pid).Idle? && s.lock.None?
      then Move(s, pid, CorrectLocked(key, iface, target, at)).(lock := Some(pid)) else s
    case LoadForCorrection(pid) =>
      var p := ProcessOf(s, pid);
      if p.CorrectLocked? then Move(s, pid, CorrectLoaded(p.cycleKey, p.interface, p.target, p.at, s.published)) else s
    case PlanCorrection(pid) =>
      var p := ProcessOf(s, pid);
      if p.CorrectLoaded? then
        match AfterCorrection(p.prior, p.cycleKey, p.interface, s.counters, p.target, p.at)
        case Ok(next) => Move(s, pid, Writing(CorrectEvent(p.cycleKey, p.interface, s.counters, p.target, p.at), next, false))
        case Err(_) => Leave(s, pid)
      else s
    case WriteTemporary(pid) =>
      var p := ProcessOf(s, pid);
      if p.Writing? then Move(s, pid, p.(whole := true)) else s
    case Rename(pid) =>
      var p := ProcessOf(s, pid);
      if p.Writing? && p.whole
      then Move(s, pid, Published).(published := Some(p.next), versions := s.versions + [p.next], writes := s.writes + [p.event])
      else s
    case Release(pid) => if ProcessOf(s, pid).Published? then Leave(s, pid) else s
    case Fail(pid) => Leave(s, pid)
    case ReadForReport(pid, key, iface) =>
      if ProcessOf(s, pid).Idle? && s.published.Some? && s.published.value.cycleKey == key && s.published.value.interface == iface
      then Move(s, pid, Seen(s.published.value)) else s
    case FinishReport(pid) =>
      var p := ProcessOf(s, pid);
      if p.Seen? then Move(s, pid, Idle).(reports := s.reports + [Report(p.version, s.counters)]) else s
  }

  function Exec(s: System, actions: seq<Action>): System
    decreases |actions|
  {
    if actions == [] then s else Exec(Act(s, actions[0]), actions[1..])
  }

  // ---------------------------------------------------------------- invariant

  ghost predicate Consistent(s: System, p: Process) {
    match p
    case Measured(e) => e.ResetEvent?
    case ResetLocked(e) => e.ResetEvent?
    case CorrectLoaded(_, _, _, _, prior) => prior == s.published
    case Writing(e, next, _) => Some(next) == Step(s.published, e)
    case Seen(version) => version in s.versions
    case _ => true
  }

  ghost predicate Inv(s: System) {
    && Chain(Step, s.versions, s.writes)
    && s.published == Before(s.versions, |s.versions|)
    && (forall pid: nat :: Critical(ProcessOf(s, pid)) ==> s.lock == Some(pid))
    && (forall pid: nat :: Consistent(s, ProcessOf(s, pid)))
    && (forall r :: r in s.reports ==> r.version in s.versions)
  }

  lemma ActKeepsVersions(s: System, a: Action)
    requires Inv(s)
    ensures var t := Act(s, a);
            && Chain(Step, t.versions, t.writes)
            && t.published == Before(t.versions, |t.versions|)
            && (forall r :: r in t.reports ==> r.version in t.versions)
  {
    if a.Rename? || a.FinishReport? {
      var p := ProcessOf(s, a.pid);
      assert Consistent(s, p);
      if a.Rename? && p.Writing? && p.whole {
        ChainExtends(Step, s.versions, s.writes, p.next, p.event);
      }
    }
  }

  /** The process that acts. */
  lemma ActKeepsOwnProcess(s: System, a: Action)
    requires Inv(s) && !a.Count?
    ensures var t := Act(s, a);
            && (Critical(ProcessOf(t, a.pid)) ==> t.lock == Some(a.pid))
            && Consistent(t, ProcessOf(t, a.pid))
  {
    assert Consistent(s, ProcessOf(s, a.pid));
    assert Critical(ProcessOf(s, a.pid)) ==> s.lock == Some(a.pid);
  }

  /** Every other process: the lock keeps what it has loaded up to date. */
  lemma ActKeepsOtherProcess(s: System, a: Action, pid: nat)
    requires Inv(s) && (a.Count? || a.pid != pid)
    ensures var t := Act(s, a);
            && (Critical(ProcessOf(t, pid)) ==> t.lock == Some(pid))
            && Consistent(t, ProcessOf(t, pid))
  {
    assert Consistent(s, ProcessOf(s, pid));
    assert Critical(ProcessOf(s, pid)) ==> s.lock == Some(pid);
    if !a.Count? {
      assert Critical(ProcessOf(s, a.pid)) ==> s.lock == Some(a.pid);
    }
  }

  lemma ActKeepsInv(s: System, a: Action)
    requires Inv(s)
    ensures Inv(Act(s, a))
  {
    ActKeepsVersions(s, a);
    forall pid: nat
      ensures Critical(ProcessOf(Act(s, a), pid)) ==> Act(s, a).lock == Some(pid)
      ensures Consistent(Act(s, a), ProcessOf(Act(s, a), pid))
    {
      if !a.Count? && a.pid == pid {
        ActKeepsOwnProcess(s, a);
      } else {
        ActKeepsOtherProcess(s, a, pid);
      }
    }
  }

  lemma {:induction false} ExecKeepsInv(s: System, actions: seq<Action>)
    requires Inv(s)
    ensures Inv(Exec(s, actions))
    decreases |actions|
  {
    if actions != [] {
      ActKeepsInv(s, actions[0]);
      ExecKeepsInv(Act(s, actions[0]), actions[1..]);
    }
  }

  lemma {:induction false} RunConcat(s: Option<TrafficState>, a: seq<Event>, b: seq<Event>)
    ensures Run(s, a + b) == Run(Run(s, a), b)
    decreases |a|
  {
    if a == [] {
      assert a + b == b;
    } else {
      assert (a + b)[1..] == a[1..] + b;
      RunConcat(Step(s, a[0]), a[1..], b);
    }
  }

  lemma {:induction false} FoldIsRun(s: Option<TrafficState>, writes: seq<Event>)
    ensures Fold(Step, s, writes) == Run(s, writes)
    decreases |writes|
  {
    if writes != [] {
      var n := |writes| - 1;
      FoldIsRun(s, writes[..n]);
      assert writes == writes[..n] + [writes[n]];
      RunConcat(s, writes[..n], [writes[n]]);
      assert Run(Run(s, writes[..n]), [writes[n]]) == Run(Step(Run(s, writes[..n]), writes[n]), [writes[n]][1..]);
    }
  }

  /**
    In every interleaving the versions of the file form one chain of resets and
    corrections, the published file is what running those writes one after the
    other in rename order gives, and every report was made from a whole version.
   */
  lemma InterleavingsAreSerial(counters: Reading, actions: seq<Action>)
    ensures var s := Exec(Init(counters), actions);
            && Chain(Step, s.versions, s.writes)
            && s.published == Run(None, s.writes)
            && (s.published.Some? ==> s.versions != [] && s.published.value == s.versions[|s.versions| - 1])
            && (forall r :: r in s.reports ==> r.version in s.versions)
  {
    ReachableInv(counters, actions);
    InvIsSerial(Exec(Init(counters), actions));
  }

  lemma ReachableInv(counters: Reading, actions: seq<Action>)
    ensures Inv(Exec(Init(counters), actions))
  {
    ExecKeepsInv(Init(counters), actions);
  }

  lemma InvIsSerial(s: System)
    requires Inv(s)
    ensures Chain(Step, s.versions, s.writes)
    ensures forall r :: r in s.reports ==> r.version in s.versions
    ensures s.published == Run(None, s.writes)
    ensures s.published.Some? ==> s.versions != [] && s.published.value == s.versions[|s.versions| - 1]
  {
    ChainIsAFold(Step, s.versions, s.writes);
    FoldIsRun(None, s.writes);
  }

  /** Hence what holds after any serial run holds of the file under any interleaving. */
  lemma PublishedTotalCorrectionHitsItsTarget(counters: Reading, actions: seq<Action>, r: Reading, total: u64, at: int)
    requires Exec(Init(counters), actions).published.Some?
    ensures var s := Exec(Init(counters), actions).published.value;
            && Corrected(s, r, Total(total), at).Ok?
            && ReportedTotal(Corrected(s, r, Total(total), at).value, r) == total
  {
    InterleavingsAreSerial(counters, actions);
    TotalCorrectionHitsItsTarget(Exec(Init(counters), actions).writes, r, total, at);
  }

  // ---------------------------------------------------------------- corrections are kept

  predicate ForPeriodOf(s: TrafficState, cycleKey: string, interface: string) { s.cycleKey == cycleKey && s.interface == interface }

  ghost predicate SamePeriod(versions: seq<TrafficState>, from: nat, to: nat)
    requires from <= to < |versions|
  {
    forall k :: from <= k <= to ==> ForPeriodOf(versions[k], versions[from].cycleKey, versions[from].interface)
  }

  /** All corrections of a version stay in the later ones, in order. */
  ghost predicate CorrectionsKept(versions: seq<TrafficState>, from: nat, to: nat)
    requires from <= to < |versions|
  {
    forall k :: from <= k <= to ==> versions[from].corrections <= versions[k].corrections
  }

  /** Version k is one write applied to the version before it. */
  ghost predicate OneWrite(versions: seq<TrafficState>, writes: seq<Event>, k: nat)
    requires 0 < k < |versions| == |writes|
  {
    Some(versions[k]) == Step(Some(versions[k - 1]), writes[k])
  }

  ghost predicate Linked(versions: seq<TrafficState>, writes: seq<Event>) {
    |versions| == |writes| && forall k {:trigger OneWrite(versions, writes, k)} :: 0 < k < |versions| ==> OneWrite(versions, writes, k)
  }

  lemma ReachableIsLinked(counters: Reading, actions: seq<Action>)
    ensures var s := Exec(Init(counters), actions); Linked(s.versions, s.writes)
  {
    InterleavingsAreSerial(counters, actions);
  }

  /** One write drops corrections exactly when it is a reset made for another period or interface. */
  lemma CorrectionsDroppedIffPeriodChanges(before: TrafficState, e: Event)
    requires before.corrections != []
    ensures var after := Step(Some(before), e).value;
            before.corrections <= after.corrections
            <==> !(e.ResetEvent? && (e.cycleKey != before.cycleKey || e.interface != before.interface))
  {
    if e.ResetEvent? && (e.cycleKey != before.cycleKey || e.interface != before.interface) {
      assert Step(Some(before), e).value.corrections == [];
    } else {
      assert before.cycleKey == Step(Some(before), e).value.cycleKey;
    }
  }

  lemma {:induction false} SamePeriodKeepsCorrections(versions: seq<TrafficState>, writes: seq<Event>, i: nat, j: nat)
    requires Linked(versions, writes) && i <= j < |versions| && SamePeriod(versions, i, j)
    ensures CorrectionsKept(versions, i, j)
    decreases j - i
  {
    if i < j {
      assert SamePeriod(versions, i, j - 1);
      SamePeriodKeepsCorrections(versions, writes, i, j - 1);
      assert OneWrite(versions, writes, j);
    }
  }

  /** A version that holds corrections is of the period of the one before it. */
  lemma AnotherPeriodStartsWithout(versions: seq<TrafficState>, writes: seq<Event>, j: nat)
    requires Linked(versions, writes) && 0 < j < |versions| && versions[j].corrections != []
    ensures ForPeriodOf(versions[j], versions[j - 1].cycleKey, versions[j - 1].interface)
  {
    assert OneWrite(versions, writes, j);
  }

  lemma {:induction false} KeptCorrectionsMeanSamePeriod(versions: seq<TrafficState>, writes: seq<Event>, i: nat, j: nat)
    requires Linked(versions, writes) && i <= j < |versions|
    requires versions[i].corrections != [] && CorrectionsKept(versions, i, j)
    ensures SamePeriod(versions, i, j)
    decreases j - i
  {
    if i < j {
      assert CorrectionsKept(versions, i, j - 1);
      KeptCorrectionsMeanSamePeriod(versions, writes, i, j - 1);
      assert versions[i].corrections <= versions[j].corrections;
      AnotherPeriodStartsWithout(versions, writes, j);
    }
  }

  /** Every reset committed after version i, up to version j, was measured for the period of version i. */
  ghost predicate NoForeignReset(versions: seq<TrafficState>, writes: seq<Event>, i: nat, j: nat)
    requires i <= j < |versions| == |writes|
  {
    forall k :: i < k <= j && writes[k].ResetEvent? ==> ForPeriodOf(versions[i], writes[k].cycleKey, writes[k].interface)
  }

  lemma {:induction false} SamePeriodIffNoForeignReset(versions: seq<TrafficState>, writes: seq<Event>, i: nat, j: nat)
    requires Linked(versions, writes) && i <= j < |versions|
    ensures SamePeriod(versions, i, j) <==> NoForeignReset(versions, writes, i, j)
    decreases j - i
  {
    if i < j {
      SamePeriodIffNoForeignReset(versions, writes, i, j - 1);
      assert OneWrite(versions, writes, j);
      if SamePeriod(versions, i, j - 1) {
        assert SamePeriod(versions, i, j) <==> ForPeriodOf(versions[j], versions[i].cycleKey, versions[i].interface);
      } else {
        assert SamePeriod(versions, i, j) ==> SamePeriod(versions, i, j - 1);
      }
    }
  }

  /**
    Under any interleaving, the corrections of a version stay in all later ones
    exactly as long as every reset committed in between was measured for its
    period: a reset that read its clock in another period, however long before
    its commit, drops them.
   */
  lemma NoCorrectionIsLostWithinAPeriod(counters: Reading, actions: seq<Action>, i: nat, j: nat)
    requires i <= j < |Exec(Init(counters), actions).versions|
    ensures var s := Exec(Init(counters), actions);
            && |s.writes| == |s.versions|
            && (SamePeriod(s.versions, i, j) ==> CorrectionsKept(s.versions, i, j))
            && (s.versions[i].corrections != [] ==> (CorrectionsKept(s.versions, i, j) <==> SamePeriod(s.versions, i, j)))
            && (SamePeriod(s.versions, i, j) <==> NoForeignReset(s.versions, s.writes, i, j))
  {
    ReachableIsLinked(counters, actions);
    var s := Exec(Init(counters), actions);
    SamePeriodIffNoForeignReset(s.versions, s.writes, i, j);
    if SamePeriod(s.versions, i, j) {
      SamePeriodKeepsCorrections(s.versions, s.writes, i, j);
    } else if s.versions[i].corrections != [] && CorrectionsKept(s.versions, i, j) {
      KeptCorrectionsMeanSamePeriod(s.versions, s.writes, i, j);
    }
  }

  // ---------------------------------------------------------------- conservation

  predicate OneBoot(xs: seq<Sample>) { forall i :: 0 <= i < |xs| ==> xs[i].bootId == xs[0].bootId }

  /** How far committed readings fell behind the baseline they were committed over. */
  function Backslide(xs: seq<Sample>, i: nat): nat
    requires i <= |xs|
    decreases |xs| - i
  {
    if i + 1 >= |xs| then 0
    else (if xs[i + 1].count < xs[i].count then xs[i].count - xs[i + 1].count else 0) + Backslide(xs, i + 1)
  }

  lemma {:induction false} StretchTotalIsGainPlusBackslide(xs: seq<Sample>, i: nat)
    requires OneBoot(xs) && i < |xs|
    ensures StretchTotal(xs, i) == xs[|xs| - 1].count - xs[i].count + Backslide(xs, i)
    decreases |xs| - i
  {
    if i + 1 == |xs| {
      assert StretchTotal(xs, i + 1) == 0;
    } else {
      StretchTotalStep(xs, i);
      StretchTotalIsGainPlusBackslide(xs, i + 1);
    }
  }

  lemma {:induction false} NoBackslideIsFresh(xs: seq<Sample>, i: nat)
    requires i <= |xs|
    ensures Backslide(xs, i) == 0 <==> forall k :: i <= k && k + 1 < |xs| ==> xs[k].count <= xs[k + 1].count
    decreases |xs| - i
  {
    if i + 1 < |xs| {
      NoBackslideIsFresh(xs, i + 1);
    }
  }

  /** No sample is below the one before it. */
  predicate NoneStale(xs: seq<Sample>) {
    forall k :: 0 <= k && k + 1 < |xs| ==> xs[k].count <= xs[k + 1].count
  }

  function Gain(xs: seq<Sample>): int
    requires xs != []
  {
    xs[|xs| - 1].count - xs[0].count
  }

  /** Exactly what the counter gained is added, capped, if and only if no sample is stale or the cap is reached; else more. */
  ghost predicate GrowsByTheGain(start: u64, xs: seq<Sample>, accumulated: u64)
    requires xs != []
  {
    && Min(U64_MAX, start + Gain(xs)) <= accumulated
    && (accumulated == Min(U64_MAX, start + Gain(xs)) <==> NoneStale(xs) || start + Gain(xs) >= U64_MAX)
  }

  /** From what was accumulated at the first sample, at least the gain is added, and more as soon as one sample is stale. */
  lemma AccumulatesTheGainIff(xs: seq<Sample>, start: u64)
    requires xs != [] && OneBoot(xs)
    ensures GrowsByTheGain(start, xs, Min(U64_MAX, start + StretchTotal(xs, 0)))
  {
    StretchTotalIsGainPlusBackslide(xs, 0);
    NoBackslideIsFresh(xs, 0);
  }

  /** A reset of the period and boot, or a total correction: what leaves the counting as it is. */
  predicate CountsInPeriod(e: Event, s: TrafficState) {
    match e
    case ResetEvent(cycleKey, interface, reading) => ForPeriodOf(s, cycleKey, interface) && reading.bootId == s.bootId
    case CorrectEvent(_, _, _, target, _) => target.Total?
  }

  /** The readings of the resets among the writes. */
  function ResetReadings(writes: seq<Event>): seq<Reading> {
    if writes == [] then []
    else
      var last := writes[|writes| - 1];
      ResetReadings(writes[..|writes| - 1]) + (if last.ResetEvent? then [last.reading] else [])
  }

  lemma {:induction false} ResetReadingsAreOneBoot(writes: seq<Event>, s: TrafficState)
    requires forall e :: e in writes ==> CountsInPeriod(e, s)
    ensures forall r :: r in ResetReadings(writes) ==> r.bootId == s.bootId
  {
    if writes != [] {
      var n := |writes| - 1;
      assert writes[n] in writes;
      ResetReadingsAreOneBoot(writes[..n], s);
    }
  }

  lemma {:induction false} ResetsStayInPeriod(s: TrafficState, rs: seq<Reading>)
    ensures ForPeriodOf(Resets(s, rs), s.cycleKey, s.interface)
    decreases |rs|
  {
    if rs != [] {
      ResetsStayInPeriod(Accumulated(s, rs[0]), rs[1..]);
    }
  }

  /** Apart from its corrections, a later version is what the resets in between make of the earlier one. */
  lemma {:induction false} LaterVersionCounts(versions: seq<TrafficState>, writes: seq<Event>, i: nat, j: nat)
    requires Linked(versions, writes) && i <= j < |versions|
    requires forall k :: i < k <= j ==> CountsInPeriod(writes[k], versions[i])
    ensures CountedOn(versions[i], ResetReadings(writes[i + 1..j + 1]), versions[j])
    decreases j - i
  {
    if i < j {
      var earlier, all := writes[i + 1..j], writes[i + 1..j + 1];
      assert all == earlier + [writes[j]] && all[..|all| - 1] == earlier;
      LaterVersionCounts(versions, writes, i, j - 1);
      assert OneWrite(versions, writes, j);
      OneWriteCounts(versions[i], ResetReadings(earlier), versions[j - 1], writes[j], versions[j]);
    } else {
      assert writes[i + 1..j + 1] == [];
    }
  }

  ghost predicate CountedOn(from: TrafficState, rs: seq<Reading>, to: TrafficState) {
    to == Resets(from, rs).(corrections := to.corrections)
  }

  lemma OneWriteCounts(from: TrafficState, rs: seq<Reading>, before: TrafficState, e: Event, after: TrafficState)
    requires CountedOn(from, rs, before) && CountsInPeriod(e, from) && Some(after) == Step(Some(before), e)
    ensures CountedOn(from, rs + (if e.ResetEvent? then [e.reading] else []), after)
  {
    if e.ResetEvent? {
      ResetsStayInPeriod(from, rs);
      ResetsConcat(from, rs, [e.reading]);
    } else {
      assert rs + [] == rs;
    }
  }

  /** The readings a state was counted over: its baseline, and what was read after it. */
  function FromBaseline(s: TrafficState, rs: seq<Reading>): seq<Reading> {
    [Reading(s.bootId, s.baselineRx, s.baselineTx)] + rs
  }

  lemma RxAddsStretches(s: TrafficState, rs: seq<Reading>)
    ensures Resets(s, rs).accumulatedRx == Min(U64_MAX, s.accumulatedRx + StretchTotal(RxSamples(FromBaseline(s, rs)), 0))
  {
    var all := FromBaseline(s, rs);
    assert all[1..] == rs;
    ResetsCount(all, 0, s);
    CountedIsStretchTotal(RxSamples(all), 0, s.accumulatedRx);
  }

  lemma TxAddsStretches(s: TrafficState, rs: seq<Reading>)
    ensures Resets(s, rs).accumulatedTx == Min(U64_MAX, s.accumulatedTx + StretchTotal(TxSamples(FromBaseline(s, rs)), 0))
  {
    var all := FromBaseline(s, rs);
    assert all[1..] == rs;
    ResetsCount(all, 0, s);
    CountedIsStretchTotal(TxSamples(all), 0, s.accumulatedTx);
  }

  ghost predicate ConservedUnlessStale(from: TrafficState, rs: seq<Reading>, to: TrafficState) {
    && GrowsByTheGain(from.accumulatedRx, RxSamples(FromBaseline(from, rs)), to.accumulatedRx)
    && GrowsByTheGain(from.accumulatedTx, TxSamples(FromBaseline(from, rs)), to.accumulatedTx)
  }

  /**
    Traffic is conserved exactly when no commit is stale: under any interleaving,
    between any two versions with only resets of the first one's period and boot
    and total corrections in between, each direction grows by what its counter
    gained since the first version's baseline if and only if no reset committed a
    reading older than the baseline it found (or the cap is reached). A stale
    reading committed in its own period always counts too much.
   */
  lemma ConservedIffNoCommitIsStale(counters: Reading, actions: seq<Action>, i: nat, j: nat)
    requires i <= j < |Exec(Init(counters), actions).versions|
    requires var s := Exec(Init(counters), actions);
             forall k :: i < k <= j && k < |s.writes| ==> CountsInPeriod(s.writes[k], s.versions[i])
    ensures var s := Exec(Init(counters), actions);
            |s.writes| == |s.versions| && ConservedUnlessStale(s.versions[i], ResetReadings(s.writes[i + 1..j + 1]), s.versions[j])
  {
    ReachableIsLinked(counters, actions);
    var s := Exec(Init(counters), actions);
    VersionsConserve(s.versions, s.writes, i, j);
  }

  lemma VersionsConserve(versions: seq<TrafficState>, writes: seq<Event>, i: nat, j: nat)
    requires Linked(versions, writes) && i <= j < |versions|
    requires forall k :: i < k <= j ==> CountsInPeriod(writes[k], versions[i])
    ensures ConservedUnlessStale(versions[i], ResetReadings(writes[i + 1..j + 1]), versions[j])
  {
    var from, rs := versions[i], ResetReadings(writes[i + 1..j + 1]);
    forall e | e in writes[i + 1..j + 1] ensures CountsInPeriod(e, from) {
      var k :| 0 <= k < j - i && writes[i + 1..j + 1][k] == e;
      assert writes[i + 1 + k] == e;
    }
    LaterVersionCounts(versions, writes, i, j);
    ResetReadingsAreOneBoot(writes[i + 1..j + 1], from);
    ResetsConserve(from, rs, versions[j]);
  }

  lemma ResetsConserve(from: TrafficState, rs: seq<Reading>, to: TrafficState)
    requires forall r :: r in rs ==> r.bootId == from.bootId
    requires CountedOn(from, rs, to)
    ensures ConservedUnlessStale(from, rs, to)
  {
    RxConserves(from, rs);
    TxConserves(from, rs);
  }

  lemma RxConserves(from: TrafficState, rs: seq<Reading>)
    requires forall r :: r in rs ==> r.bootId == from.bootId
    ensures GrowsByTheGain(from.accumulatedRx, RxSamples(FromBaseline(from, rs)), Resets(from, rs).accumulatedRx)
  {
    RxAddsStretches(from, rs);
    AccumulatesTheGainIff(RxSamples(FromBaseline(from, rs)), from.accumulatedRx);
  }

  lemma TxConserves(from: TrafficState, rs: seq<Reading>)
    requires forall r :: r in rs ==> r.bootId == from.bootId
    ensures GrowsByTheGain(from.accumulatedTx, TxSamples(FromBaseline(from, rs)), Resets(from, rs).accumulatedTx)
  {
    TxAddsStretches(from, rs);
    AccumulatesTheGainIff(TxSamples(FromBaseline(from, rs)), from.accumulatedTx);
  }

  function ResetBy(pid: nat): seq<Action> {
    [LockForReset(pid), LoadForReset(pid), WriteTemporary(pid), Rename(pid), Release(pid)]
  }

  /**
    The locking does permit a stale commit: two resets read 120 and 150, the
    later reading commits first, and a report at 150 then shows 80 bytes
    although the interface has carried 50 since the period began at 100.
   */
  lemma AStaleCommitCountsTwice()
    ensures var first := Reading("b", 100, 0);
            var actions := [Measure(0, "p", "e")] + ResetBy(0)
                         + [Count(Reading("b", 120, 0)), Measure(1, "p", "e"), Count(Reading("b", 150, 0)), Measure(2, "p", "e")]
                         + ResetBy(2) + ResetBy(1);
            var s := Exec(Init(first), actions);
            && s.counters == Reading("b", 150, 0)
            && s.published.Some?
            && LiveReported(s.published.value, s.counters) == (80, 0)
  {
    var first := Reading("b", 100, 0);
    var a0 := [Measure(0, "p", "e")] + ResetBy(0);
    var a1 := [Count(Reading("b", 120, 0)), Measure(1, "p", "e"), Count(Reading("b", 150, 0)), Measure(2, "p", "e")];
    var s0 := Act(Init(first), Measure(0, "p", "e"));
    ExecConcat(Init(first), [Measure(0, "p", "e")], ResetBy(0));
    OneAction(Init(first), Measure(0, "p", "e"));
    ResetCommits(s0, 0);
    var s1 := Exec(s0, ResetBy(0));
    ExecConcat(Init(first), a0, a1);
    TwoMeasure(s1);
    var s2 := Exec(s1, a1);
    ExecConcat(Init(first), a0 + a1, ResetBy(2));
    ResetCommits(s2, 2);
    var s3 := Exec(s2, ResetBy(2));
    ExecConcat(Init(first), a0 + a1 + ResetBy(2), ResetBy(1));
    ResetCommits(s3, 1);
    LateCommitGains();
  }

  function CorrectBy(pid: nat, cycleKey: string, interface: string, target: Target): seq<Action> {
    [LockForCorrection(pid, cycleKey, interface, target, 0), LoadForCorrection(pid), PlanCorrection(pid),
     WriteTemporary(pid), Rename(pid), Release(pid)]
  }

  /** The run below, in its four parts. */
  function TwoPeriodsMeasured(): seq<Action> { [Measure(1, "o", "e"), Measure(0, "n", "e")] + ResetBy(0) }

  function CorrectedThenLate(): seq<Action> { CorrectBy(0, "n", "e", Total(500)) + ResetBy(1) }

  function NextReset(): seq<Action> { [Count(Reading("b", 150, 0)), Measure(0, "n", "e")] + ResetBy(0) }

  /**
    The clock, too, is read before the lock: a reset measured for the old period
    "o" commits after the new period "n" has begun and been corrected to 500
    bytes. After the next reset of "n" the file is of the same period again, but
    the correction is gone, and so are the 50 bytes carried since.
   */
  lemma ALatePeriodDropsTheCorrection()
    ensures var s := Exec(Init(Reading("b", 100, 0)), TwoPeriodsMeasured() + CorrectedThenLate() + NextReset());
            && |s.versions| == 4
            && ForPeriodOf(s.versions[3], s.versions[1].cycleKey, s.versions[1].interface)
            && |s.versions[1].corrections| == 1 && s.versions[3].corrections == []
            && ReportedTotal(s.versions[1], Reading("b", 100, 0)) == 500
            && s.published == Some(s.versions[3]) && s.counters == Reading("b", 150, 0)
            && ReportedTotal(s.versions[3], s.counters) == 0
  {
    var start := Init(Reading("b", 100, 0));
    ExecConcat(start, TwoPeriodsMeasured() + CorrectedThenLate(), NextReset());
    ExecConcat(start, TwoPeriodsMeasured(), CorrectedThenLate());
    var first := Reading("b", 100, 0);
    var v0 := New("n", "e", first);
    TwoPeriodsMeasuredGive(start);
    var s1 := Exec(start, TwoPeriodsMeasured());
    PeriodsDiffer();
    var v1 := Corrected(v0, first, Total(500), 0).value;
    LateResetGives(s1, v0, v1);
    var s2 := Exec(s1, CorrectedThenLate());
    NextResetGives(s2);
    CorrectedToTheTarget(v0, first, v1);
  }

  lemma PeriodsDiffer()
    ensures "o" != "n"
  {
    assert "o"[0] != "n"[0];
  }

  lemma CorrectedToTheTarget(v0: TrafficState, r: Reading, v1: TrafficState)
    requires v0 == New("n", "e", r) && Corrected(v0, r, Total(500), 0) == Ok(v1)
    ensures |v1.corrections| == 1 && ReportedTotal(v1, r) == 500
  {
    TotalCorrection(v0, r, 500, 0);
  }

  lemma TwoPeriodsMeasuredGive(s: System)
    requires s == Init(Reading("b", 100, 0))
    ensures var t := Exec(s, TwoPeriodsMeasured());
            && t.published == Some(New("n", "e", s.counters)) && t.versions == [New("n", "e", s.counters)]
            && t.lock == None && t.counters == s.counters
            && ProcessOf(t, 0) == Idle && ProcessOf(t, 1) == Measured(ResetEvent("o", "e", s.counters))
  {
    var measured := [Measure(1, "o", "e"), Measure(0, "n", "e")];
    ExecConcat(s, measured, ResetBy(0));
    TwoActions(s, measured);
    ResetCommits(Exec(s, measured), 0);
  }

  lemma LateResetGives(s: System, v0: TrafficState, v1: TrafficState)
    requires s.published == Some(v0) && v0 == New("n", "e", s.counters) && s.versions == [v0] && s.lock == None
    requires ProcessOf(s, 0) == Idle && ProcessOf(s, 1) == Measured(ResetEvent("o", "e", s.counters))
    requires Corrected(v0, s.counters, Total(500), 0) == Ok(v1) && "o" != "n"
    ensures var t := Exec(s, CorrectedThenLate());
            && t.published == Some(New("o", "e", s.counters)) && t.versions == [v0, v1, New("o", "e", s.counters)]
            && t.lock == None && ProcessOf(t, 0) == Idle
  {
    ExecConcat(s, CorrectBy(0, "n", "e", Total(500)), ResetBy(1));
    CorrectionCommits(s, 0, "n", "e", Total(500));
    ResetCommits(Exec(s, CorrectBy(0, "n", "e", Total(500))), 1);
    assert [v0] + [v1] + [New("o", "e", s.counters)] == [v0, v1, New("o", "e", s.counters)];
  }

  lemma NextResetGives(s: System)
    requires s.published == Some(New("o", "e", Reading("b", 100, 0))) && s.lock == None && ProcessOf(s, 0) == Idle
    ensures var t := Exec(s, NextReset());
            && t.counters == Reading("b", 150, 0) && t.published == Some(New("n", "e", t.counters))
            && t.versions == s.versions + [New("n", "e", t.counters)]
  {
    var measured := [Count(Reading("b", 150, 0)), Measure(0, "n", "e")];
    ExecConcat(s, measured, ResetBy(0));
    TwoActions(s, measured);
    PeriodsDiffer();
    ResetCommits(Exec(s, measured), 0);
  }

  lemma TwoActions(s: System, actions: seq<Action>)
    requires |actions| == 2
    ensures Exec(s, actions) == Act(Act(s, actions[0]), actions[1])
  {
    assert actions == [actions[0]] + [actions[1]];
    ExecConcat(s, [actions[0]], [actions[1]]);
    OneAction(s, actions[0]);
    OneAction(Act(s, actions[0]), actions[1]);
  }

  /** A correction that is let run commits what it planned. */
  lemma CorrectionCommits(s: System, pid: nat, cycleKey: string, interface: string, target: Target)
    requires ProcessOf(s, pid) == Idle && s.lock.None?
    requires AfterCorrection(s.published, cycleKey, interface, s.counters, target, 0).Ok?
    ensures var t, next := Exec(s, CorrectBy(pid, cycleKey, interface, target)),
                           AfterCorrection(s.published, cycleKey, interface, s.counters, target, 0).value;
            && t.published == Some(next) && t.versions == s.versions + [next]
            && t.lock == None && t.counters == s.counters
            && ProcessOf(t, pid) == Idle
            && (forall other: nat :: other != pid ==> ProcessOf(t, other) == ProcessOf(s, other))
  {
    var actions := CorrectBy(pid, cycleKey, interface, target);
    assert actions == actions[..4] + [Rename(pid), Release(pid)];
    ExecConcat(s, actions[..4], [Rename(pid), Release(pid)]);
    CorrectionIsWritten(s, pid, cycleKey, interface, target);
    RenameAndRelease(Exec(s, actions[..4]), pid);
  }

  lemma RenameAndRelease(s: System, pid: nat)
    requires ProcessOf(s, pid).Writing? && ProcessOf(s, pid).whole && s.lock == Some(pid)
    ensures var t := Exec(s, [Rename(pid), Release(pid)]);
            && t.published == Some(ProcessOf(s, pid).next) && t.versions == s.versions + [ProcessOf(s, pid).next]
            && t.lock == None && t.counters == s.counters
            && ProcessOf(t, pid) == Idle
            && (forall other: nat :: other != pid ==> ProcessOf(t, other) == ProcessOf(s, other))
  {
    TwoActions(s, [Rename(pid), Release(pid)]);
  }

  lemma CorrectionIsWritten(s: System, pid: nat, cycleKey: string, interface: string, target: Target)
    requires ProcessOf(s, pid) == Idle && s.lock.None?
    requires AfterCorrection(s.published, cycleKey, interface, s.counters, target, 0).Ok?
    ensures var t, next := Exec(s, CorrectBy(pid, cycleKey, interface, target)[..4]),
                           AfterCorrection(s.published, cycleKey, interface, s.counters, target, 0).value;
            && t == s.(lock := Some(pid), processes := t.processes)
            && ProcessOf(t, pid) == Writing(CorrectEvent(cycleKey, interface, s.counters, target, 0), next, true)
            && (forall other: nat :: other != pid ==> ProcessOf(t, other) == ProcessOf(s, other))
  {
    FourActions(s, CorrectBy(pid, cycleKey, interface, target)[..4]);
  }

  lemma TwoMeasure(s: System)
    requires ProcessOf(s, 1).Idle? && ProcessOf(s, 2).Idle?
    ensures var t := Exec(s, [Count(Reading("b", 120, 0)), Measure(1, "p", "e"), Count(Reading("b", 150, 0)), Measure(2, "p", "e")]);
            && ProcessOf(t, 1) == Measured(ResetEvent("p", "e", Reading("b", 120, 0)))
            && ProcessOf(t, 2) == Measured(ResetEvent("p", "e", Reading("b", 150, 0)))
            && t.published == s.published && t.lock == s.lock && t.counters == Reading("b", 150, 0)
  {
    FourActions(s, [Count(Reading("b", 120, 0)), Measure(1, "p", "e"), Count(Reading("b", 150, 0)), Measure(2, "p", "e")]);
  }

  lemma LateCommitGains()
    ensures var v0 := New("p", "e", Reading("b", 100, 0));
            var v1 := AfterReset(Some(v0), "p", "e", Reading("b", 150, 0));
            var v2 := AfterReset(Some(v1), "p", "e", Reading("b", 120, 0));
            LiveReported(v2, Reading("b", 150, 0)) == (80, 0)
  {
  }

  lemma OneAction(s: System, a: Action)
    ensures Exec(s, [a]) == Act(s, a)
  {
    assert Exec(Act(s, a), [a][1..]) == Act(s, a);
  }

  lemma FourActions(s: System, actions: seq<Action>)
    requires |actions| == 4
    ensures Exec(s, actions) == Act(Act(Act(Act(s, actions[0]), actions[1]), actions[2]), actions[3])
  {
    assert actions == [actions[0]] + ([actions[1]] + ([actions[2]] + [actions[3]]));
    ExecConcat(s, [actions[0]], [actions[1]] + ([actions[2]] + [actions[3]]));
    OneAction(s, actions[0]);
    var t := Act(s, actions[0]);
    ExecConcat(t, [actions[1]], [actions[2]] + [actions[3]]);
    OneAction(t, actions[1]);
    var u := Act(t, actions[1]);
    ExecConcat(u, [actions[2]], [actions[3]]);
    OneAction(u, actions[2]);
    OneAction(Act(u, actions[2]), actions[3]);
  }

  lemma {:induction false} ExecConcat(s: System, a: seq<Action>, b: seq<Action>)
    ensures Exec(s, a + b) == Exec(Exec(s, a), b)
    decreases |a|
  {
    if a == [] {
      assert a + b == b;
    } else {
      assert (a + b)[1..] == a[1..] + b;
      ExecConcat(Act(s, a[0]), a[1..], b);
    }
  }

  /** A reset that is let run from its lock to its release commits what it measured. */
  lemma ResetCommits(s: System, pid: nat)
    requires ProcessOf(s, pid).Measured? && ProcessOf(s, pid).reset.ResetEvent? && s.lock.None?
    ensures var e, t := ProcessOf(s, pid).reset, Exec(s, ResetBy(pid));
            && t.published == Some(AfterReset(s.published, e.cycleKey, e.interface, e.reading))
            && t.versions == (if s.published == t.published then s.versions else s.versions + [t.published.value])
            && t.lock == None && t.counters == s.counters
            && ProcessOf(t, pid) == Idle
            && (forall other: nat :: other != pid ==> ProcessOf(t, other) == ProcessOf(s, other))
  {
    var actions := ResetBy(pid);
    FourActions(s, actions[..4]);
    assert actions == actions[..4] + [actions[4]];
    ExecConcat(s, actions[..4], [actions[4]]);
    OneAction(Exec(s, actions[..4]), actions[4]);
  }
}
