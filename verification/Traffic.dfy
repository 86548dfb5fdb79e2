/**
  VPS traffic accounting: the persisted counter state, the reset that folds
  interface counters into it, and the administrator's two kinds of correction.
 */
module Traffic {
  import opened Wrappers

  // Counters are 64-bit and adjustments signed 128-bit: the source's saturating
  // and checked operations are written out.
  const U64_MAX: nat := 0xFFFF_FFFF_FFFF_FFFF
  const U128_MAX: nat := 0xFFFF_FFFF_FFFF_FFFF_FFFF_FFFF_FFFF_FFFF
  const I128_MAX: int := 0x7FFF_FFFF_FFFF_FFFF_FFFF_FFFF_FFFF_FFFF
  const I128_MIN: int := -I128_MAX - 1

  type u64 = n: nat | n <= U64_MAX
  type i128 = n: int | I128_MIN <= n <= I128_MAX

  datatype Reading = Reading(bootId: string, rx: u64, tx: u64)

  datatype Correction =
    | TotalAdjustment(bytes: i128, at: int)
    | SetDirection(rx: u64, tx: u64, at: int)

  datatype TrafficState = TrafficState(
    cycleKey: string, interface: string,
    baselineRx: u64, baselineTx: u64,
    accumulatedRx: u64, accumulatedTx: u64,
    bootId: string, corrections: seq<Correction>)

  datatype Target = Total(total: u64) | Directions(rx: u64, tx: u64)

  datatype Error = StateMissing | StateStale | Overflow

  datatype Preview = Preview(
    currentReceived: u64, currentTransmitted: u64, currentTotal: u64,
    targetReceived: u64, targetTransmitted: u64, targetTotal: u64)

  datatype Plan = Plan(state: TrafficState, preview: Preview)

  function Min(a: int, b: int): int { if a <= b then a else b }

  function SaturatingAdd(a: u64, b: u64): u64 { Min(U64_MAX, a + b) }

  function SaturatingAddSigned(a: i128, b: i128): i128 {
    if a + b > I128_MAX then I128_MAX else if a + b < I128_MIN then I128_MIN else a + b
  }

  // ---------------------------------------------------------------- state

  function New(cycleKey: string, interface: string, r: Reading): TrafficState {
    TrafficState(cycleKey, interface, r.rx, r.tx, 0, 0, r.bootId, [])
  }

  function Delta(sameBoot: bool, baseline: u64, now: u64): u64 {
    if sameBoot && now >= baseline then now - baseline else 0
  }

  /** The state a reset leaves: counter deltas added, the reading the new baseline. */
  function Accumulated(s: TrafficState, r: Reading): TrafficState {
    s.(accumulatedRx := SaturatingAdd(s.accumulatedRx, Delta(s.bootId == r.bootId, s.baselineRx, r.rx)),
       accumulatedTx := SaturatingAdd(s.accumulatedTx, Delta(s.bootId == r.bootId, s.baselineTx, r.tx)),
       baselineRx := r.rx, baselineTx := r.tx, bootId := r.bootId)
  }

  /** The source's field-by-field update. */
  method Accumulate(s: TrafficState, r: Reading) returns (next: TrafficState)
    ensures next == Accumulated(s, r)
  {
    next := s;
    if next.bootId == r.bootId {
      if r.rx >= next.baselineRx {
        next := next.(accumulatedRx := SaturatingAdd(next.accumulatedRx, r.rx - next.baselineRx));
      }
      if r.tx >= next.baselineTx {
        next := next.(accumulatedTx := SaturatingAdd(next.accumulatedTx, r.tx - next.baselineTx));
      }
    }
    next := next.(baselineRx := r.rx);
    next := next.(baselineTx := r.tx);
    next := next.(bootId := r.bootId);
  }

  /** What a report reads off the state without writing it. */
  function LiveReported(s: TrafficState, r: Reading): (u64, u64) {
    var deltaRx := if s.bootId == r.bootId && r.rx >= s.baselineRx then r.rx - s.baselineRx else 0;
    var deltaTx := if s.bootId == r.bootId && r.tx >= s.baselineTx then r.tx - s.baselineTx else 0;
    (SaturatingAdd(s.accumulatedRx, deltaRx), SaturatingAdd(s.accumulatedTx, deltaTx))
  }

  function Amount(c: Correction): i128 {
    match c
    case TotalAdjustment(bytes, _) => bytes
    case SetDirection(_, _, _) => 0
  }

  /** The saturating left fold over the correction list. */
  function AdjustmentOf(cs: seq<Correction>): i128 {
    if cs == [] then 0
    else SaturatingAddSigned(AdjustmentOf(cs[..|cs| - 1]), Amount(cs[|cs| - 1]))
  }

  /** The same sum in unbounded arithmetic. */
  function ExactAdjustmentOf(cs: seq<Correction>): int {
    if cs == [] then 0 else ExactAdjustmentOf(cs[..|cs| - 1]) + Amount(cs[|cs| - 1])
  }

  function CorrectedTotal(received: u64, transmitted: u64, adjustment: i128): u64 {
    var directions := received + transmitted;
    var adjusted :=
      if adjustment >= 0 then Min(U128_MAX, directions + adjustment)
      else if directions + adjustment >= 0 then directions + adjustment else 0;
    Min(adjusted, U64_MAX)
  }

  function ReportedTotal(s: TrafficState, r: Reading): u64 {
    var (received, transmitted) := LiveReported(s, r);
    CorrectedTotal(received, transmitted, AdjustmentOf(s.corrections))
  }

  /** The corrected state, or the source's overflow error. */
  function Corrected(s: TrafficState, r: Reading, target: Target, at: int): Result<TrafficState, Error> {
    match target
    case Total(total) =>
      var (received, transmitted) := LiveReported(s, r);
      var offset := total - (received + transmitted) - AdjustmentOf(s.corrections);
      if I128_MIN <= offset <= I128_MAX then
        Ok(s.(corrections := s.corrections + [TotalAdjustment(offset, at)]))
      else Err(Overflow)
    case Directions(rx, tx) =>
      if rx + tx > U64_MAX then Err(Overflow)
      else Ok(s.(accumulatedRx := rx, accumulatedTx := tx, baselineRx := r.rx, baselineTx := r.tx,
                 bootId := r.bootId, corrections := s.corrections + [SetDirection(rx, tx, at)]))
  }

  /** An honest preview: it shows what a report gives before and after the correction. */
  predicate Previews(p: Preview, before: TrafficState, after: TrafficState, r: Reading, target: Target) {
    && LiveReported(before, r) == (p.currentReceived, p.currentTransmitted)
    && ReportedTotal(before, r) == p.currentTotal
    && LiveReported(after, r) == (p.targetReceived, p.targetTransmitted)
    && p.targetTotal == if target.Total? then target.total else ReportedTotal(after, r)
  }

  method PlanCorrection(s: TrafficState, r: Reading, target: Target, at: int) returns (plan: Result<Plan, Error>)
    ensures plan.Ok? <==> Corrected(s, r, target, at).Ok?
    ensures plan.Err? ==> plan.error == Overflow
    ensures plan.Ok? ==> plan.value.state == Corrected(s, r, target, at).value
    ensures plan.Ok? ==> Previews(plan.value.preview, s, plan.value.state, r, target)
  {
    var (currentReceived, currentTransmitted) := LiveReported(s, r);
    var currentAdjustment := AdjustmentOf(s.corrections);
    var currentTotal := CorrectedTotal(currentReceived, currentTransmitted, currentAdjustment);
    var corrected := s;
    var targetReceived, targetTransmitted, targetTotal;
    match target {
      case Total(total) =>
        var targetAdjustment := total - (currentReceived + currentTransmitted);
        var offset := targetAdjustment - currentAdjustment;
        if offset < I128_MIN || offset > I128_MAX {
          return Err(Overflow);
        }
        corrected := corrected.(corrections := corrected.corrections + [TotalAdjustment(offset, at)]);
        targetReceived, targetTransmitted, targetTotal := currentReceived, currentTransmitted, total;
      case Directions(rx, tx) =>
        if rx + tx > U64_MAX {
          return Err(Overflow);
        }
        corrected := corrected.(accumulatedRx := rx);
        corrected := corrected.(accumulatedTx := tx);
        corrected := corrected.(baselineRx := r.rx);
        corrected := corrected.(baselineTx := r.tx);
        corrected := corrected.(bootId := r.bootId);
        corrected := corrected.(corrections := corrected.corrections + [SetDirection(rx, tx, at)]);
        targetReceived, targetTransmitted := rx, tx;
        targetTotal := CorrectedTotal(rx, tx, AdjustmentOf(corrected.corrections));
    }
    plan := Ok(Plan(corrected, Preview(currentReceived, currentTransmitted, currentTotal,
                                       targetReceived, targetTransmitted, targetTotal)));
  }

  // ---------------------------------------------------------------- stored state

  /** One authorised write: a reset or a correction, with the period and reading it was made in. */
  datatype Event =
    | ResetEvent(cycleKey: string, interface: string, reading: Reading)
    | CorrectEvent(cycleKey: string, interface: string, reading: Reading, target: Target, at: int)

  function AfterReset(s: Option<TrafficState>, cycleKey: string, interface: string, r: Reading): TrafficState {
    if s.None? || s.value.cycleKey != cycleKey || s.value.interface != interface then New(cycleKey, interface, r)
    else Accumulated(s.value, r)
  }

  function AfterCorrection(s: Option<TrafficState>, cycleKey: string, interface: string,
                           r: Reading, target: Target, at: int): Result<TrafficState, Error> {
    if s.None? then Err(StateMissing)
    else if s.value.cycleKey != cycleKey || s.value.interface != interface then Err(StateStale)
    else Corrected(s.value, r, target, at)
  }

  function Step(s: Option<TrafficState>, e: Event): Option<TrafficState> {
    match e
    case ResetEvent(key, iface, r) => Some(AfterReset(s, key, iface, r))
    case CorrectEvent(key, iface, r, target, at) =>
      match AfterCorrection(s, key, iface, r, target, at)
      case Ok(next) => Some(next)
      case Err(_) => s
  }

  function Run(s: Option<TrafficState>, events: seq<Event>): Option<TrafficState>
    decreases |events|
  {
    if events == [] then s else Run(Step(s, events[0]), events[1..])
  }

  /** The accounting state file together with its two writers and its reader. */
  class StateStore {
    var state: Option<TrafficState>

    constructor ()
      ensures state == None
    {
      state := None;
    }

    method Reset(cycleKey: string, interface: string, r: Reading) returns (report: (u64, u64))
      modifies this
      ensures state == Step(old(state), ResetEvent(cycleKey, interface, r))
      ensures report == LiveReported(state.value, r)
    {
      var current := if state.None? then New(cycleKey, interface, r) else state.value;
      if current.cycleKey != cycleKey || current.interface != interface {
        current := New(cycleKey, interface, r);
      } else {
        current := Accumulate(current, r);
      }
      state := Some(current);
      report := LiveReported(current, r);
    }

    method SetUsed(cycleKey: string, interface: string, r: Reading, target: Target, at: int)
      returns (preview: Result<Preview, Error>)
      modifies this
      ensures state == Step(old(state), CorrectEvent(cycleKey, interface, r, target, at))
      ensures preview.Err? <==> AfterCorrection(old(state), cycleKey, interface, r, target, at).Err?
      ensures preview.Err? ==> state == old(state)
                               && preview.error == AfterCorrection(old(state), cycleKey, interface, r, target, at).error
      ensures preview.Ok? ==> Previews(preview.value, old(state).value, state.value, r, target)
    {
      if state.None? {
        return Err(StateMissing);
      }
      if state.value.cycleKey != cycleKey || state.value.interface != interface {
        return Err(StateStale);
      }
      var plan := PlanCorrection(state.value, r, target, at);
      match plan {
        case Err(error) => preview := Err(error);
        case Ok(p) =>
          state := Some(p.state);
          preview := Ok(p.preview);
      }
    }

    method Report(cycleKey: string, interface: string, r: Reading) returns (report: Result<(u64, u64, u64), Error>)
      ensures report.Ok? <==> state.Some? && state.value.cycleKey == cycleKey && state.value.interface == interface
      ensures report.Ok? ==> report.value == (LiveReported(state.value, r).0, LiveReported(state.value, r).1,
                                              ReportedTotal(state.value, r))
      ensures report.Err? ==> report.error == if state.None? then StateMissing else StateStale
    {
      if state.None? {
        return Err(StateMissing);
      }
      if state.value.cycleKey != cycleKey || state.value.interface != interface {
        return Err(StateStale);
      }
      var (received, transmitted) := LiveReported(state.value, r);
      report := Ok((received, transmitted, CorrectedTotal(received, transmitted, AdjustmentOf(state.value.corrections))));
    }
  }

  // ---------------------------------------------------------------- accumulation over a run

  function Resets(s: TrafficState, rs: seq<Reading>): TrafficState
    decreases |rs|
  {
    if rs == [] then s else Resets(Accumulated(s, rs[0]), rs[1..])
  }

  /** One direction of a reading. */
  datatype Sample = Sample(bootId: string, count: u64)

  function RxSamples(rs: seq<Reading>): (xs: seq<Sample>)
    ensures |xs| == |rs|
  {
    seq(|rs|, i requires 0 <= i < |rs| => Sample(rs[i].bootId, rs[i].rx))
  }

  function TxSamples(rs: seq<Reading>): (xs: seq<Sample>)
    ensures |xs| == |rs|
  {
    seq(|rs|, i requires 0 <= i < |rs| => Sample(rs[i].bootId, rs[i].tx))
  }

  predicate Continues(a: Sample, b: Sample) { a.bootId == b.bootId && a.count <= b.count }

  /** The last index of the maximal same-boot non-decreasing stretch that starts at i. */
  function StretchEnd(xs: seq<Sample>, i: nat): (j: nat)
    requires i < |xs|
    ensures i <= j < |xs|
    ensures xs[i].count <= xs[j].count
    decreases |xs| - i
  {
    if i + 1 < |xs| && Continues(xs[i], xs[i + 1]) then StretchEnd(xs, i + 1) else i
  }

  lemma {:induction false} StretchIsMaximal(xs: seq<Sample>, i: nat)
    requires i < |xs|
    ensures forall k :: i <= k < StretchEnd(xs, i) ==> Continues(xs[k], xs[k + 1])
    ensures StretchEnd(xs, i) + 1 < |xs| ==> !Continues(xs[StretchEnd(xs, i)], xs[StretchEnd(xs, i) + 1])
    decreases |xs| - i
  {
    if i + 1 < |xs| && Continues(xs[i], xs[i + 1]) {
      StretchIsMaximal(xs, i + 1);
    }
  }

  /** Sum of (last - first) over the maximal stretches from index i on. */
  function StretchTotal(xs: seq<Sample>, i: nat): nat
    requires i <= |xs|
    decreases |xs| - i
  {
    if i == |xs| then 0
    else
      var j := StretchEnd(xs, i);
      xs[j].count - xs[i].count + StretchTotal(xs, j + 1)
  }

  lemma StretchTotalStep(xs: seq<Sample>, i: nat)
    requires i + 1 < |xs|
    ensures StretchTotal(xs, i)
         == Delta(xs[i].bootId == xs[i + 1].bootId, xs[i].count, xs[i + 1].count) + StretchTotal(xs, i + 1)
  {
    if Continues(xs[i], xs[i + 1]) {
      var j := StretchEnd(xs, i + 1);
      assert StretchEnd(xs, i) == j;
      assert StretchTotal(xs, i) == xs[j].count - xs[i].count + StretchTotal(xs, j + 1);
      assert StretchTotal(xs, i + 1) == xs[j].count - xs[i + 1].count + StretchTotal(xs, j + 1);
    } else {
      assert StretchEnd(xs, i) == i;
    }
  }

  /** One direction of the accumulation, over samples. */
  function Counted(xs: seq<Sample>, i: nat, accumulated: u64): u64
    decreases |xs| - i
  {
    if i + 1 >= |xs| then accumulated
    else
      var delta := Delta(xs[i].bootId == xs[i + 1].bootId, xs[i].count, xs[i + 1].count);
      Counted(xs, i + 1, SaturatingAdd(accumulated, delta))
  }

  lemma {:induction false} CountedIsStretchTotal(xs: seq<Sample>, i: nat, accumulated: u64)
    requires i < |xs|
    ensures Counted(xs, i, accumulated) == Min(U64_MAX, accumulated + StretchTotal(xs, i))
    decreases |xs| - i
  {
    if i + 1 == |xs| {
      assert StretchTotal(xs, i + 1) == 0;
    } else {
      StretchTotalStep(xs, i);
      var delta := Delta(xs[i].bootId == xs[i + 1].bootId, xs[i].count, xs[i + 1].count);
      CountedIsStretchTotal(xs, i + 1, SaturatingAdd(accumulated, delta));
      CappingOnceOrTwice(accumulated, delta, StretchTotal(xs, i + 1));
    }
  }

  lemma CappingOnceOrTwice(a: u64, delta: u64, rest: nat)
    ensures Min(U64_MAX, SaturatingAdd(a, delta) + rest) == Min(U64_MAX, a + delta + rest)
  {
  }

  lemma {:induction false} ResetsCount(rs: seq<Reading>, i: nat, s: TrafficState)
    requires i < |rs|
    requires s.bootId == rs[i].bootId && s.baselineRx == rs[i].rx && s.baselineTx == rs[i].tx
    ensures Resets(s, rs[i + 1..]).accumulatedRx == Counted(RxSamples(rs), i, s.accumulatedRx)
    ensures Resets(s, rs[i + 1..]).accumulatedTx == Counted(TxSamples(rs), i, s.accumulatedTx)
    decreases |rs| - i
  {
    if i + 1 < |rs| {
      var next := Accumulated(s, rs[i + 1]);
      assert rs[i + 1..][1..] == rs[i + 2..];
      ResetsCount(rs, i + 1, next);
    }
  }

  /** Each direction of a correction-free period is the capped sum of its stretches. */
  lemma AccumulationIsStretchTotal(cycleKey: string, interface: string, rs: seq<Reading>)
    requires rs != []
    ensures var s := Resets(New(cycleKey, interface, rs[0]), rs[1..]);
            && s.accumulatedRx == Min(U64_MAX, StretchTotal(RxSamples(rs), 0))
            && s.accumulatedTx == Min(U64_MAX, StretchTotal(TxSamples(rs), 0))
  {
    ResetsCount(rs, 0, New(cycleKey, interface, rs[0]));
    CountedIsStretchTotal(RxSamples(rs), 0, 0);
    CountedIsStretchTotal(TxSamples(rs), 0, 0);
  }

  /** The events a period's resets amount to in the state file are exactly that fold. */
  lemma {:induction false} RunOfResets(s: TrafficState, rs: seq<Reading>)
    ensures Run(Some(s), seq(|rs|, i requires 0 <= i < |rs| => ResetEvent(s.cycleKey, s.interface, rs[i])))
         == Some(Resets(s, rs))
    decreases |rs|
  {
    var events := seq(|rs|, i requires 0 <= i < |rs| => ResetEvent(s.cycleKey, s.interface, rs[i]));
    if rs != [] {
      var next := Accumulated(s, rs[0]);
      RunOfResets(next, rs[1..]);
      assert events[1..] == seq(|rs[1..]|, i requires 0 <= i < |rs[1..]| => ResetEvent(next.cycleKey, next.interface, rs[1..][i]));
    }
  }

  predicate Between(s: TrafficState, m: Reading, later: Reading) {
    && s.bootId == m.bootId == later.bootId
    && s.baselineRx <= m.rx <= later.rx
    && s.baselineTx <= m.tx <= later.tx
  }

  lemma {:induction false} ResetsConcat(s: TrafficState, a: seq<Reading>, b: seq<Reading>)
    ensures Resets(s, a + b) == Resets(Resets(s, a), b)
    decreases |a|
  {
    if a == [] {
      assert a + b == b;
    } else {
      assert (a + b)[1..] == a[1..] + b;
      ResetsConcat(Accumulated(s, a[0]), a[1..], b);
    }
  }

  lemma TwoStepsAreOne(t: TrafficState, m: Reading, next: Reading)
    requires Between(t, m, next)
    ensures LiveReported(Accumulated(t, m), next) == LiveReported(t, next)
    ensures Accumulated(Accumulated(t, m), next) == Accumulated(t, next)
  {
  }

  /**
    A reset inserted at an intermediate reading of a stretch changes neither the
    next report nor any state (hence any report or correction) after the next reset.
   */
  lemma IntermediateResetIsInvisible(s: TrafficState, before: seq<Reading>, m: Reading, next: Reading, after: seq<Reading>)
    requires Between(Resets(s, before), m, next)
    ensures LiveReported(Resets(s, before + [m]), next) == LiveReported(Resets(s, before), next)
    ensures Resets(s, before + [m, next] + after) == Resets(s, before + [next] + after)
  {
    var t := Resets(s, before);
    ResetsConcat(s, before, [m]);
    assert Resets(t, [m]) == Resets(Accumulated(t, m), []);
    TwoStepsAreOne(t, m, next);
    assert before + [m, next] + after == before + ([m, next] + after);
    ResetsConcat(s, before, [m, next] + after);
    assert ([m, next] + after)[1..] == [next] + after;
    assert ([next] + after)[1..] == after;
    assert before + [next] + after == before + ([next] + after);
    ResetsConcat(s, before, [next] + after);
  }

  /** A lock-free report equals what a reset at the same reading would commit and report. */
  lemma ReportAgreesWithReset(s: TrafficState, r: Reading)
    ensures LiveReported(s, r) == LiveReported(Accumulated(s, r), r)
    ensures LiveReported(s, r) == (Accumulated(s, r).accumulatedRx, Accumulated(s, r).accumulatedTx)
    ensures ReportedTotal(s, r) == ReportedTotal(Accumulated(s, r), r)
  {
  }

  // ---------------------------------------------------------------- corrections

  const ADJUSTMENT_BOUND: int := 2 * U64_MAX

  /** Every prefix of the correction list sums to a value far inside i128. */
  ghost predicate AdjustmentsBounded(cs: seq<Correction>) {
    forall k :: 0 <= k <= |cs| ==> -ADJUSTMENT_BOUND <= ExactAdjustmentOf(cs[..k]) <= U64_MAX
  }

  ghost predicate Sound(s: Option<TrafficState>) {
    s.Some? ==> AdjustmentsBounded(s.value.corrections)
  }

  lemma {:induction false} FoldIsExact(cs: seq<Correction>)
    requires AdjustmentsBounded(cs)
    ensures AdjustmentOf(cs) == ExactAdjustmentOf(cs)
    ensures -ADJUSTMENT_BOUND <= AdjustmentOf(cs) <= U64_MAX
  {
    assert cs[..|cs|] == cs;
    if cs != [] {
      var init := cs[..|cs| - 1];
      forall k | 0 <= k <= |init|
        ensures -ADJUSTMENT_BOUND <= ExactAdjustmentOf(init[..k]) <= U64_MAX
      {
        assert init[..k] == cs[..k];
      }
      FoldIsExact(init);
    }
  }

  lemma AppendBounded(cs: seq<Correction>, c: Correction)
    requires AdjustmentsBounded(cs)
    requires -ADJUSTMENT_BOUND <= ExactAdjustmentOf(cs) + Amount(c) <= U64_MAX
    ensures AdjustmentsBounded(cs + [c])
    ensures ExactAdjustmentOf(cs + [c]) == ExactAdjustmentOf(cs) + Amount(c)
  {
    var all := cs + [c];
    assert all[..|cs|] == cs;
    forall k | 0 <= k <= |all|
      ensures -ADJUSTMENT_BOUND <= ExactAdjustmentOf(all[..k]) <= U64_MAX
    {
      if k == |all| {
        assert all[..k] == all;
      } else {
        assert all[..k] == cs[..k];
      }
    }
  }

  lemma AdjustedToTheTarget(received: u64, transmitted: u64, total: u64)
    ensures CorrectedTotal(received, transmitted, total - (received + transmitted)) == total
  {
  }

  /** A total correction of a sound state succeeds, stays sound and hits its target. */
  lemma TotalCorrection(s: TrafficState, r: Reading, total: u64, at: int)
    requires AdjustmentsBounded(s.corrections)
    ensures var c := Corrected(s, r, Total(total), at);
            && c.Ok?
            && AdjustmentsBounded(c.value.corrections)
            && AdjustmentOf(c.value.corrections) == total - (LiveReported(s, r).0 + LiveReported(s, r).1)
            && LiveReported(c.value, r) == LiveReported(s, r)
            && ReportedTotal(c.value, r) == total
  {
    var (received, transmitted) := LiveReported(s, r);
    FoldIsExact(s.corrections);
    var offset := total - (received + transmitted) - AdjustmentOf(s.corrections);
    assert I128_MIN <= offset <= I128_MAX;
    var later := s.corrections + [TotalAdjustment(offset, at)];
    AppendBounded(s.corrections, TotalAdjustment(offset, at));
    FoldIsExact(later);
    AdjustedToTheTarget(received, transmitted, total);
    assert Corrected(s, r, Total(total), at) == Ok(s.(corrections := later));
  }

  lemma StepSound(s: Option<TrafficState>, e: Event)
    requires Sound(s)
    ensures Sound(Step(s, e))
  {
    match e {
      case ResetEvent(key, iface, r) =>
      case CorrectEvent(key, iface, r, target, at) =>
        if AfterCorrection(s, key, iface, r, target, at).Ok? {
          match target {
            case Total(total) => TotalCorrection(s.value, r, total, at);
            case Directions(rx, tx) =>
              FoldIsExact(s.value.corrections);
              AppendBounded(s.value.corrections, SetDirection(rx, tx, at));
          }
        }
    }
  }

  lemma {:induction false} RunSound(s: Option<TrafficState>, events: seq<Event>)
    requires Sound(s)
    ensures Sound(Run(s, events))
    decreases |events|
  {
    if events != [] {
      StepSound(s, events[0]);
      RunSound(Step(s, events[0]), events[1..]);
    }
  }

  /**
    From every state the writers can reach, a `Total` correction is never
    refused, the saturating fold never saturates before or after it, and a
    report at the same reading totals exactly the target.
   */
  lemma TotalCorrectionHitsItsTarget(events: seq<Event>, r: Reading, total: u64, at: int)
    requires Run(None, events).Some?
    ensures var s := Run(None, events).value;
            var c := Corrected(s, r, Total(total), at);
            && AdjustmentOf(s.corrections) == ExactAdjustmentOf(s.corrections)
            && c.Ok?
            && AdjustmentOf(c.value.corrections) == ExactAdjustmentOf(c.value.corrections)
            && ReportedTotal(c.value, r) == total
            && LiveReported(c.value, r) == LiveReported(s, r)
  {
    RunSound(None, events);
    var s := Run(None, events).value;
    FoldIsExact(s.corrections);
    TotalCorrection(s, r, total, at);
    FoldIsExact(Corrected(s, r, Total(total), at).value.corrections);
  }

  /**
    A correction is accepted exactly for the stored period and interface, unless its
    direction targets overflow together; a refused one says why and changes nothing.
   */
  lemma CorrectionAcceptedIff(s: Option<TrafficState>, cycleKey: string, interface: string, r: Reading, target: Target, at: int)
    requires Sound(s)
    ensures var c := AfterCorrection(s, cycleKey, interface, r, target, at);
            && (c.Ok? <==> s.Some? && s.value.cycleKey == cycleKey && s.value.interface == interface
                           && (target.Directions? ==> target.rx + target.tx <= U64_MAX))
            && (c.Err? ==> c.error == if s.None? then StateMissing
                                      else if s.value.cycleKey == cycleKey && s.value.interface == interface then Overflow
                                      else StateStale)
            && (c.Err? ==> Step(s, CorrectEvent(cycleKey, interface, r, target, at)) == s)
  {
    if s.Some? && target.Total? {
      TotalCorrection(s.value, r, target.total, at);
    }
  }

  /** Readings of one boot in which neither counter falls, starting from `first`. */
  ghost predicate Rising(first: Reading, rs: seq<Reading>)
    decreases |rs|
  {
    if rs == [] then true
    else
      && rs[0].bootId == first.bootId && first.rx <= rs[0].rx && first.tx <= rs[0].tx
      && Rising(rs[0], rs[1..])
  }

  /** Later readings add to the received bytes: the baseline is of this boot and not above the reading. */
  predicate RxCounts(s: TrafficState, r: Reading) { s.bootId == r.bootId && s.baselineRx <= r.rx }

  predicate TxCounts(s: TrafficState, r: Reading) { s.bootId == r.bootId && s.baselineTx <= r.tx }

  /** What is reported never falls along rising readings, and rises with a counter that counts or does not move. */
  ghost predicate LiveFollows(s: TrafficState, first: Reading, later: TrafficState, last: Reading) {
    var (a, b) := (LiveReported(s, first), LiveReported(later, last));
    && a.0 <= b.0 && a.1 <= b.1
    && (RxCounts(s, first) || last.rx == first.rx ==> b.0 == Min(U64_MAX, a.0 + (last.rx - first.rx)))
    && (TxCounts(s, first) || last.tx == first.tx ==> b.1 == Min(U64_MAX, a.1 + (last.tx - first.tx)))
  }

  lemma LiveFollowsOneReading(s: TrafficState, first: Reading, last: Reading)
    requires first.bootId == last.bootId && first.rx <= last.rx && first.tx <= last.tx
    ensures LiveFollows(s, first, s, last)
  {
  }

  lemma {:induction false} RisingResets(s: TrafficState, first: Reading, rs: seq<Reading>, last: Reading)
    requires Rising(first, rs + [last])
    ensures first.bootId == last.bootId && first.rx <= last.rx && first.tx <= last.tx
    ensures Resets(s, rs).corrections == s.corrections
    ensures LiveFollows(s, first, Resets(s, rs), last)
    decreases |rs|
  {
    if rs == [] {
      assert (rs + [last])[0] == last;
      LiveFollowsOneReading(s, first, last);
    } else {
      var next := Accumulated(s, rs[0]);
      assert (rs + [last])[0] == rs[0];
      assert (rs + [last])[1..] == rs[1..] + [last];
      LiveFollowsOneReading(s, first, rs[0]);
      ReportAgreesWithReset(s, rs[0]);
      RisingResets(next, rs[0], rs[1..], last);
      assert RxCounts(next, rs[0]) && TxCounts(next, rs[0]);
      LiveFollowsOn(s, first, next, rs[0], Resets(s, rs), last);
    }
  }

  lemma LiveFollowsOn(s: TrafficState, first: Reading, middle: TrafficState, r: Reading, later: TrafficState, last: Reading)
    requires LiveFollows(s, first, s, r) && LiveReported(s, r) == LiveReported(middle, r)
    requires LiveFollows(middle, r, later, last) && RxCounts(middle, r) && TxCounts(middle, r)
    requires first.rx <= r.rx <= last.rx && first.tx <= r.tx <= last.tx
    ensures LiveFollows(s, first, later, last)
  {
  }

  /**
    A later report, through any number of resets, totals the target plus what the
    counters gained, capped at 64 bits, as long as the boot is unchanged, no
    counter falls and no direction is pushed beyond the cap.
   */
  ghost predicate CountsOn(s: TrafficState, first: Reading, total: u64, at: int, rs: seq<Reading>, last: Reading) {
    && Corrected(s, first, Total(total), at).Ok?
    && (Rising(first, rs + [last])
        && LiveReported(s, first).0 + (last.rx - first.rx) <= U64_MAX
        && LiveReported(s, first).1 + (last.tx - first.tx) <= U64_MAX ==>
          ReportedTotal(Resets(Corrected(s, first, Total(total), at).value, rs), last)
          == Min(U64_MAX, total + (last.rx - first.rx) + (last.tx - first.tx)))
  }

  /** The direction counts from the reading on, or can gain nothing any more. */
  predicate RxCountsOn(s: TrafficState, r: Reading) {
    RxCounts(s, r) || r.rx == U64_MAX || LiveReported(s, r).0 == U64_MAX
  }

  predicate TxCountsOn(s: TrafficState, r: Reading) {
    TxCounts(s, r) || r.tx == U64_MAX || LiveReported(s, r).1 == U64_MAX
  }

  lemma CountsOnWhere(s: TrafficState, first: Reading, total: u64, at: int, rs: seq<Reading>, last: Reading)
    requires AdjustmentsBounded(s.corrections)
    requires total == U64_MAX || (RxCountsOn(s, first) && TxCountsOn(s, first))
    ensures CountsOn(s, first, total, at, rs, last)
  {
    TotalCorrection(s, first, total, at);
    var c := Corrected(s, first, Total(total), at).value;
    if Rising(first, rs + [last]) {
      RisingResets(c, first, rs, last);
    }
  }

  /** One more byte on a counter that does not count leaves the total where it was. */
  lemma OtherwiseAByteIsLost(s: TrafficState, first: Reading, total: u64, at: int) returns (last: Reading)
    requires AdjustmentsBounded(s.corrections)
    requires total < U64_MAX && !(RxCountsOn(s, first) && TxCountsOn(s, first))
    ensures !CountsOn(s, first, total, at, [], last)
  {
    TotalCorrection(s, first, total, at);
    last := if !RxCountsOn(s, first) then first.(rx := first.rx + 1) else first.(tx := first.tx + 1);
    var none: seq<Reading> := [];
    assert none + [last] == [last] && [last][1..] == none;
    assert Rising(last, [last][1..]) && Rising(first, none + [last]);
    assert Resets(Corrected(s, first, Total(total), at).value, none) == Corrected(s, first, Total(total), at).value;
    assert LiveReported(Corrected(s, first, Total(total), at).value, last) == LiveReported(s, first);
  }

  /**
    From every reachable state: all later reports count on after a `Total`
    correction if and only if every direction that can still gain has a baseline
    of the reading's boot that is not above the reading, or the target is the cap.
   */
  lemma TotalCorrectionCountsOn(events: seq<Event>, first: Reading, total: u64, at: int)
    requires Run(None, events).Some?
    ensures (forall rs, last :: CountsOn(Run(None, events).value, first, total, at, rs, last))
       <==> (var s := Run(None, events).value; total == U64_MAX || (RxCountsOn(s, first) && TxCountsOn(s, first)))
  {
    var s := Run(None, events).value;
    RunSound(None, events);
    if total == U64_MAX || (RxCountsOn(s, first) && TxCountsOn(s, first)) {
      forall rs, last ensures CountsOn(s, first, total, at, rs, last) {
        CountsOnWhere(s, first, total, at, rs, last);
      }
    } else {
      var last := OtherwiseAByteIsLost(s, first, total, at);
    }
  }

  /**
    Before a reset has seen the new boot, the total stands still at the target
    however much the counters gain; so it does within a boot below the baseline.
   */
  lemma TotalStandsStill(events: seq<Event>, first: Reading, total: u64, at: int, last: Reading)
    requires Run(None, events).Some?
    requires first.bootId == last.bootId
    requires var s := Run(None, events).value;
             s.bootId != first.bootId || (first.rx <= last.rx <= s.baselineRx && first.tx == last.tx)
    ensures var c := Corrected(Run(None, events).value, first, Total(total), at);
            c.Ok? && ReportedTotal(c.value, last) == total
  {
    RunSound(None, events);
    TotalCorrection(Run(None, events).value, first, total, at);
  }

  /** A correction to 500 bytes made after a reboot: 50 bytes later a report still totals 500. */
  lemma ACorrectionAfterARebootStandsStill()
    ensures var events := [ResetEvent("p", "e", Reading("first", 100, 0))];
            var corrected, later := Reading("second", 10, 0), Reading("second", 60, 0);
            && Run(None, events).Some?
            && Corrected(Run(None, events).value, corrected, Total(500), 0).Ok?
            && ReportedTotal(Corrected(Run(None, events).value, corrected, Total(500), 0).value, later) == 500
  {
    var reset := ResetEvent("p", "e", Reading("first", 100, 0));
    assert Run(Step(None, reset), [reset][1..]) == Step(None, reset);
    assert Reading("first", 100, 0).bootId[0] != Reading("second", 10, 0).bootId[0];
    TotalStandsStill([reset], Reading("second", 10, 0), 500, 0, Reading("second", 60, 0));
  }

  /** Events that stay in the period of `s` and set no direction. */
  ghost predicate KeepsDirections(s: TrafficState, events: seq<Event>) {
    forall e :: e in events ==>
      && e.cycleKey == s.cycleKey && e.interface == s.interface
      && (e.CorrectEvent? ==> e.target.Total?)
  }

  lemma {:induction false} DirectionsNeverFall(s: TrafficState, events: seq<Event>, r: Reading)
    requires KeepsDirections(s, events)
    ensures Run(Some(s), events).Some?
    ensures s.accumulatedRx <= LiveReported(Run(Some(s), events).value, r).0
    ensures s.accumulatedTx <= LiveReported(Run(Some(s), events).value, r).1
    decreases |events|
  {
    if events != [] {
      assert events[0] in events;
      var next := Step(Some(s), events[0]).value;
      assert next.cycleKey == s.cycleKey && next.interface == s.interface;
      DirectionsNeverFall(next, events[1..], r);
    }
  }

  /**
    A `Directions` correction is refused exactly when the two targets overflow
    a byte count together. Otherwise a report at the same reading gives exactly
    the targets, and they stay a floor for every later report of the period
    whatever reboots, rollbacks, resets or total corrections follow.
   */
  lemma DirectionsCorrectionIsExactAndAFloor(s: TrafficState, r: Reading, rx: u64, tx: u64, at: int,
                                             events: seq<Event>, later: Reading)
    requires KeepsDirections(s, events)
    ensures Corrected(s, r, Directions(rx, tx), at).Ok? <==> rx + tx <= U64_MAX
    ensures rx + tx <= U64_MAX ==>
              var c := Corrected(s, r, Directions(rx, tx), at).value;
              && LiveReported(c, r) == (rx, tx)
              && Run(Some(c), events).Some?
              && rx <= LiveReported(Run(Some(c), events).value, later).0
              && tx <= LiveReported(Run(Some(c), events).value, later).1
  {
    if rx + tx <= U64_MAX {
      DirectionsNeverFall(Corrected(s, r, Directions(rx, tx), at).value, events, later);
    }
  }

  /** The readings of the resets, and `last` after them, are of one boot and never fall from `first` on. */
  ghost predicate RisingThrough(first: Reading, events: seq<Event>, last: Reading)
    decreases |events|
  {
    if events == [] then first.bootId == last.bootId && first.rx <= last.rx && first.tx <= last.tx
    else if events[0].CorrectEvent? then RisingThrough(first, events[1..], last)
    else
      var r := events[0].reading;
      && r.bootId == first.bootId && first.rx <= r.rx && first.tx <= r.tx
      && RisingThrough(r, events[1..], last)
  }

  lemma {:induction false} RisingCounterIsReported(s: TrafficState, first: Reading, events: seq<Event>, last: Reading)
    requires KeepsDirections(s, events) && RisingThrough(first, events, last)
    requires RxCounts(s, first) && TxCounts(s, first)
    ensures first.rx <= last.rx && first.tx <= last.tx
    ensures Run(Some(s), events).Some?
    ensures LiveReported(Run(Some(s), events).value, last)
         == (Min(U64_MAX, LiveReported(s, first).0 + (last.rx - first.rx)), Min(U64_MAX, LiveReported(s, first).1 + (last.tx - first.tx)))
    decreases |events|
  {
    if events != [] {
      assert events[0] in events;
      var next := Step(Some(s), events[0]).value;
      assert next.cycleKey == s.cycleKey && next.interface == s.interface;
      if events[0].CorrectEvent? {
        assert next == s.(corrections := next.corrections);
        RisingCounterIsReported(next, first, events[1..], last);
      } else {
        ReportAgreesWithReset(s, events[0].reading);
        RisingCounterIsReported(next, events[0].reading, events[1..], last);
      }
    }
  }

  /**
    Later bytes count on top of a `Directions` correction: whatever boot and
    baselines were stored before it, along rising counters each direction reports
    its target plus what its counter gained since the correction, capped, through
    any resets and total corrections.
   */
  lemma DirectionsCorrectionCountsOn(s: TrafficState, first: Reading, rx: u64, tx: u64, at: int, events: seq<Event>, last: Reading)
    requires rx + tx <= U64_MAX
    requires KeepsDirections(s, events) && RisingThrough(first, events, last)
    ensures var c := Corrected(s, first, Directions(rx, tx), at);
            && c.Ok?
            && Run(Some(c.value), events).Some?
            && LiveReported(Run(Some(c.value), events).value, last)
               == (Min(U64_MAX, rx + last.rx - first.rx), Min(U64_MAX, tx + last.tx - first.tx))
  {
    var c := Corrected(s, first, Directions(rx, tx), at).value;
    assert KeepsDirections(c, events);
    RisingCounterIsReported(c, first, events, last);
  }

  function Clamped(total: int): u64 { if total < 0 then 0 else Min(total, U64_MAX) }

  /** In every reachable state a report totals the directions and all adjustments added up exactly, kept between 0 and the cap. */
  lemma ReportedTotalIsTheClampedSum(events: seq<Event>, r: Reading)
    requires Run(None, events).Some?
    ensures var s := Run(None, events).value;
            ReportedTotal(s, r) == Clamped(LiveReported(s, r).0 + LiveReported(s, r).1 + ExactAdjustmentOf(s.corrections))
  {
    RunSound(None, events);
    FoldIsExact(Run(None, events).value.corrections);
  }

  /**
    The total is kept at 0, not below: 100 bytes corrected to a total of 0 and
    then to the direction 10 report 0, as do the next 90 bytes on top of them.
   */
  lemma ASmallerDirectionTotalsZero()
    ensures var events := [ResetEvent("p", "e", Reading("b", 0, 0)),
                           CorrectEvent("p", "e", Reading("b", 100, 0), Total(0), 1),
                           CorrectEvent("p", "e", Reading("b", 100, 0), Directions(10, 0), 2)];
            && Run(None, events).Some?
            && ReportedTotal(Run(None, events).value, Reading("b", 100, 0)) == 0
            && ReportedTotal(Run(None, events).value, Reading("b", 190, 0)) == 0
            && ReportedTotal(Run(None, events).value, Reading("b", 195, 0)) == 5
  {
    var reset, total, directions := ResetEvent("p", "e", Reading("b", 0, 0)),
                                    CorrectEvent("p", "e", Reading("b", 100, 0), Total(0), 1),
                                    CorrectEvent("p", "e", Reading("b", 100, 0), Directions(10, 0), 2);
    var events := [reset, total, directions];
    assert events[1..] == [total, directions] && [total, directions][1..] == [directions];
    var s0 := New("p", "e", Reading("b", 0, 0));
    var first := TotalAdjustment(-100, 1);
    var s1 := s0.(corrections := [first]);
    assert Step(Some(s0), total) == Some(s1) by {
      assert AdjustmentOf([]) == 0 && [] + [first] == [first];
    }
    var second := SetDirection(10, 0, 2);
    var s2 := Step(Some(s1), directions).value;
    assert s2.corrections == [first, second];
    assert [first, second][..1] == [first] && [first][..0] == [];
    assert AdjustmentOf(s2.corrections) == -100;
    HundredBelow(s2);
    assert Run(None, events) == Run(Some(s0), [total, directions]) == Run(Some(s1), [directions]) == Run(Some(s2), [directions][1..]);
  }

  lemma HundredBelow(s: TrafficState)
    requires s.bootId == "b" && s.baselineRx == 100 && s.accumulatedRx == 10 && s.baselineTx == s.accumulatedTx == 0
    requires AdjustmentOf(s.corrections) == -100
    ensures ReportedTotal(s, Reading("b", 100, 0)) == 0
    ensures ReportedTotal(s, Reading("b", 190, 0)) == 0
    ensures ReportedTotal(s, Reading("b", 195, 0)) == 5
  {
  }

  // ---------------------------------------------------------------- the correction log

  /** The corrections that are not refused. */
  function Accepted(events: seq<Event>): seq<Event> {
    if events == [] then []
    else
      var e := events[0];
      (if e.CorrectEvent? && (e.target.Directions? ==> e.target.rx + e.target.tx <= U64_MAX) then [e] else []) + Accepted(events[1..])
  }

  predicate Records(c: Correction, e: Event) {
    && e.CorrectEvent? && c.at == e.at
    && match e.target
       case Total(_) => c.TotalAdjustment?
       case Directions(rx, tx) => c.SetDirection? && c.rx == rx && c.tx == tx
  }

  ghost predicate LogOf(log: seq<Correction>, events: seq<Event>) {
    |log| == |events| && forall i :: 0 <= i < |log| ==> Records(log[i], events[i])
  }

  /** `later` has the corrections of `earlier`, and after them those of the events. */
  ghost predicate LogGrows(earlier: TrafficState, later: TrafficState, events: seq<Event>) {
    earlier.corrections <= later.corrections && LogOf(later.corrections[|earlier.corrections|..], events)
  }

  lemma OneEventIsLogged(s: TrafficState, e: Event)
    requires Sound(Some(s)) && e.cycleKey == s.cycleKey && e.interface == s.interface
    ensures var next := Step(Some(s), e);
            && next.Some? && Sound(next) && LogGrows(s, next.value, Accepted([e]))
            && next.value.cycleKey == s.cycleKey && next.value.interface == s.interface
  {
    StepSound(Some(s), e);
    assert [e][1..] == [] && Accepted([e][1..]) == [];
    if e.CorrectEvent? && e.target.Total? {
      TotalCorrection(s, e.reading, e.target.total, e.at);
    }
  }

  lemma LogsJoin(a: TrafficState, b: TrafficState, c: TrafficState, first: seq<Event>, second: seq<Event>)
    requires LogGrows(a, b, first) && LogGrows(b, c, second)
    ensures LogGrows(a, c, first + second)
  {
    var n, m := |a.corrections|, |b.corrections|;
    assert c.corrections[n..] == b.corrections[n..] + c.corrections[m..];
  }

  lemma OneMoreAccepted(events: seq<Event>)
    requires events != []
    ensures Accepted(events) == Accepted([events[0]]) + Accepted(events[1..])
  {
    assert [events[0]][1..] == [];
  }

  /** Within a period the state logs exactly the accepted corrections, in order, each with its time and its directions. */
  lemma {:induction false} CorrectionsAreLogged(s: TrafficState, events: seq<Event>)
    requires Sound(Some(s))
    requires forall e :: e in events ==> e.cycleKey == s.cycleKey && e.interface == s.interface
    ensures Run(Some(s), events).Some?
    ensures LogGrows(s, Run(Some(s), events).value, Accepted(events))
    decreases |events|
  {
    if events != [] {
      var e := events[0];
      assert e in events;
      var next := Step(Some(s), e).value;
      OneEventIsLogged(s, e);
      CorrectionsAreLogged(next, events[1..]);
      OneMoreAccepted(events);
      LogsJoin(s, next, Run(Some(s), events).value, Accepted([e]), Accepted(events[1..]));
    }
  }
}
