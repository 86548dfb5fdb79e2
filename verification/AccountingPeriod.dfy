/**
  The accounting schedule: the period an instant belongs to, natural or anchored,
  in any time zone. Times are whole nanoseconds.
 */
module AccountingPeriod {
  import opened Wrappers
  import opened Calendar

  const MINUTE: int := 60_000_000_000
  const HOUR: int := 3_600_000_000_000
  const DAY: int := 86_400_000_000_000

  // The years the date type can represent.
  const MIN_YEAR: int := -262143
  const MAX_YEAR: int := 262142

  datatype Error = InvalidDate | NoSuchLocalTime | InvalidMonth | OutOfRange | AnchorMissing

  // ---------------------------------------------------------------- time zones

  /** A zone is a fixed offset, or one offset until an instant and another zone from there on. */
  datatype Zone = Fixed(offset: int) | Until(offset: int, at: int, rest: Zone)

  function OffsetAt(z: Zone, instant: int): int {
    match z
    case Fixed(offset) => offset
    case Until(offset, at, rest) => if instant < at then offset else OffsetAt(rest, instant)
  }

  function LocalTime(z: Zone, instant: int): int { instant + OffsetAt(z, instant) }

  /**
    The earliest instant (not before `from`, when given) whose wall clock shows
    `local`: the single match, the first of an ambiguous pair, or none in a gap.
   */
  function Earliest(z: Zone, local: int, from: Option<int>): Option<int> {
    var u := local - z.offset;
    var reached := from.Some? ==> from.value <= u;
    match z
    case Fixed(_) => if reached then Some(u) else None
    case Until(_, at, rest) =>
      if reached && u < at then Some(u)
      else Earliest(rest, local, Some(if from.Some? && at < from.value then from.value else at))
  }

  lemma {:induction false} EarliestIsFirst(z: Zone, local: int, from: Option<int>)
    ensures var r := Earliest(z, local, from);
            && (r.Some? ==> LocalTime(z, r.value) == local && (from.Some? ==> from.value <= r.value))
            && (forall u {:trigger LocalTime(z, u)} ::
                  LocalTime(z, u) == local && (from.Some? ==> from.value <= u) ==> r.Some? && r.value <= u)
  {
    if z.Until? {
      EarliestIsFirst(z.rest, local, Some(if from.Some? && z.at < from.value then from.value else z.at));
      assert forall v :: LocalTime(z, v) == if v < z.at then v + z.offset else LocalTime(z.rest, v);
    }
  }

  function MonthOf(z: Zone, instant: int): (ym: YearMonth)
    ensures ym.Valid()
  {
    MonthOfDay(LocalTime(z, instant) / DAY)
  }

  function MonthIndex(z: Zone, instant: int): int { MonthOf(z, instant).Index() }

  // ---------------------------------------------------------------- wall-clock resolution

  function NaiveTime(ym: YearMonth, day: int, hour: int, minute: int): Option<int> {
    if MIN_YEAR <= ym.year <= MAX_YEAR && ym.Valid() && 1 <= day <= DaysInMonth(ym)
       && 0 <= hour < 24 && 0 <= minute < 60
    then Some((FirstDay(ym) + day - 1) * DAY + hour * HOUR + minute * MINUTE)
    else None
  }

  predicate Representable(naive: int) { MIN_YEAR <= MonthOfDay(naive / DAY).year <= MAX_YEAR }

  /** Tries the wall-clock time `shift` hours on, then one hour further, up to three hours. */
  function Resolve(z: Zone, naive: int, shift: nat): Result<int, Error>
    requires shift <= 4
    decreases 4 - shift
  {
    if shift == 4 || (shift > 0 && !Representable(naive + shift * HOUR)) then Err(NoSuchLocalTime)
    else
      match Earliest(z, naive + shift * HOUR, None)
      case Some(instant) => Ok(instant)
      case None => Resolve(z, naive, shift + 1)
  }

  function Located(z: Zone, ym: YearMonth, day: int, hour: int, minute: int): Result<int, Error> {
    match NaiveTime(ym, day, hour, minute)
    case None => Err(InvalidDate)
    case Some(naive) => Resolve(z, naive, 0)
  }

  method LocalDatetime(z: Zone, ym: YearMonth, day: int, hour: int, minute: int) returns (r: Result<int, Error>)
    ensures r == Located(z, ym, day, hour, minute)
  {
    var naive := NaiveTime(ym, day, hour, minute);
    if naive.None? {
      return Err(InvalidDate);
    }
    r := ResolveByHours(z, naive.value);
  }

  method ResolveByHours(z: Zone, naive: int) returns (r: Result<int, Error>)
    ensures r == Resolve(z, naive, 0)
  {
    ghost var resolved := Resolve(z, naive, 0);
    var exact := Earliest(z, naive, None);
    if exact.Some? {
      return Ok(exact.value);
    }
    for shift := 1 to 4
      invariant resolved == Resolve(z, naive, shift)
    {
      var shifted := naive + shift * HOUR;
      if !Representable(shifted) {
        return Err(NoSuchLocalTime);
      }
      var found := Earliest(z, shifted, None);
      if found.Some? {
        return Ok(found.value);
      }
    }
    r := Err(NoSuchLocalTime);
  }

  /**
    A resolved instant shows the requested wall-clock time or, in a gap, the
    first of the next three hourly later times that exists; it is the earliest
    instant that does, and no earlier candidate exists at all.
   */
  lemma {:induction false} ResolvedShowsFirst(z: Zone, naive: int, shift: nat) returns (found: nat)
    requires shift <= 4
    requires Resolve(z, naive, shift).Ok?
    ensures shift <= found <= 3
    ensures ShowsFirst(z, Resolve(z, naive, shift).value, naive, shift, found)
    decreases 4 - shift
  {
    if Earliest(z, naive + shift * HOUR, None).Some? {
      ShownHere(z, naive, shift);
      found := shift;
    } else {
      found := ResolvedShowsFirst(z, naive, shift + 1);
      ShownLater(z, Resolve(z, naive, shift + 1).value, naive, shift, found);
    }
  }

  lemma ShownHere(z: Zone, naive: int, shift: nat)
    requires Earliest(z, naive + shift * HOUR, None).Some?
    ensures ShowsFirst(z, Earliest(z, naive + shift * HOUR, None).value, naive, shift, shift)
  {
    EarliestIsFirst(z, naive + shift * HOUR, None);
  }

  lemma ShownLater(z: Zone, instant: int, naive: int, from: nat, shift: nat)
    requires Earliest(z, naive + from * HOUR, None).None? && ShowsFirst(z, instant, naive, from + 1, shift)
    ensures ShowsFirst(z, instant, naive, from, shift)
  {
    NeverShown(z, naive, from);
    forall k, u {:trigger NotAt(z, u, naive, k)} | from <= k < shift ensures NotAt(z, u, naive, k) {
      assert k == from || from + 1 <= k;
    }
  }

  lemma NeverShown(z: Zone, naive: int, shift: nat)
    requires Earliest(z, naive + shift * HOUR, None).None?
    ensures forall u {:trigger NotAt(z, u, naive, shift)} :: NotAt(z, u, naive, shift)
  {
    EarliestIsFirst(z, naive + shift * HOUR, None);
    forall u ensures NotAt(z, u, naive, shift) {
      assert LocalTime(z, u) == naive + shift * HOUR ==> Earliest(z, naive + shift * HOUR, None).Some?;
    }
  }

  ghost predicate ShowsFirst(z: Zone, instant: int, naive: int, from: nat, shift: nat) {
    && LocalTime(z, instant) == naive + shift * HOUR
    && (forall u {:trigger LocalTime(z, u)} :: LocalTime(z, u) == naive + shift * HOUR ==> instant <= u)
    && (forall k, u {:trigger NotAt(z, u, naive, k)} :: from <= k < shift ==> NotAt(z, u, naive, k))
  }

  ghost predicate NotAt(z: Zone, u: int, naive: int, k: int) { LocalTime(z, u) != naive + k * HOUR }

  /** The wall clock stands at the start of that minute of that day. */
  predicate Shows(local: int, ym: YearMonth, day: int, hour: int, minute: int)
    requires ym.Valid()
  {
    var inDay := local % DAY;
    && local / DAY == FirstDay(ym) + day - 1
    && inDay / HOUR == hour && inDay % HOUR / MINUTE == minute && inDay % HOUR % MINUTE == 0
  }

  lemma OneTimeIsShown(ym: YearMonth, day: int, hour: int, minute: int, local: int)
    requires NaiveTime(ym, day, hour, minute).Some?
    ensures Shows(local, ym, day, hour, minute) <==> local == NaiveTime(ym, day, hour, minute).value
  {
    var days := FirstDay(ym) + day - 1;
    DayOfNaiveTime(ym, day, hour, minute, 0);
    TimeOfDay(local % DAY, hour, minute);
    assert local == local / DAY * DAY + local % DAY;
  }

  lemma TimeOfDay(inDay: int, hour: int, minute: int)
    requires 0 <= inDay < DAY && 0 <= hour < 24 && 0 <= minute < 60
    ensures inDay / HOUR == hour && inDay % HOUR / MINUTE == minute && inDay % HOUR % MINUTE == 0
       <==> inDay == hour * HOUR + minute * MINUTE
  {
    var inHour := inDay % HOUR;
    assert inDay == inDay / HOUR * HOUR + inHour;
    assert inHour == inHour / MINUTE * MINUTE + inHour % MINUTE;
    assert 0 <= minute * MINUTE < HOUR;
  }

  /** A date and time of day that is shown at all resolves to the first instant that shows it. */
  lemma ShownTimeResolvesToItsFirst(z: Zone, ym: YearMonth, day: int, hour: int, minute: int, u: int)
    requires NaiveTime(ym, day, hour, minute).Some? && Shows(LocalTime(z, u), ym, day, hour, minute)
    ensures var r := Located(z, ym, day, hour, minute);
            r.Ok? && r.value <= u && Shows(LocalTime(z, r.value), ym, day, hour, minute)
  {
    var naive := NaiveTime(ym, day, hour, minute).value;
    OneTimeIsShown(ym, day, hour, minute, LocalTime(z, u));
    OneTimeIsShown(ym, day, hour, minute, naive);
    EarliestIsFirst(z, naive, None);
    assert naive + 0 * HOUR == naive;
  }

  function Min(a: int, b: int): int { if a <= b then a else b }

  /** The monthly reset instant: short months use their last day. */
  function Anchored(z: Zone, ym: YearMonth, day: int, hour: int, minute: int): Result<int, Error> {
    if !(MIN_YEAR <= ym.year <= MAX_YEAR && ym.Valid()) then Err(InvalidMonth)
    else if MonthOfDay(FirstDay(ym) + 32).year > MAX_YEAR then Err(OutOfRange)
    else
      var last := LastDayByCrossing(ym);
      Located(z, ym, Min(day, last - FirstDay(MonthOfDay(last)) + 1), hour, minute)
  }

  // ---------------------------------------------------------------- periods

  datatype Anchor = Anchor(ym: YearMonth, day: int, hour: int, minute: int)

  datatype Policy = NaturalMonth | AnchoredMonth(anchor: Option<Anchor>)

  /** `start` is the period's identity and cycle key, `next` its next reset. */
  datatype Period = Period(start: int, next: int)

  function NaturalPeriod(z: Zone, now: int): Result<Period, Error> {
    var current := MonthOf(z, now);
    match Located(z, current, 1, 0, 0)
    case Err(error) => Err(error)
    case Ok(start) =>
      match Located(z, NextMonth(current), 1, 0, 0)
      case Err(error) => Err(error)
      case Ok(next) => Ok(Period(start, next))
  }

  function AnchoredStart(z: Zone, a: Anchor, now: int): Result<int, Error> {
    match Anchored(z, MonthOf(z, now), a.day, a.hour, a.minute)
    case Err(error) => Err(error)
    case Ok(candidate) =>
      if candidate > now then Anchored(z, PreviousMonth(MonthOf(z, now)), a.day, a.hour, a.minute) else Ok(candidate)
  }

  function AnchoredPeriod(z: Zone, a: Anchor, now: int): Result<Period, Error> {
    match Located(z, a.ym, a.day, a.hour, a.minute)
    case Err(error) => Err(error)
    case Ok(firstReset) =>
      match AnchoredStart(z, a, now)
      case Err(error) => Err(error)
      case Ok(start) =>
        match Anchored(z, NextMonth(MonthOf(z, start)), a.day, a.hour, a.minute)
        case Err(error) => Err(error)
        case Ok(scheduled) =>
          Ok(Period(start, if now < firstReset then Min(scheduled, firstReset) else scheduled))
  }

  function PeriodAt(z: Zone, policy: Policy, now: int): Result<Period, Error> {
    match policy
    case NaturalMonth => NaturalPeriod(z, now)
    case AnchoredMonth(None) => Err(AnchorMissing)
    case AnchoredMonth(Some(a)) => AnchoredPeriod(z, a, now)
  }

  /** The boundary a policy places in a month, before any range check. */
  function Boundary(z: Zone, policy: Policy, ym: YearMonth): Result<int, Error>
    requires ym.Valid() && policy != AnchoredMonth(None)
  {
    match policy
    case NaturalMonth => Located(z, ym, 1, 0, 0)
    case AnchoredMonth(Some(a)) => Located(z, ym, Min(a.day, DaysInMonth(ym)), a.hour, a.minute)
  }

  lemma AnchoredIsBoundary(z: Zone, a: Anchor, ym: YearMonth)
    requires ym.Valid()
    ensures Anchored(z, ym, a.day, a.hour, a.minute).Ok? ==>
              Anchored(z, ym, a.day, a.hour, a.minute) == Boundary(z, AnchoredMonth(Some(a)), ym)
  {
    CrossingFindsTheLastDay(ym);
    MonthOfDayIsUnique(LastDayByCrossing(ym), ym);
  }

  /** In any zone: while the first anchor is ahead the period ends at it or before; afterwards with the next boundary. */
  lemma FirstAnchorEndsThePeriod(z: Zone, a: Anchor, now: int)
    requires AnchoredPeriod(z, a, now).Ok?
    ensures var p, first := AnchoredPeriod(z, a, now).value, Located(z, a.ym, a.day, a.hour, a.minute);
            && first.Ok?
            && (now < first.value ==> p.next <= first.value)
            && (first.value <= now || p.next != first.value ==>
                  Boundary(z, AnchoredMonth(Some(a)), NextMonth(MonthOf(z, p.start))) == Ok(p.next))
  {
    AnchoredIsBoundary(z, a, NextMonth(MonthOf(z, AnchoredPeriod(z, a, now).value.start)));
  }

  /** Exactly the last month of the last year has no reset day that can be computed. */
  lemma LastMonthIsOutOfRange(z: Zone, ym: YearMonth, day: int, hour: int, minute: int)
    ensures Anchored(z, ym, day, hour, minute) == Err(OutOfRange) <==> ym == YearMonth(MAX_YEAR, 12)
    ensures Anchored(z, ym, day, hour, minute) == Err(InvalidMonth) <==> !(ym.Valid() && MIN_YEAR <= ym.year <= MAX_YEAR)
  {
    if ym.Valid() {
      CrossingFindsTheLastDay(ym);
      MonthOfDayIsUnique(LastDayByCrossing(ym), ym);
      LocatedErrors(z, ym, Min(day, DaysInMonth(ym)), hour, minute);
    }
  }

  lemma LocatedErrors(z: Zone, ym: YearMonth, day: int, hour: int, minute: int)
    ensures Located(z, ym, day, hour, minute).Err? ==>
              Located(z, ym, day, hour, minute).error == if NaiveTime(ym, day, hour, minute).None? then InvalidDate else NoSuchLocalTime
  {
    var naive := NaiveTime(ym, day, hour, minute);
    if naive.Some? {
      ResolveErrors(z, naive.value, 0);
    }
  }

  lemma {:induction false} ResolveErrors(z: Zone, naive: int, shift: nat)
    requires shift <= 4
    ensures Resolve(z, naive, shift).Err? ==> Resolve(z, naive, shift).error == NoSuchLocalTime
    decreases 4 - shift
  {
    if shift < 4 {
      ResolveErrors(z, naive, shift + 1);
    }
  }

  // ---------------------------------------------------------------- tiling

  /** No transition sets the wall clock back across a month start. */
  ghost predicate MonthsInOrder(z: Zone) {
    forall u, v {:trigger MonthIndex(z, u), MonthIndex(z, v)} :: u <= v ==> MonthIndex(z, u) <= MonthIndex(z, v)
  }

  /** A month's boundary lies in that month; a natural one is the month's first instant. */
  ghost predicate BoundaryInMonth(z: Zone, policy: Policy, ym: YearMonth)
    requires ym.Valid() && policy != AnchoredMonth(None)
  {
    var b := Boundary(z, policy, ym);
    b.Ok? ==>
      && MonthOf(z, b.value) == ym
      && (policy.NaturalMonth? ==> forall u :: MonthIndex(z, u) == ym.Index() ==> b.value <= u)
  }

  ghost predicate Regular(z: Zone, policy: Policy) {
    && policy != AnchoredMonth(None)
    && MonthsInOrder(z)
    && forall ym: YearMonth :: ym.Valid() ==> BoundaryInMonth(z, policy, ym)
  }

  lemma LaterMonthIsLater(z: Zone, u: int, v: int)
    requires MonthsInOrder(z) && MonthIndex(z, u) < MonthIndex(z, v)
    ensures u < v
  {
  }

  lemma BoundariesIncrease(z: Zone, policy: Policy, a: YearMonth, b: YearMonth)
    requires Regular(z, policy)
    requires a.Valid() && b.Valid() && a.Index() < b.Index()
    requires Boundary(z, policy, a).Ok? && Boundary(z, policy, b).Ok?
    ensures Boundary(z, policy, a).value < Boundary(z, policy, b).value
  {
    assert BoundaryInMonth(z, policy, a) && BoundaryInMonth(z, policy, b);
    LaterMonthIsLater(z, Boundary(z, policy, a).value, Boundary(z, policy, b).value);
  }

  /** What both policies' periods have in common: they run from one boundary to the next. */
  ghost predicate BetweenBoundaries(z: Zone, policy: Policy, now: int, m: YearMonth, p: Period)
    requires m.Valid() && policy != AnchoredMonth(None)
  {
    && Boundary(z, policy, m) == Ok(p.start)
    && Boundary(z, policy, NextMonth(m)) == Ok(p.next)
    && p.start <= now < p.next
    && MonthOf(z, p.start) == m && MonthOf(z, p.next) == NextMonth(m)
  }

  lemma NaturalBetweenBoundaries(z: Zone, now: int)
    requires Regular(z, NaturalMonth)
    requires NaturalPeriod(z, now).Ok?
    ensures BetweenBoundaries(z, NaturalMonth, now, MonthOf(z, now), NaturalPeriod(z, now).value)
  {
    var current, p := MonthOf(z, now), NaturalPeriod(z, now).value;
    assert BoundaryInMonth(z, NaturalMonth, current);
    assert BoundaryInMonth(z, NaturalMonth, NextMonth(current));
    assert MonthIndex(z, now) < MonthIndex(z, p.next);
  }

  /** The month whose anchored boundary starts the period of `now`. */
  function StartMonth(z: Zone, a: Anchor, now: int): (ym: YearMonth)
    ensures ym.Valid()
  {
    var current := MonthOf(z, now);
    var candidate := Anchored(z, current, a.day, a.hour, a.minute);
    if candidate.Ok? && candidate.value > now then PreviousMonth(current) else current
  }

  lemma AnchoredInItsMonth(z: Zone, a: Anchor, ym: YearMonth)
    requires Regular(z, AnchoredMonth(Some(a)))
    requires ym.Valid() && Anchored(z, ym, a.day, a.hour, a.minute).Ok?
    ensures Anchored(z, ym, a.day, a.hour, a.minute) == Boundary(z, AnchoredMonth(Some(a)), ym)
    ensures MonthOf(z, Anchored(z, ym, a.day, a.hour, a.minute).value) == ym
  {
    AnchoredIsBoundary(z, a, ym);
    assert BoundaryInMonth(z, AnchoredMonth(Some(a)), ym);
  }

  lemma AnchoredStartIsBoundary(z: Zone, a: Anchor, now: int)
    requires Regular(z, AnchoredMonth(Some(a)))
    requires AnchoredStart(z, a, now).Ok?
    ensures var m := StartMonth(z, a, now);
            && Anchored(z, m, a.day, a.hour, a.minute) == AnchoredStart(z, a, now)
            && Boundary(z, AnchoredMonth(Some(a)), m) == AnchoredStart(z, a, now)
            && MonthOf(z, AnchoredStart(z, a, now).value) == m
            && AnchoredStart(z, a, now).value <= now
  {
    var m := StartMonth(z, a, now);
    AnchoredInItsMonth(z, a, m);
    if m != MonthOf(z, now) {
      LaterMonthIsLater(z, AnchoredStart(z, a, now).value, now);
    }
  }

  lemma AnchoredNextIsLater(z: Zone, a: Anchor, now: int)
    requires Regular(z, AnchoredMonth(Some(a)))
    requires AnchoredStart(z, a, now).Ok?
    requires Anchored(z, NextMonth(StartMonth(z, a, now)), a.day, a.hour, a.minute).Ok?
    ensures var next := Anchored(z, NextMonth(StartMonth(z, a, now)), a.day, a.hour, a.minute);
            && next == Boundary(z, AnchoredMonth(Some(a)), NextMonth(StartMonth(z, a, now)))
            && MonthOf(z, next.value) == NextMonth(StartMonth(z, a, now))
            && now < next.value
  {
    var m := StartMonth(z, a, now);
    var next := Anchored(z, NextMonth(m), a.day, a.hour, a.minute).value;
    AnchoredInItsMonth(z, a, NextMonth(m));
    if m == MonthOf(z, now) {
      LaterMonthIsLater(z, now, next);
    } else {
      SameIndexSameMonth(NextMonth(m), MonthOf(z, now));
    }
  }

  lemma AnchoredBetweenBoundaries(z: Zone, a: Anchor, now: int)
    requires Regular(z, AnchoredMonth(Some(a)))
    requires AnchoredPeriod(z, a, now).Ok?
    ensures BetweenBoundaries(z, AnchoredMonth(Some(a)), now, StartMonth(z, a, now), AnchoredPeriod(z, a, now).value)
    ensures Anchored(z, StartMonth(z, a, now), a.day, a.hour, a.minute) == Ok(AnchoredPeriod(z, a, now).value.start)
    ensures Anchored(z, NextMonth(StartMonth(z, a, now)), a.day, a.hour, a.minute) == Ok(AnchoredPeriod(z, a, now).value.next)
  {
    AnchoredStartIsBoundary(z, a, now);
    AnchoredNextIsLater(z, a, now);
    FirstAnchorDoesNotShorten(z, a, now, StartMonth(z, a, now));
  }

  /** The first anchor is itself a boundary, so the `min` with it changes nothing. */
  lemma FirstAnchorDoesNotShorten(z: Zone, a: Anchor, now: int, m: YearMonth)
    requires Regular(z, AnchoredMonth(Some(a)))
    requires m.Valid()
    requires Boundary(z, AnchoredMonth(Some(a)), m).Ok? && Boundary(z, AnchoredMonth(Some(a)), m).value <= now
    requires Boundary(z, AnchoredMonth(Some(a)), NextMonth(m)).Ok?
    ensures var first := Located(z, a.ym, a.day, a.hour, a.minute);
            first.Ok? && now < first.value ==> Boundary(z, AnchoredMonth(Some(a)), NextMonth(m)).value <= first.value
  {
    var policy := AnchoredMonth(Some(a));
    var first := Located(z, a.ym, a.day, a.hour, a.minute);
    if first.Ok? && now < first.value {
      assert first == Boundary(z, policy, a.ym);
      if a.ym.Index() < m.Index() {
        BoundariesIncrease(z, policy, a.ym, m);
      } else if a.ym.Index() == m.Index() {
        SameIndexSameMonth(a.ym, m);
      } else if NextMonth(m).Index() < a.ym.Index() {
        BoundariesIncrease(z, policy, NextMonth(m), a.ym);
      } else {
        SameIndexSameMonth(NextMonth(m), a.ym);
      }
    }
  }

  lemma PeriodIsBetweenBoundaries(z: Zone, policy: Policy, now: int) returns (m: YearMonth)
    requires Regular(z, policy)
    requires PeriodAt(z, policy, now).Ok?
    ensures m.Valid() && BetweenBoundaries(z, policy, now, m, PeriodAt(z, policy, now).value)
    ensures policy.NaturalMonth? ==> m == MonthOf(z, now)
    ensures policy.AnchoredMonth? ==> m == StartMonth(z, policy.anchor.value, now)
  {
    match policy {
      case NaturalMonth =>
        NaturalBetweenBoundaries(z, now);
        m := MonthOf(z, now);
      case AnchoredMonth(Some(a)) =>
        AnchoredBetweenBoundaries(z, a, now);
        m := StartMonth(z, a, now);
    }
  }

  lemma MonthInsidePeriod(z: Zone, policy: Policy, now: int, m: YearMonth, p: Period, other: int)
    requires MonthsInOrder(z)
    requires m.Valid() && policy != AnchoredMonth(None)
    requires BetweenBoundaries(z, policy, now, m, p) && p.start <= other < p.next
    ensures MonthOf(z, other) in {m, NextMonth(m)}
  {
    assert MonthIndex(z, p.start) <= MonthIndex(z, other) <= MonthIndex(z, p.next);
    if MonthIndex(z, other) == m.Index() {
      SameIndexSameMonth(MonthOf(z, other), m);
    } else {
      SameIndexSameMonth(MonthOf(z, other), NextMonth(m));
    }
  }

  lemma SameNaturalPeriod(z: Zone, now: int, other: int)
    requires Regular(z, NaturalMonth)
    requires NaturalPeriod(z, now).Ok?
    requires NaturalPeriod(z, now).value.start <= other < NaturalPeriod(z, now).value.next
    ensures NaturalPeriod(z, other) == NaturalPeriod(z, now)
  {
    var m, p := MonthOf(z, now), NaturalPeriod(z, now).value;
    NaturalBetweenBoundaries(z, now);
    MonthInsidePeriod(z, NaturalMonth, now, m, p, other);
    assert BoundaryInMonth(z, NaturalMonth, NextMonth(m));
    assert MonthOf(z, other) == m || p.next <= other by {
      assert MonthIndex(z, other) == MonthOf(z, other).Index();
    }
  }

  lemma SameAnchoredPeriod(z: Zone, a: Anchor, now: int, other: int)
    requires Regular(z, AnchoredMonth(Some(a)))
    requires AnchoredPeriod(z, a, now).Ok?
    requires AnchoredPeriod(z, a, now).value.start <= other < AnchoredPeriod(z, a, now).value.next
    ensures AnchoredPeriod(z, a, other) == AnchoredPeriod(z, a, now)
  {
    var m, p := StartMonth(z, a, now), AnchoredPeriod(z, a, now).value;
    AnchoredBetweenBoundaries(z, a, now);
    MonthInsidePeriod(z, AnchoredMonth(Some(a)), now, m, p, other);
    SameIndexSameMonth(PreviousMonth(NextMonth(m)), m);
    assert AnchoredStart(z, a, other) == Ok(p.start);
    FirstAnchorDoesNotShorten(z, a, other, m);
  }

  /**
    Periods tile time: an instant lies inside its period, every instant of the
    period computes that same period, and the period of the next reset starts
    exactly there.
   */
  lemma PeriodsTile(z: Zone, policy: Policy, now: int, other: int)
    requires Regular(z, policy)
    requires PeriodAt(z, policy, now).Ok?
    ensures var p := PeriodAt(z, policy, now).value;
            && p.start <= now < p.next
            && (p.start <= other < p.next ==> PeriodAt(z, policy, other) == Ok(p))
            && (PeriodAt(z, policy, p.next).Ok? ==> PeriodAt(z, policy, p.next).value.start == p.next)
  {
    var p := PeriodAt(z, policy, now).value;
    var m := PeriodIsBetweenBoundaries(z, policy, now);
    if p.start <= other < p.next {
      if policy.NaturalMonth? {
        SameNaturalPeriod(z, now, other);
      } else {
        SameAnchoredPeriod(z, policy.anchor.value, now, other);
      }
    }
    if PeriodAt(z, policy, p.next).Ok? {
      var n := PeriodIsBetweenBoundaries(z, policy, p.next);
      NextPeriodStartsAtTheReset(z, policy, p, m, n);
    }
  }

  lemma NextPeriodStartsAtTheReset(z: Zone, policy: Policy, p: Period, m: YearMonth, n: YearMonth)
    requires Regular(z, policy)
    requires m.Valid() && Boundary(z, policy, NextMonth(m)) == Ok(p.next) && MonthOf(z, p.next) == NextMonth(m)
    requires PeriodAt(z, policy, p.next).Ok? && n.Valid()
    requires BetweenBoundaries(z, policy, p.next, n, PeriodAt(z, policy, p.next).value)
    requires policy.NaturalMonth? ==> n == MonthOf(z, p.next)
    requires policy.AnchoredMonth? ==> n == StartMonth(z, policy.anchor.value, p.next)
    ensures PeriodAt(z, policy, p.next).value.start == p.next
  {
    if policy.AnchoredMonth? {
      AnchoredIsBoundary(z, policy.anchor.value, NextMonth(m));
    }
  }

  // ---------------------------------------------------------------- which zones are regular

  lemma DayOfNaiveTime(ym: YearMonth, day: int, hour: int, minute: int, shift: nat)
    requires NaiveTime(ym, day, hour, minute).Some?
    requires hour + shift < 24
    ensures (NaiveTime(ym, day, hour, minute).value + shift * HOUR) / DAY == FirstDay(ym) + day - 1
  {
    var inDay := (hour + shift) * HOUR + minute * MINUTE;
    assert 0 <= inDay < DAY;
    assert NaiveTime(ym, day, hour, minute).value + shift * HOUR == (FirstDay(ym) + day - 1) * DAY + inDay;
  }

  /**
    In any zone a resolved time that was asked for before 21:00 lies in the
    month asked for, because a gap pushes it at most three hours on.
   */
  lemma EarlyTimesStayInMonth(z: Zone, ym: YearMonth, day: int, hour: int, minute: int)
    requires hour <= 20
    requires Located(z, ym, day, hour, minute).Ok?
    ensures MonthOf(z, Located(z, ym, day, hour, minute).value) == ym
  {
    var naive := NaiveTime(ym, day, hour, minute).value;
    var shift := ResolvedShowsFirst(z, naive, 0);
    DayOfNaiveTime(ym, day, hour, minute, shift);
    MonthOfDayIsUnique(FirstDay(ym) + day - 1, ym);
  }

  /** So an anchored schedule before 21:00 is regular wherever months come in order. */
  lemma EarlyAnchorsAreRegular(z: Zone, a: Anchor)
    requires MonthsInOrder(z) && a.hour <= 20
    ensures Regular(z, AnchoredMonth(Some(a)))
  {
    forall ym: YearMonth | ym.Valid() ensures BoundaryInMonth(z, AnchoredMonth(Some(a)), ym) {
      if Boundary(z, AnchoredMonth(Some(a)), ym).Ok? {
        EarlyTimesStayInMonth(z, ym, Min(a.day, DaysInMonth(ym)), a.hour, a.minute);
      }
    }
  }

  lemma FixedMonthsInOrder(offset: int)
    ensures MonthsInOrder(Fixed(offset))
  {
    var z := Fixed(offset);
    forall u, v | u <= v ensures MonthIndex(z, u) <= MonthIndex(z, v) {
      LaterDayLaterMonth((u + offset) / DAY, (v + offset) / DAY);
    }
  }

  lemma FixedLocated(offset: int, ym: YearMonth, day: int, hour: int, minute: int)
    requires NaiveTime(ym, day, hour, minute).Some?
    ensures Located(Fixed(offset), ym, day, hour, minute) == Ok(NaiveTime(ym, day, hour, minute).value - offset)
    ensures MonthOf(Fixed(offset), NaiveTime(ym, day, hour, minute).value - offset) == ym
  {
    DayOfNaiveTime(ym, day, hour, minute, 0);
    MonthOfDayIsUnique(FirstDay(ym) + day - 1, ym);
  }

  lemma FixedBoundaryInMonth(offset: int, policy: Policy, ym: YearMonth)
    requires ym.Valid() && policy != AnchoredMonth(None)
    ensures BoundaryInMonth(Fixed(offset), policy, ym)
  {
    var z := Fixed(offset);
    if Boundary(z, policy, ym).Ok? {
      match policy {
        case NaturalMonth =>
          FixedLocated(offset, ym, 1, 0, 0);
          forall u | MonthIndex(z, u) == ym.Index() ensures Boundary(z, policy, ym).value <= u {
            SameIndexSameMonth(MonthOf(z, u), ym);
          }
        case AnchoredMonth(Some(a)) =>
          FixedLocated(offset, ym, Min(a.day, DaysInMonth(ym)), a.hour, a.minute);
      }
    }
  }

  lemma FixedZonesAreRegular(offset: int, policy: Policy)
    requires policy != AnchoredMonth(None)
    ensures Regular(Fixed(offset), policy)
  {
    FixedMonthsInOrder(offset);
    forall ym: YearMonth | ym.Valid() ensures BoundaryInMonth(Fixed(offset), policy, ym) {
      FixedBoundaryInMonth(offset, policy, ym);
    }
  }

  predicate Configured(policy: Policy) {
    policy.AnchoredMonth? ==>
      policy.anchor.Some?
      && NaiveTime(policy.anchor.value.ym, policy.anchor.value.day, policy.anchor.value.hour, policy.anchor.value.minute).Some?
  }

  lemma FixedAnchored(offset: int, a: Anchor, ym: YearMonth)
    requires Configured(AnchoredMonth(Some(a)))
    requires ym.Valid() && MIN_YEAR <= ym.year && NextMonth(ym).year <= MAX_YEAR
    ensures var r := Anchored(Fixed(offset), ym, a.day, a.hour, a.minute);
            r.Ok? && MonthOf(Fixed(offset), r.value) == ym
  {
    AnchoredIsLocated(Fixed(offset), ym, a.day, a.hour, a.minute);
    FixedLocated(offset, ym, Min(a.day, DaysInMonth(ym)), a.hour, a.minute);
  }

  /** Inside the representable years the schedule never fails in a fixed-offset zone. */
  lemma FixedPeriodExists(offset: int, policy: Policy, now: int)
    requires Configured(policy)
    requires MIN_YEAR < MonthOf(Fixed(offset), now).year < MAX_YEAR
    ensures PeriodAt(Fixed(offset), policy, now).Ok?
  {
    var z, current := Fixed(offset), MonthOf(Fixed(offset), now);
    match policy {
      case NaturalMonth =>
        FixedLocated(offset, current, 1, 0, 0);
        FixedLocated(offset, NextMonth(current), 1, 0, 0);
      case AnchoredMonth(Some(a)) =>
        FixedLocated(offset, a.ym, a.day, a.hour, a.minute);
        FixedAnchored(offset, a, current);
        FixedAnchored(offset, a, PreviousMonth(current));
        FixedAnchored(offset, a, NextMonth(current));
        SameIndexSameMonth(NextMonth(PreviousMonth(current)), current);
    }
  }

  /**
    In a fixed-offset zone, under either policy and at every instant, the period
    exists, contains the instant, is the period of each of its instants, and is
    followed by a period that starts exactly at its next reset.
   */
  lemma FixedZonePeriodsTile(offset: int, policy: Policy, now: int, other: int)
    requires Configured(policy)
    requires MIN_YEAR < MonthOf(Fixed(offset), now).year < MAX_YEAR - 1
    ensures PeriodAt(Fixed(offset), policy, now).Ok?
    ensures var p := PeriodAt(Fixed(offset), policy, now).value;
            && p.start <= now < p.next
            && (p.start <= other < p.next ==> PeriodAt(Fixed(offset), policy, other) == Ok(p))
            && PeriodAt(Fixed(offset), policy, p.next).Ok?
            && PeriodAt(Fixed(offset), policy, p.next).value.start == p.next
  {
    var z := Fixed(offset);
    FixedPeriodExists(offset, policy, now);
    FixedZonesAreRegular(offset, policy);
    PeriodsTile(z, policy, now, other);
    var p := PeriodAt(z, policy, now).value;
    var m := PeriodIsBetweenBoundaries(z, policy, now);
    assert MonthIndex(z, p.start) <= MonthIndex(z, now) <= MonthIndex(z, p.next);
    FixedPeriodExists(offset, policy, p.next);
  }

  // ---------------------------------------------------------------- which zones are regular, exactly

  /** The wall clock shows the time k hours after `naive` at some instant. */
  predicate Shown(z: Zone, naive: int, k: int) { Earliest(z, naive + k * HOUR, None).Some? }

  lemma ShownIffSomeInstantShowsIt(z: Zone, naive: int, k: int)
    ensures Shown(z, naive, k) <==> exists u {:trigger LocalTime(z, u)} :: LocalTime(z, u) == naive + k * HOUR
  {
    EarliestIsFirst(z, naive + k * HOUR, None);
    if Shown(z, naive, k) {
      assert LocalTime(z, Earliest(z, naive + k * HOUR, None).value) == naive + k * HOUR;
    }
  }

  /** Some of the hourly times from the anchored one on exists before the month ends. */
  predicate FitsItsMonth(z: Zone, a: Anchor, ym: YearMonth)
    requires ym.Valid()
  {
    var naive := NaiveTime(ym, Min(a.day, DaysInMonth(ym)), a.hour, a.minute);
    naive.Some? && exists k :: 0 <= k <= 3 && naive.value + k * HOUR < (FirstDay(ym) + DaysInMonth(ym)) * DAY && Shown(z, naive.value, k)
  }

  /** An anchored boundary lies in its month exactly when an hourly time of the month is left for it. */
  lemma AnchoredBoundaryInMonthIff(z: Zone, a: Anchor, ym: YearMonth)
    requires ym.Valid() && Boundary(z, AnchoredMonth(Some(a)), ym).Ok?
    ensures BoundaryInMonth(z, AnchoredMonth(Some(a)), ym) <==> FitsItsMonth(z, a, ym)
  {
    var day := Min(a.day, DaysInMonth(ym));
    var naive, b := NaiveTime(ym, day, a.hour, a.minute).value, Boundary(z, AnchoredMonth(Some(a)), ym).value;
    var shift := ResolvedShowsFirst(z, naive, 0);
    DayOfNaiveTime(ym, day, a.hour, a.minute, 0);
    ShownIffSomeInstantShowsIt(z, naive, shift);
    if FitsItsMonth(z, a, ym) {
      var k :| 0 <= k <= 3 && naive + k * HOUR < (FirstDay(ym) + DaysInMonth(ym)) * DAY && Shown(z, naive, k);
      ShownIffSomeInstantShowsIt(z, naive, k);
      var u :| LocalTime(z, u) == naive + k * HOUR;
      assert k < shift ==> NotAt(z, u, naive, k);
      assert FirstDay(ym) * DAY <= LocalTime(z, b) < (FirstDay(ym) + DaysInMonth(ym)) * DAY;
      MonthOfDayIsUnique(LocalTime(z, b) / DAY, ym);
    }
    if MonthOf(z, b) == ym {
      assert LocalTime(z, b) / DAY < FirstDay(ym) + DaysInMonth(ym);
    }
  }

  /** The zones in which an anchored schedule is regular. */
  lemma AnchoredMonthsAreRegularIff(z: Zone, a: Anchor)
    ensures Regular(z, AnchoredMonth(Some(a)))
       <==> MonthsInOrder(z)
            && forall ym: YearMonth :: ym.Valid() && Boundary(z, AnchoredMonth(Some(a)), ym).Ok? ==> FitsItsMonth(z, a, ym)
  {
    var policy := AnchoredMonth(Some(a));
    forall ym: YearMonth | ym.Valid() && Boundary(z, policy, ym).Ok? ensures BoundaryInMonth(z, policy, ym) <==> FitsItsMonth(z, a, ym) {
      AnchoredBoundaryInMonthIff(z, a, ym);
    }
    forall ym: YearMonth | ym.Valid() && !Boundary(z, policy, ym).Ok? ensures BoundaryInMonth(z, policy, ym) {
    }
  }

  ghost predicate FirstInstant(z: Zone, ym: YearMonth, f: int) {
    && MonthOf(z, f) == ym
    && forall u {:trigger MonthIndex(z, u)} :: MonthIndex(z, u) == ym.Index() ==> f <= u
  }

  /** The first hourly time from midnight of the first on that exists is what f shows. */
  predicate OpensOnTheFirstHour(z: Zone, ym: YearMonth, f: int)
    requires ym.Valid()
  {
    var midnight := FirstDay(ym) * DAY;
    exists k :: 0 <= k <= 3 && LocalTime(z, f) == midnight + k * HOUR && forall j :: 0 <= j < k ==> !Shown(z, midnight, j)
  }

  /** The natural boundary of a month is its first instant exactly when that instant shows the month's first hourly time. */
  lemma NaturalStartIsTheFirstInstantIff(z: Zone, ym: YearMonth, f: int)
    requires ym.Valid() && FirstInstant(z, ym, f)
    requires Located(z, ym, 1, 0, 0).Ok?
    ensures f <= Located(z, ym, 1, 0, 0).value
    ensures Located(z, ym, 1, 0, 0).value <= f <==> OpensOnTheFirstHour(z, ym, f)
    ensures BoundaryInMonth(z, NaturalMonth, ym) <==> OpensOnTheFirstHour(z, ym, f)
  {
    var midnight, start := FirstDay(ym) * DAY, Located(z, ym, 1, 0, 0).value;
    assert NaiveTime(ym, 1, 0, 0) == Some(midnight);
    EarlyTimesStayInMonth(z, ym, 1, 0, 0);
    assert MonthIndex(z, start) == ym.Index() && MonthIndex(z, f) == ym.Index();
    var shift := ResolvedShowsFirst(z, midnight, 0);
    ShownFromTheFirst(z, start, midnight, shift);
    if OpensOnTheFirstHour(z, ym, f) {
      var k :| 0 <= k <= 3 && LocalTime(z, f) == midnight + k * HOUR && forall j :: 0 <= j < k ==> !Shown(z, midnight, j);
      assert k < shift ==> NotAt(z, f, midnight, k);
      assert shift < k ==> !Shown(z, midnight, shift);
      assert k == shift;
    }
  }

  lemma ShownFromTheFirst(z: Zone, instant: int, naive: int, shift: nat)
    requires ShowsFirst(z, instant, naive, 0, shift)
    ensures Shown(z, naive, shift)
    ensures forall j :: 0 <= j < shift ==> !Shown(z, naive, j)
  {
    ShownIffSomeInstantShowsIt(z, naive, shift);
    forall j | 0 <= j < shift ensures !Shown(z, naive, j) {
      ShownIffSomeInstantShowsIt(z, naive, j);
      forall u ensures LocalTime(z, u) != naive + j * HOUR {
        assert NotAt(z, u, naive, j);
      }
    }
  }

  function MaxOffset(z: Zone): int {
    match z
    case Fixed(offset) => offset
    case Until(offset, _, rest) => if offset >= MaxOffset(rest) then offset else MaxOffset(rest)
  }

  lemma {:induction false} OffsetIsBounded(z: Zone, u: int)
    ensures OffsetAt(z, u) <= MaxOffset(z)
  {
    if z.Until? {
      OffsetIsBounded(z.rest, u);
    }
  }

  /** A month that is shown at all has a first instant. */
  lemma {:induction false} SomeFirstInstant(z: Zone, ym: YearMonth, u: int) returns (f: int)
    requires ym.Valid() && MonthOf(z, u) == ym
    ensures FirstInstant(z, ym, f)
    decreases u - (FirstDay(ym) * DAY - MaxOffset(z))
  {
    OffsetIsBounded(z, u);
    if v {:trigger MonthIndex(z, v)} :| v < u && MonthIndex(z, v) == ym.Index() {
      SameIndexSameMonth(MonthOf(z, v), ym);
      OffsetIsBounded(z, v);
      f := SomeFirstInstant(z, ym, v);
    } else {
      f := u;
    }
  }

  lemma NaturalBoundaryInMonthIff(z: Zone, ym: YearMonth)
    requires ym.Valid()
    ensures BoundaryInMonth(z, NaturalMonth, ym)
       <==> (Located(z, ym, 1, 0, 0).Ok? ==> forall f :: FirstInstant(z, ym, f) ==> OpensOnTheFirstHour(z, ym, f))
  {
    if Located(z, ym, 1, 0, 0).Ok? {
      EarlyTimesStayInMonth(z, ym, 1, 0, 0);
      var first := SomeFirstInstant(z, ym, Located(z, ym, 1, 0, 0).value);
      forall f | FirstInstant(z, ym, f) ensures BoundaryInMonth(z, NaturalMonth, ym) <==> OpensOnTheFirstHour(z, ym, f) {
        NaturalStartIsTheFirstInstantIff(z, ym, f);
      }
    }
  }

  /**
    The zones in which natural months are regular: the wall clock never falls
    back across a month start, and every month opens on its first hourly time.
   */
  lemma NaturalMonthsAreRegularIff(z: Zone)
    ensures Regular(z, NaturalMonth)
       <==> MonthsInOrder(z)
            && forall ym: YearMonth, f :: ym.Valid() && Located(z, ym, 1, 0, 0).Ok? && FirstInstant(z, ym, f) ==> OpensOnTheFirstHour(z, ym, f)
  {
    forall ym: YearMonth | ym.Valid()
      ensures BoundaryInMonth(z, NaturalMonth, ym)
         <==> (Located(z, ym, 1, 0, 0).Ok? ==> forall f :: FirstInstant(z, ym, f) ==> OpensOnTheFirstHour(z, ym, f))
    {
      NaturalBoundaryInMonthIff(z, ym);
    }
  }

  /** Between midnight of the first and the time the month opens at lies a whole number of hours. */
  predicate OpensOnAnHour(z: Zone, ym: YearMonth, f: int)
    requires ym.Valid()
  {
    (LocalTime(z, f) - FirstDay(ym) * DAY) % HOUR == 0
  }

  /** Where no instant of the month shows an earlier time than its first, the test is for whole hours. */
  lemma NaturalStartIsOnTimeIff(z: Zone, ym: YearMonth, f: int)
    requires ym.Valid() && FirstInstant(z, ym, f)
    requires forall u {:trigger MonthIndex(z, u)} :: MonthIndex(z, u) == ym.Index() ==> LocalTime(z, f) <= LocalTime(z, u)
    requires Located(z, ym, 1, 0, 0).Ok?
    ensures f <= Located(z, ym, 1, 0, 0).value
    ensures Located(z, ym, 1, 0, 0).value <= f <==> OpensOnAnHour(z, ym, f)
    ensures BoundaryInMonth(z, NaturalMonth, ym) <==> OpensOnAnHour(z, ym, f)
  {
    var midnight, start := FirstDay(ym) * DAY, Located(z, ym, 1, 0, 0).value;
    assert NaiveTime(ym, 1, 0, 0) == Some(midnight);
    EarlyTimesStayInMonth(z, ym, 1, 0, 0);
    assert MonthIndex(z, start) == ym.Index() && MonthIndex(z, f) == ym.Index();
    var shift := ResolvedShowsFirst(z, midnight, 0);
    assert LocalTime(z, start) == midnight + shift * HOUR;
    if OpensOnAnHour(z, ym, f) {
      var k := (LocalTime(z, f) - midnight) / HOUR;
      assert LocalTime(z, f) == midnight + k * HOUR;
      assert 0 <= k <= shift;
      assert k < shift ==> NotAt(z, f, midnight, k);
    }
  }

  // ---------------------------------------------------------------- zones that are not

  ghost predicate InItsPeriod(z: Zone, policy: Policy, now: int) {
    PeriodAt(z, policy, now).Ok? && PeriodAt(z, policy, now).value.start <= now < PeriodAt(z, policy, now).value.next
  }

  /** Wherever the wall clock falls back from a month into the one before it, some natural period misses its instant. */
  lemma FallingBackBreaksTiling(z: Zone, earlier: int, later: int)
    requires earlier < later && MonthOf(z, earlier) == NextMonth(MonthOf(z, later))
    ensures !(InItsPeriod(z, NaturalMonth, earlier) && InItsPeriod(z, NaturalMonth, later))
  {
  }

  lemma BoundaryIsNotBeforeItsMonth(z: Zone, a: Anchor, ym: YearMonth)
    requires ym.Valid() && Anchored(z, ym, a.day, a.hour, a.minute).Ok?
    ensures ym.Index() <= MonthIndex(z, Anchored(z, ym, a.day, a.hour, a.minute).value)
  {
    AnchoredIsBoundary(z, a, ym);
    var day := Min(a.day, DaysInMonth(ym));
    var naive, b := NaiveTime(ym, day, a.hour, a.minute).value, Anchored(z, ym, a.day, a.hour, a.minute).value;
    var shift := ResolvedShowsFirst(z, naive, 0);
    DayOfNaiveTime(ym, day, a.hour, a.minute, 0);
    MonthOfDayIsUnique(naive / DAY, ym);
    LaterDayLaterMonth(naive / DAY, LocalTime(z, b) / DAY);
  }

  /**
    Where an anchored boundary resolves into the next month, the period it starts
    runs past that month's own boundary, whose instant computes another period;
    only a first anchor in between cuts it short.
   */
  lemma LateBoundaryBreaksTiling(z: Zone, a: Anchor, ym: YearMonth, b: int, c: int)
    requires MonthsInOrder(z) && ym.Valid()
    requires Anchored(z, ym, a.day, a.hour, a.minute) == Ok(b) && MonthOf(z, b) == NextMonth(ym)
    requires Anchored(z, NextMonth(ym), a.day, a.hour, a.minute) == Ok(c) && MonthOf(z, c) == NextMonth(ym) && b < c
    requires AnchoredPeriod(z, a, b).Ok? && AnchoredPeriod(z, a, c).Ok?
    requires !(b < Located(z, a.ym, a.day, a.hour, a.minute).value <= c)
    ensures AnchoredPeriod(z, a, b).value.start == b <= c < AnchoredPeriod(z, a, b).value.next
    ensures AnchoredPeriod(z, a, c).value.start == c
  {
    SameIndexSameMonth(PreviousMonth(NextMonth(ym)), ym);
    assert AnchoredStart(z, a, b) == Ok(b) && AnchoredStart(z, a, c) == Ok(c);
    var d := Anchored(z, NextMonth(NextMonth(ym)), a.day, a.hour, a.minute).value;
    BoundaryIsNotBeforeItsMonth(z, a, NextMonth(NextMonth(ym)));
    LaterMonthIsLater(z, c, d);
  }

  /**
    Where the wall clock skips half an hour at a month start, the natural period
    of the first instants of the month starts after them.
   */
  lemma HalfHourGapStartsLate()
    ensures var z := Until(0, 0, Fixed(30 * MINUTE));
            PeriodAt(z, NaturalMonth, 0).Ok? && 0 < PeriodAt(z, NaturalMonth, 0).value.start
  {
    var z := Until(0, 0, Fixed(30 * MINUTE));
    assert OffsetAt(z, 0) == OffsetAt(Fixed(30 * MINUTE), 0) == 30 * MINUTE;
    assert Holds(EPOCH, 0);
    MonthOfDayIsUnique(0, EPOCH);
    assert NaiveTime(EPOCH, 1, 0, 0) == Some(0);
    assert Earliest(z, 0, None) == Earliest(Fixed(30 * MINUTE), 0, Some(0)) == None;
    assert Earliest(z, HOUR, None) == Earliest(Fixed(30 * MINUTE), HOUR, Some(0)) == Some(30 * MINUTE);
    MonthOfDayIsUnique(HOUR / DAY, EPOCH);
    assert Resolve(z, 0, 0) == Resolve(z, 0, 1) == Ok(30 * MINUTE);
    NextMonthStarts(EPOCH);
    assert NextMonth(EPOCH) == YearMonth(1, 2);
    assert NaiveTime(NextMonth(EPOCH), 1, 0, 0) == Some(31 * DAY);
    assert Earliest(z, 31 * DAY, None) == Earliest(Fixed(30 * MINUTE), 31 * DAY, Some(0)) == Some(31 * DAY - 30 * MINUTE);
    assert Resolve(z, 31 * DAY, 0) == Ok(31 * DAY - 30 * MINUTE);
  }

  /** Where the wall clock falls back across a month start, a period can end before its instant. */
  lemma FoldAcrossAMonthStartEndsEarly()
    ensures var z, now := Until(0, 30 * MINUTE, Fixed(-HOUR)), 30 * MINUTE;
            PeriodAt(z, NaturalMonth, now).Ok? && PeriodAt(z, NaturalMonth, now).value.next < now
  {
    var z, now := Until(0, 30 * MINUTE, Fixed(-HOUR)), 30 * MINUTE;
    var before := PreviousMonth(EPOCH);
    assert OffsetAt(z, now) == OffsetAt(Fixed(-HOUR), now) == -HOUR;
    assert before == YearMonth(0, 12) && NextMonth(before) == EPOCH;
    NextMonthStarts(before);
    assert Holds(before, -1);
    MonthOfDayIsUnique(-1, before);
    assert MonthOf(z, now) == before;
    assert NaiveTime(before, 1, 0, 0) == Some(-31 * DAY);
    assert Resolve(z, -31 * DAY, 0) == Ok(-31 * DAY);
    assert NaiveTime(EPOCH, 1, 0, 0) == Some(0);
    assert Resolve(z, 0, 0) == Ok(0);
  }

  /**
    A two-hour gap over a month start and an anchor at 23:30 on the last day: the
    period that starts on the first of February includes the boundary of the 28th.
   */
  lemma GapAfterALateAnchorMakesALongPeriod()
    ensures var z, a := Until(0, 31 * DAY - HOUR, Fixed(2 * HOUR)), Anchor(EPOCH, 31, 23, 30);
            var b, c := 31 * DAY - 30 * MINUTE, 59 * DAY - 150 * MINUTE;
            && Anchored(z, EPOCH, 31, 23, 30) == Ok(b) && MonthOf(z, b) == NextMonth(EPOCH)
            && Anchored(z, NextMonth(EPOCH), 31, 23, 30) == Ok(c)
            && AnchoredPeriod(z, a, b).Ok? && AnchoredPeriod(z, a, c).Ok?
            && AnchoredPeriod(z, a, b).value.start == b <= c < AnchoredPeriod(z, a, b).value.next
            && AnchoredPeriod(z, a, c).value.start == c
  {
    var z, a := Until(0, 31 * DAY - HOUR, Fixed(2 * HOUR)), Anchor(EPOCH, 31, 23, 30);
    var b, c, d := 31 * DAY - 30 * MINUTE, 59 * DAY - 150 * MINUTE, 90 * DAY - 150 * MINUTE;
    FirstMonths();
    var february := NextMonth(EPOCH);
    LateJanuary(z);
    ClockAfterTheGap(z, b, 31, february);
    ClockAfterTheGap(z, c, 58, february);
    AnchoredAfterTheGap(z, february, 59 * DAY - 30 * MINUTE);
    AnchoredAfterTheGap(z, NextMonth(february), 90 * DAY - 30 * MINUTE);
    AnchoredIsLocated(z, EPOCH, 31, 23, 30);
    StartsWithALateBoundary(z, a, EPOCH, b, c, d);
  }

  lemma StartsWithALateBoundary(z: Zone, a: Anchor, ym: YearMonth, b: int, c: int, d: int)
    requires ym.Valid() && b < c < d
    requires Located(z, a.ym, a.day, a.hour, a.minute) == Ok(b)
    requires Anchored(z, ym, a.day, a.hour, a.minute) == Ok(b) && MonthOf(z, b) == NextMonth(ym)
    requires Anchored(z, NextMonth(ym), a.day, a.hour, a.minute) == Ok(c) && MonthOf(z, c) == NextMonth(ym)
    requires Anchored(z, NextMonth(NextMonth(ym)), a.day, a.hour, a.minute) == Ok(d)
    ensures AnchoredPeriod(z, a, b) == Ok(Period(b, d)) && AnchoredPeriod(z, a, c) == Ok(Period(c, d))
  {
    SameIndexSameMonth(PreviousMonth(NextMonth(ym)), ym);
  }

  lemma ClockAfterTheGap(z: Zone, u: int, day: int, ym: YearMonth)
    requires z == Until(0, 31 * DAY - HOUR, Fixed(2 * HOUR))
    requires 31 * DAY - HOUR <= u && day * DAY <= u + 2 * HOUR < (day + 1) * DAY && Holds(ym, day)
    ensures LocalTime(z, u) == u + 2 * HOUR && MonthOf(z, u) == ym
  {
    assert OffsetAt(z, u) == OffsetAt(z.rest, u) == 2 * HOUR;
    assert (u + 2 * HOUR) / DAY == day;
    MonthOfDayIsUnique(day, ym);
  }

  lemma AnchoredIsLocated(z: Zone, ym: YearMonth, day: int, hour: int, minute: int)
    requires ym.Valid() && MIN_YEAR <= ym.year && NextMonth(ym).year <= MAX_YEAR
    ensures Anchored(z, ym, day, hour, minute) == Located(z, ym, Min(day, DaysInMonth(ym)), hour, minute)
  {
    CrossingFindsTheLastDay(ym);
    MonthOfDayIsUnique(LastDayByCrossing(ym), ym);
  }

  lemma ShownTimeIsLocated(z: Zone, ym: YearMonth, day: int, hour: int, minute: int, naive: int, instant: int)
    requires NaiveTime(ym, day, hour, minute) == Some(naive) && Earliest(z, naive, None) == Some(instant)
    ensures Located(z, ym, day, hour, minute) == Ok(instant)
  {
  }

  lemma EarliestAfterTheGap(z: Zone, naive: int)
    requires z == Until(0, 31 * DAY - HOUR, Fixed(2 * HOUR)) && naive >= 31 * DAY + HOUR
    ensures Earliest(z, naive, None) == Some(naive - 2 * HOUR)
  {
    assert Earliest(z, naive, None) == Earliest(z.rest, naive, Some(z.at)) == Some(naive - 2 * HOUR);
  }

  /** The anchored boundary of a later month, whose last day's 23:30 is `naive`. */
  lemma AnchoredAfterTheGap(z: Zone, ym: YearMonth, naive: int)
    requires z == Until(0, 31 * DAY - HOUR, Fixed(2 * HOUR)) && naive >= 31 * DAY + HOUR
    requires ym.Valid() && 0 < ym.year < 100 && NaiveTime(ym, Min(31, DaysInMonth(ym)), 23, 30) == Some(naive)
    ensures Anchored(z, ym, 31, 23, 30) == Ok(naive - 2 * HOUR)
  {
    AnchoredIsLocated(z, ym, 31, 23, 30);
    EarliestAfterTheGap(z, naive);
    ShownTimeIsLocated(z, ym, Min(31, DaysInMonth(ym)), 23, 30, naive, naive - 2 * HOUR);
  }

  lemma FirstMonths()
    ensures NextMonth(EPOCH) == YearMonth(1, 2) && NextMonth(NextMonth(EPOCH)) == YearMonth(1, 3)
    ensures FirstDay(EPOCH) == 0 && FirstDay(NextMonth(EPOCH)) == 31 && FirstDay(NextMonth(NextMonth(EPOCH))) == 59
  {
    NextMonthStarts(EPOCH);
    NextMonthStarts(NextMonth(EPOCH));
  }

  lemma LateJanuary(z: Zone)
    requires z == Until(0, 31 * DAY - HOUR, Fixed(2 * HOUR))
    ensures Located(z, EPOCH, 31, 23, 30) == Ok(31 * DAY - 30 * MINUTE)
  {
    var naive := 31 * DAY - 30 * MINUTE;
    assert NaiveTime(EPOCH, 31, 23, 30) == Some(naive);
    assert Earliest(z, naive, None) == Earliest(z.rest, naive, Some(z.at)) == None;
    assert Earliest(z, naive + HOUR, None) == Earliest(z.rest, naive + HOUR, Some(z.at)) == None;
    assert Earliest(z, naive + 2 * HOUR, None) == Earliest(z.rest, naive + 2 * HOUR, Some(z.at)) == Some(naive);
    FirstMonths();
    MonthOfDayIsUnique((naive + HOUR) / DAY, NextMonth(EPOCH));
    MonthOfDayIsUnique((naive + 2 * HOUR) / DAY, NextMonth(EPOCH));
    assert Resolve(z, naive, 1) == Resolve(z, naive, 2) == Ok(naive);
  }
}
