/**
  The proleptic Gregorian calendar the accounting schedule is computed in:
  months as (year, month) pairs, days as day numbers counted from 0001-01-01.
 */
module Calendar {

  datatype YearMonth = YearMonth(year: int, month: int) {
    predicate Valid() { 1 <= month <= 12 }

    /** Months in one line, so that neighbours differ by one. */
    function Index(): int { 12 * year + month - 1 }
  }

  predicate IsLeap(year: int) { year % 4 == 0 && (year % 100 != 0 || year % 400 == 0) }

  function DaysInMonth(ym: YearMonth): (n: int)
    requires ym.Valid()
    ensures 28 <= n <= 31
  {
    if ym.month == 2 then (if IsLeap(ym.year) then 29 else 28)
    else if ym.month == 4 || ym.month == 6 || ym.month == 9 || ym.month == 11 then 30
    else 31
  }

  function NextMonth(ym: YearMonth): (next: YearMonth)
    requires ym.Valid()
    ensures next.Valid() && next.Index() == ym.Index() + 1
  {
    if ym.month == 12 then YearMonth(ym.year + 1, 1) else YearMonth(ym.year, ym.month + 1)
  }

  function PreviousMonth(ym: YearMonth): (previous: YearMonth)
    requires ym.Valid()
    ensures previous.Valid() && previous.Index() == ym.Index() - 1
  {
    if ym.month == 1 then YearMonth(ym.year - 1, 12) else YearMonth(ym.year, ym.month - 1)
  }

  const EPOCH: YearMonth := YearMonth(1, 1)

  /** Days from 0001-01-01 to the first of the month, negative for earlier months. */
  function FirstDay(ym: YearMonth): int
    requires ym.Valid()
    decreases if ym.Index() < EPOCH.Index() then EPOCH.Index() - ym.Index() else ym.Index() - EPOCH.Index()
  {
    if ym.Index() < EPOCH.Index() then FirstDay(NextMonth(ym)) - DaysInMonth(ym)
    else if ym.Index() == EPOCH.Index() then 0
    else FirstDay(PreviousMonth(ym)) + DaysInMonth(PreviousMonth(ym))
  }

  lemma SameIndexSameMonth(a: YearMonth, b: YearMonth)
    requires a.Valid() && b.Valid() && a.Index() == b.Index()
    ensures a == b
  {
    assert a.year == a.Index() / 12 && b.year == b.Index() / 12;
  }

  /** Months follow each other without a gap, across year ends too. */
  lemma NextMonthStarts(ym: YearMonth)
    requires ym.Valid()
    ensures FirstDay(NextMonth(ym)) == FirstDay(ym) + DaysInMonth(ym)
  {
    SameIndexSameMonth(PreviousMonth(NextMonth(ym)), ym);
  }

  lemma {:induction false} MonthsAreOrdered(a: YearMonth, b: YearMonth)
    requires a.Valid() && b.Valid() && a.Index() < b.Index()
    ensures FirstDay(a) + DaysInMonth(a) <= FirstDay(b)
    decreases b.Index() - a.Index()
  {
    NextMonthStarts(a);
    var next := NextMonth(a);
    if next.Index() < b.Index() {
      MonthsAreOrdered(next, b);
    } else {
      SameIndexSameMonth(next, b);
    }
  }

  /** The day lies in the month. */
  predicate Holds(ym: YearMonth, day: int) {
    ym.Valid() && FirstDay(ym) <= day < FirstDay(ym) + DaysInMonth(ym)
  }

  lemma {:induction false} SomeMonthFrom(day: int, ym: YearMonth) returns (found: YearMonth)
    requires ym.Valid()
    ensures Holds(found, day)
    decreases if day < FirstDay(ym) then FirstDay(ym) - day else day - FirstDay(ym)
  {
    NextMonthStarts(ym);
    NextMonthStarts(PreviousMonth(ym));
    SameIndexSameMonth(NextMonth(PreviousMonth(ym)), ym);
    if day < FirstDay(PreviousMonth(ym)) {
      found := SomeMonthFrom(day, PreviousMonth(ym));
    } else if day < FirstDay(ym) {
      found := PreviousMonth(ym);
    } else if day < FirstDay(NextMonth(ym)) {
      found := ym;
    } else {
      found := SomeMonthFrom(day, NextMonth(ym));
    }
  }

  lemma OneMonthHolds(day: int, a: YearMonth, b: YearMonth)
    requires Holds(a, day) && Holds(b, day)
    ensures a == b
  {
    if a.Index() < b.Index() {
      MonthsAreOrdered(a, b);
    } else if b.Index() < a.Index() {
      MonthsAreOrdered(b, a);
    } else {
      SameIndexSameMonth(a, b);
    }
  }

  lemma ExactlyOneMonthHolds(day: int)
    ensures exists ym :: Holds(ym, day)
    ensures forall a, b :: Holds(a, day) && Holds(b, day) ==> a == b
  {
    var found := SomeMonthFrom(day, EPOCH);
    forall a, b | Holds(a, day) && Holds(b, day) ensures a == b {
      OneMonthHolds(day, a, b);
    }
  }

  /** The month a day lies in. */
  function MonthOfDay(day: int): (ym: YearMonth)
    ensures Holds(ym, day)
  {
    ExactlyOneMonthHolds(day);
    var ym: YearMonth :| Holds(ym, day);
    ym
  }

  lemma MonthOfDayIsUnique(day: int, ym: YearMonth)
    requires Holds(ym, day)
    ensures MonthOfDay(day) == ym
  {
    OneMonthHolds(day, MonthOfDay(day), ym);
  }

  lemma LaterDayLaterMonth(a: int, b: int)
    requires a <= b
    ensures MonthOfDay(a).Index() <= MonthOfDay(b).Index()
  {
    if MonthOfDay(b).Index() < MonthOfDay(a).Index() {
      MonthsAreOrdered(MonthOfDay(b), MonthOfDay(a));
    }
  }

  /**
    Stepping 32 days past the first of a month, back to the first of the month
    reached, and one day back again lands on the month's last day.
   */
  function LastDayByCrossing(ym: YearMonth): int
    requires ym.Valid()
  {
    var crossed := FirstDay(ym) + 32;
    FirstDay(MonthOfDay(crossed)) - 1
  }

  lemma CrossingReachesTheNextMonth(ym: YearMonth, next: YearMonth, crossed: int)
    requires ym.Valid() && next.Valid()
    requires FirstDay(next) == FirstDay(ym) + DaysInMonth(ym)
    requires crossed == FirstDay(ym) + 32
    ensures MonthOfDay(crossed) == next
  {
    assert Holds(next, crossed);
    MonthOfDayIsUnique(crossed, next);
  }

  lemma CrossingFindsTheLastDay(ym: YearMonth)
    requires ym.Valid()
    ensures MonthOfDay(FirstDay(ym) + 32) == NextMonth(ym)
    ensures LastDayByCrossing(ym) == FirstDay(ym) + DaysInMonth(ym) - 1
  {
    NextMonthStarts(ym);
    CrossingReachesTheNextMonth(ym, NextMonth(ym), FirstDay(ym) + 32);
  }

  // ---------------------------------------------------------------- the civil day count

  /** Years counted from March, so that a leap day ends its year. */
  function MarchYear(ym: YearMonth): int { if ym.month <= 2 then ym.year - 1 else ym.year }

  /** The days of the years from March before year y, leap days included. */
  function DaysBeforeMarch(y: int): int { 365 * y + y / 4 - y / 100 + y / 400 }

  /** From March on, five months have 153 days. */
  function DaysSinceMarch(month: int): int { (153 * ((month + 9) % 12) + 2) / 5 }

  /**
    The day number of the first of a month without any list of months: a year has
    365 days, and every fourth one a day more, but for the centuries not divisible
    by 400.
   */
  function CivilDay(ym: YearMonth): int
    requires ym.Valid()
  {
    DaysBeforeMarch(MarchYear(ym)) + DaysSinceMarch(ym.month) - 306
  }

  lemma OneMoreMultiple(year: int)
    ensures year / 4 - (year - 1) / 4 == if year % 4 == 0 then 1 else 0
    ensures year / 100 - (year - 1) / 100 == if year % 100 == 0 then 1 else 0
    ensures year / 400 - (year - 1) / 400 == if year % 400 == 0 then 1 else 0
  {
  }

  lemma DaysOfAYear(year: int)
    ensures DaysBeforeMarch(year) - DaysBeforeMarch(year - 1) == if IsLeap(year) then 366 else 365
  {
    OneMoreMultiple(year);
    assert year % 400 == 0 ==> year % 100 == 0;
    assert year % 100 == 0 ==> year % 4 == 0;
  }

  lemma DaysOfAMonth(ym: YearMonth)
    requires ym.Valid() && ym.month != 2
    ensures DaysSinceMarch(NextMonth(ym).month) - DaysSinceMarch(ym.month) == DaysInMonth(ym)
  {
  }

  lemma NextCivilMonth(ym: YearMonth)
    requires ym.Valid()
    ensures CivilDay(NextMonth(ym)) == CivilDay(ym) + DaysInMonth(ym)
  {
    if ym.month == 2 {
      DaysOfAYear(ym.year);
    } else {
      DaysOfAMonth(ym);
      assert MarchYear(NextMonth(ym)) == MarchYear(ym);
    }
  }

  /** The calendar built month by month is the proleptic Gregorian one, in every year. */
  lemma {:induction false} FirstDayIsTheCivilDay(ym: YearMonth)
    requires ym.Valid()
    ensures FirstDay(ym) == CivilDay(ym)
    decreases if ym.Index() < EPOCH.Index() then EPOCH.Index() - ym.Index() else ym.Index() - EPOCH.Index()
  {
    if ym.Index() < EPOCH.Index() {
      FirstDayIsTheCivilDay(NextMonth(ym));
      NextCivilMonth(ym);
    } else if ym.Index() == EPOCH.Index() {
      SameIndexSameMonth(ym, EPOCH);
    } else {
      var previous := PreviousMonth(ym);
      FirstDayIsTheCivilDay(previous);
      NextCivilMonth(previous);
      SameIndexSameMonth(NextMonth(previous), ym);
    }
  }
}
