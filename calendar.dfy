/**
 * The proleptic Gregorian calendar in integer arithmetic: day numbers counted
 * from 1970-01-01 and the conversion of epoch seconds to the UTC calendar date,
 * as pandas performs it for `to_datetime(..., unit='s')` followed by `.date()`.
 */
module Calendar {

  datatype Date = Date(year: int, month: int, day: int)

  const SecondsPerDay := 86400
  const DaysPerEra := 146097  // days in 400 Gregorian years

  predicate IsLeapYear(y: int)
  {
    y % 4 == 0 && (y % 100 != 0 || y % 400 == 0)
  }

  function YearLength(y: int): int
  {
    if IsLeapYear(y) then 366 else 365
  }

  function MonthLength(y: int, m: int): int
    requires 1 <= m <= 12
  {
    if m == 2 then (if IsLeapYear(y) then 29 else 28)
    else if m == 4 || m == 6 || m == 9 || m == 11 then 30
    else 31
  }

  predicate IsValid(d: Date)
  {
    1 <= d.month <= 12 && 1 <= d.day <= MonthLength(d.year, d.month)
  }

  /** Rata-die style count of leap years before year `y`, up to a constant. */
  function LeapsBefore(y: int): int
  {
    (y - 1) / 4 - (y - 1) / 100 + (y - 1) / 400
  }

  /** Day number of January 1st of year `y`; 1970-01-01 is day 0. */
  function YearStart(y: int): int
  {
    365 * (y - 1970) + LeapsBefore(y) - LeapsBefore(1970)
  }

  /** Days from January 1st to the first day of month `m`. */
  function MonthStart(y: int, m: int): int
    requires 1 <= m <= 12
  {
    var cumulative := [0, 31, 59, 90, 120, 151, 181, 212, 243, 273, 304, 334];
    cumulative[m - 1] + (if m > 2 && IsLeapYear(y) then 1 else 0)
  }

  /** Days since 1970-01-01 (negative before it). */
  function DayNumber(d: Date): int
    requires IsValid(d)
  {
    YearStart(d.year) + MonthStart(d.year, d.month) + d.day - 1
  }

  lemma YearStep(y: int)
    ensures YearStart(y + 1) == YearStart(y) + YearLength(y)
  {
    FourStep(y);
    CenturyStep(y);
    QuadCenturyStep(y);
  }

  /** From year `y - 1` to `y` the count of multiples of 4 grows exactly when 4 divides `y`. */
  lemma FourStep(y: int)
    ensures y / 4 - (y - 1) / 4 == if y % 4 == 0 then 1 else 0
  {
  }

  lemma CenturyStep(y: int)
    ensures y / 100 - (y - 1) / 100 == if y % 100 == 0 then 1 else 0
  {
  }

  lemma QuadCenturyStep(y: int)
    ensures y / 400 - (y - 1) / 400 == if y % 400 == 0 then 1 else 0
  {
  }

  lemma MonthStep(y: int, m: int)
    requires 1 <= m < 12
    ensures MonthStart(y, m + 1) == MonthStart(y, m) + MonthLength(y, m)
  {
  }

  lemma MonthsFillYear(y: int)
    ensures MonthStart(y, 12) + MonthLength(y, 12) == YearLength(y)
  {
  }

  /** The calendar repeats every 400 years. */
  lemma EraStep(y: int)
    ensures YearStart(y + 400) == YearStart(y) + DaysPerEra
  {
    assert (y + 399) / 4 == (y - 1) / 4 + 100;
    assert (y + 399) / 100 == (y - 1) / 100 + 4;
    assert (y + 399) / 400 == (y - 1) / 400 + 1;
  }

  lemma {:induction false} EraStart(q: int)
    ensures YearStart(1970 + 400 * q) == DaysPerEra * q
    decreases if q < 0 then -q else q
  {
    if q > 0 {
      EraStart(q - 1);
      EraStep(1970 + 400 * (q - 1));
    } else if q < 0 {
      EraStart(q + 1);
      EraStep(1970 + 400 * q);
    }
  }

  /** Walks forward from January 1st of `y` by `r` days, a year at a time. */
  function FindYear(y: int, r: int): (found: (int, int))
    requires 0 <= r
    ensures 0 <= found.1 < YearLength(found.0)
    ensures YearStart(found.0) + found.1 == YearStart(y) + r
    decreases r
  {
    if r < YearLength(y) then (y, r)
    else
      YearStep(y);
      FindYear(y + 1, r - YearLength(y))
  }

  /** Walks forward from the first of month `m` by `r` days, a month at a time. */
  function FindMonth(y: int, m: int, r: int): (found: (int, int))
    requires 1 <= m <= 12 && 0 <= r
    requires MonthStart(y, m) + r < YearLength(y)
    ensures 1 <= found.0 <= 12 && 0 <= found.1 < MonthLength(y, found.0)
    ensures MonthStart(y, found.0) + found.1 == MonthStart(y, m) + r
    decreases 12 - m
  {
    MonthsFillYear(y);
    if r < MonthLength(y, m) then (m, r)
    else
      MonthStep(y, m);
      FindMonth(y, m + 1, r - MonthLength(y, m))
  }

  /** The calendar date whose day number is `n`. */
  function FromDayNumber(n: int): (d: Date)
    ensures IsValid(d) && DayNumber(d) == n
  {
    var q := n / DaysPerEra;
    EraStart(q);
    var (y, dayOfYear) := FindYear(1970 + 400 * q, n % DaysPerEra);
    var (m, dayOfMonth) := FindMonth(y, 1, dayOfYear);
    Date(y, m, dayOfMonth + 1)
  }

  /** Strictly earlier in calendar order. */
  predicate Before(a: Date, b: Date)
  {
    a.year < b.year
    || (a.year == b.year && a.month < b.month)
    || (a.year == b.year && a.month == b.month && a.day < b.day)
  }

  predicate AtOrBefore(a: Date, b: Date)
  {
    a == b || Before(a, b)
  }

  lemma {:induction false} YearStartIncreasing(y1: int, y2: int)
    requires y1 < y2
    ensures YearStart(y1) + YearLength(y1) <= YearStart(y2)
    decreases y2 - y1
  {
    YearStep(y1);
    if y1 + 1 < y2 {
      YearStartIncreasing(y1 + 1, y2);
    }
  }

  lemma {:induction false} MonthStartIncreasing(y: int, m1: int, m2: int)
    requires 1 <= m1 < m2 <= 12
    ensures MonthStart(y, m1) + MonthLength(y, m1) <= MonthStart(y, m2)
    decreases m2 - m1
  {
    MonthStep(y, m1);
    if m1 + 1 < m2 {
      MonthStartIncreasing(y, m1 + 1, m2);
    }
  }

  /** A valid date's day lies inside its year. */
  lemma DayInYear(d: Date)
    requires IsValid(d)
    ensures YearStart(d.year) <= DayNumber(d) < YearStart(d.year) + YearLength(d.year)
  {
    MonthsFillYear(d.year);
    if d.month < 12 {
      MonthStartIncreasing(d.year, d.month, 12);
    }
  }

  /** Day numbers follow calendar order. */
  lemma DayNumberIncreasing(a: Date, b: Date)
    requires IsValid(a) && IsValid(b) && Before(a, b)
    ensures DayNumber(a) < DayNumber(b)
  {
    if a.year < b.year {
      DayInYear(a);
      DayInYear(b);
      YearStartIncreasing(a.year, b.year);
    } else if a.month < b.month {
      MonthStartIncreasing(a.year, a.month, b.month);
    }
  }

  /** Distinct valid dates have distinct day numbers. */
  lemma DayNumberInjective(a: Date, b: Date)
    requires IsValid(a) && IsValid(b) && DayNumber(a) == DayNumber(b)
    ensures a == b
  {
    if Before(a, b) {
      DayNumberIncreasing(a, b);
    } else if Before(b, a) {
      DayNumberIncreasing(b, a);
    }
  }

  /** FromDayNumber inverts DayNumber on valid dates. */
  lemma FromDayNumberInverts(d: Date)
    requires IsValid(d)
    ensures FromDayNumber(DayNumber(d)) == d
  {
    DayNumberInjective(FromDayNumber(DayNumber(d)), d);
  }

  /** The UTC calendar date on which the instant `ts` (epoch seconds) falls. */
  function EpochToDate(ts: int): (d: Date)
    ensures IsValid(d)
    ensures DayNumber(d) * SecondsPerDay <= ts < DayNumber(d) * SecondsPerDay + SecondsPerDay
  {
    FromDayNumber(ts / SecondsPerDay)
  }

  /** Exactly one valid date contains a given instant. */
  lemma EpochToDateUnique(ts: int, d: Date)
    requires IsValid(d)
    requires DayNumber(d) * SecondsPerDay <= ts < DayNumber(d) * SecondsPerDay + SecondsPerDay
    ensures EpochToDate(ts) == d
  {
    assert ts / SecondsPerDay == DayNumber(d);
    FromDayNumberInverts(d);
  }

  /** 1700000000 epoch seconds is 2023-11-14 (UTC). */
  lemma EpochExample()
    ensures EpochToDate(1700000000) == Date(2023, 11, 14)
  {
    assert DayNumber(Date(2023, 11, 14)) == 19675;
    EpochToDateUnique(1700000000, Date(2023, 11, 14));
  }

  /** A later instant never falls on an earlier date. */
  lemma EpochToDateMonotone(t1: int, t2: int)
    requires t1 <= t2
    ensures AtOrBefore(EpochToDate(t1), EpochToDate(t2))
  {
    var a, b := EpochToDate(t1), EpochToDate(t2);
    if Before(b, a) {
      DayNumberIncreasing(b, a);
    }
  }
}
