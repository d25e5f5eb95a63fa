/** The part of ECMAScript's `Date` that `new Date(year, monthIndex, day)`
    uses: MakeDay (section 21.4.1.28 of ECMA-262) turns a year, a month
    index that may run past 0..11 and a day that may run past the month into
    a day number counted from 1970-01-01, and the constructor maps the years
    0..99 to 1900..1999.  A time value is that day number times 86400000,
    and TimeClip (section 21.4.1.31) turns one beyond 8.64e15 ms, that is
    beyond 10^8 days either side of the epoch, into NaN, an Invalid Date.
    Within that range time values order exactly as the day numbers do; the
    model keeps the day numbers. */
module Calendar {

  predicate IsLeap(y: int) {
    y % 4 == 0 && (y % 100 != 0 || y % 400 == 0)
  }

  function YearLength(y: int): int {
    if IsLeap(y) then 366 else 365
  }

  function DaysInMonth(y: int, m: int): (n: int)
    requires 1 <= m <= 12
    ensures 28 <= n <= 31
    ensures n == 29 <==> m == 2 && IsLeap(y)
    ensures n == 28 <==> m == 2 && !IsLeap(y)
  {
    if m == 2 then (if IsLeap(y) then 29 else 28)
    else if m == 4 || m == 6 || m == 9 || m == 11 then 30
    else 31
  }

  /** Number of leap years among 1..y, shifted so that it also counts
      (negatively) below year 1. */
  function LeapsThrough(y: int): int {
    y / 4 - y / 100 + y / 400
  }

  /** Day number of January 1st of year `y`. */
  function DaysBeforeYear(y: int): int {
    365 * (y - 1970) + LeapsThrough(y - 1) - LeapsThrough(1969)
  }

  /** Days of year `y` that come before the first of month `m`. */
  function DaysBeforeMonth(y: int, m: int): int
    requires 1 <= m <= 12
  {
    var common :=
      if m == 1 then 0 else if m == 2 then 31 else if m == 3 then 59
      else if m == 4 then 90 else if m == 5 then 120 else if m == 6 then 151
      else if m == 7 then 181 else if m == 8 then 212 else if m == 9 then 243
      else if m == 10 then 273 else if m == 11 then 304 else 334;
    common + (if m > 2 && IsLeap(y) then 1 else 0)
  }

  /** Day number of day `d` of month `m` of year `y`; `d` may lie outside
      the month, in which case it counts on from the first of the month. */
  function DayNumber(y: int, m: int, d: int): int
    requires 1 <= m <= 12
  {
    DaysBeforeYear(y) + DaysBeforeMonth(y, m) + d - 1
  }

  /** MakeDay: the month index is reduced modulo 12 (floored) and the excess
      carried into the year. */
  function MakeDay(year: int, monthIndex: int, day: int): int {
    DayNumber(year + monthIndex / 12, monthIndex % 12 + 1, day)
  }

  /** The year the `Date` constructor uses: 0..99 stand for 1900..1999. */
  function FullYear(y: int): (r: int)
    ensures 0 <= y <= 99 ==> r == 1900 + y
    ensures (y < 0 || y > 99) ==> r == y
  {
    if 0 <= y <= 99 then 1900 + y else y
  }

  /** The day number MakeDay gives `new Date(year, month - 1, day)`,
      before TimeClip. */
  function DateFromParts(year: int, month: int, day: int): int {
    MakeDay(FullYear(year), month - 1, day)
  }

  /** The farthest day from the epoch a time value may lie: 8.64e15 ms
      are 10^8 days. */
  const MaxDay := 100000000

  /** A time value: a day number, or NaN for an Invalid Date. */
  datatype TimeValue = Day(n: int) | NaN

  /** TimeClip on the time value of a day. */
  function TimeClip(day: int): (t: TimeValue)
    ensures t.Day? <==> -MaxDay <= day <= MaxDay
    ensures t.Day? ==> t.n == day
  {
    if -MaxDay <= day <= MaxDay then Day(day) else NaN
  }

  /** `new Date(year, month - 1, day)`. */
  function NewDate(year: int, month: int, day: int): TimeValue {
    TimeClip(DateFromParts(year, month, day))
  }

  predicate ValidDate(y: int, m: int, d: int) {
    1 <= m <= 12 && 1 <= d <= DaysInMonth(y, m)
  }

  // ---------------------------------------------------------------------
  // Properties

  lemma LeapsThroughStep(y: int)
    ensures LeapsThrough(y) - LeapsThrough(y - 1) == if IsLeap(y) then 1 else 0
  {
    QuotientSteps(y);
    if y % 400 == 0 {
      MultipleOf400(y);
    } else if y % 100 == 0 {
      MultipleOf100(y);
    }
  }

  /** Each of the three quotients grows by one exactly at a multiple. */
  lemma QuotientSteps(y: int)
    ensures y / 4 - (y - 1) / 4 == if y % 4 == 0 then 1 else 0
    ensures y / 100 - (y - 1) / 100 == if y % 100 == 0 then 1 else 0
    ensures y / 400 - (y - 1) / 400 == if y % 400 == 0 then 1 else 0
  {
  }

  lemma MultipleOf400(y: int)
    requires y % 400 == 0
    ensures y % 100 == 0 && y % 4 == 0
  {
    var k := y / 400;
    assert y == 100 * (4 * k);
    assert y == 4 * (100 * k);
  }

  lemma MultipleOf100(y: int)
    requires y % 100 == 0
    ensures y % 4 == 0
  {
    var k := y / 100;
    assert y == 4 * (25 * k);
  }

  /** Consecutive New Year's days are one year length apart. */
  lemma DaysBeforeYearStep(y: int)
    ensures DaysBeforeYear(y + 1) == DaysBeforeYear(y) + YearLength(y)
  {
    LeapsThroughStep(y);
  }

  /** The calendar starts at the epoch: 1 January 1970 is day 0. */
  lemma EpochIsDayZero()
    ensures DateFromParts(1970, 1, 1) == 0
    ensures MakeDay(1970, 0, 1) == 0
  {
  }

  /** A year is at least 365 days, so New Year's days increase strictly. */
  lemma {:induction false} DaysBeforeYearGrows(y: int, k: nat)
    ensures DaysBeforeYear(y + k) >= DaysBeforeYear(y) + 365 * k
    decreases k
  {
    if k > 0 {
      DaysBeforeYearGrows(y, k - 1);
      DaysBeforeYearStep(y + k - 1);
    }
  }

  /** The months of a year fill it exactly, one after the other. */
  lemma MonthStep(y: int, m: int)
    requires 1 <= m <= 12
    ensures m < 12 ==> DaysBeforeMonth(y, m + 1) == DaysBeforeMonth(y, m) + DaysInMonth(y, m)
    ensures m == 12 ==> DaysBeforeMonth(y, m) + DaysInMonth(y, m) == YearLength(y)
  {
  }

  lemma MonthsIncrease(y: int, m1: int, m2: int)
    requires 1 <= m1 < m2 <= 12
    ensures DaysBeforeMonth(y, m1) + DaysInMonth(y, m1) <= DaysBeforeMonth(y, m2)
  {
  }

  /** A valid date falls inside its own year. */
  lemma WithinYear(y: int, m: int, d: int)
    requires ValidDate(y, m, d)
    ensures DaysBeforeYear(y) <= DayNumber(y, m, d) < DaysBeforeYear(y + 1)
  {
    DaysBeforeYearStep(y);
    MonthStep(y, 12);
    if m < 12 {
      MonthsIncrease(y, m, 12);
    }
  }

  /** Day numbers order valid dates exactly as the calendar does: by year,
      then month, then day. */
  lemma DayNumberOrder(y1: int, m1: int, d1: int, y2: int, m2: int, d2: int)
    requires ValidDate(y1, m1, d1) && ValidDate(y2, m2, d2)
    ensures DayNumber(y1, m1, d1) < DayNumber(y2, m2, d2) <==>
      y1 < y2 || (y1 == y2 && (m1 < m2 || (m1 == m2 && d1 < d2)))
  {
    if y1 < y2 {
      EarlierYear(y1, m1, d1, y2, m2, d2);
    } else if y2 < y1 {
      EarlierYear(y2, m2, d2, y1, m1, d1);
    } else if m1 < m2 {
      EarlierMonth(y1, m1, d1, m2, d2);
    } else if m2 < m1 {
      EarlierMonth(y1, m2, d2, m1, d1);
    }
  }

  lemma EarlierYear(y1: int, m1: int, d1: int, y2: int, m2: int, d2: int)
    requires ValidDate(y1, m1, d1) && ValidDate(y2, m2, d2) && y1 < y2
    ensures DayNumber(y1, m1, d1) < DayNumber(y2, m2, d2)
  {
    WithinYear(y1, m1, d1);
    WithinYear(y2, m2, d2);
    DaysBeforeYearGrows(y1 + 1, y2 - y1 - 1);
  }

  lemma EarlierMonth(y: int, m1: int, d1: int, m2: int, d2: int)
    requires ValidDate(y, m1, d1) && ValidDate(y, m2, d2) && m1 < m2
    ensures DayNumber(y, m1, d1) < DayNumber(y, m2, d2)
  {
    MonthsIncrease(y, m1, m2);
  }

  /** Distinct valid dates have distinct day numbers. */
  lemma DayNumberInjective(y1: int, m1: int, d1: int, y2: int, m2: int, d2: int)
    requires ValidDate(y1, m1, d1) && ValidDate(y2, m2, d2)
    requires DayNumber(y1, m1, d1) == DayNumber(y2, m2, d2)
    ensures y1 == y2 && m1 == m2 && d1 == d2
  {
    DayNumberOrder(y1, m1, d1, y2, m2, d2);
    DayNumberOrder(y2, m2, d2, y1, m1, d1);
  }

  /** Twelve months past a month index is the same month a year later. */
  lemma MonthIndexCarries(year: int, monthIndex: int, day: int)
    ensures MakeDay(year, monthIndex + 12, day) == MakeDay(year + 1, monthIndex, day)
  {
    assert (monthIndex + 12) / 12 == monthIndex / 12 + 1;
    assert (monthIndex + 12) % 12 == monthIndex % 12;
  }

  /** The day after the last day of a month is the first of the next one,
      across the end of the year too. */
  lemma DayOverflowCarries(year: int, monthIndex: int)
    requires 0 <= monthIndex <= 11
    ensures MakeDay(year, monthIndex, DaysInMonth(year, monthIndex + 1) + 1)
         == MakeDay(year, monthIndex + 1, 1)
  {
    assert monthIndex / 12 == 0 && monthIndex % 12 == monthIndex;
    MonthStep(year, monthIndex + 1);
    if monthIndex == 11 {
      assert (monthIndex + 1) / 12 == 1 && (monthIndex + 1) % 12 == 0;
      DaysBeforeYearStep(year);
    } else {
      assert (monthIndex + 1) / 12 == 0 && (monthIndex + 1) % 12 == monthIndex + 1;
    }
  }

  /** Consecutive days of a month are consecutive day numbers. */
  lemma NextDay(year: int, monthIndex: int, day: int)
    ensures MakeDay(year, monthIndex, day + 1) == MakeDay(year, monthIndex, day) + 1
  {
  }

  /** A two-digit year means the twentieth century: "24" is 1924. */
  lemma TwoDigitYears(year: int, month: int, day: int)
    requires 0 <= year <= 99
    ensures DateFromParts(year, month, day) == DateFromParts(1900 + year, month, day)
  {
  }

  /** With the month inside 1..12, MakeDay of its index is the plain day
      number. */
  lemma MakeDayOfMonth(year: int, month: int, day: int)
    requires 1 <= month <= 12
    ensures MakeDay(year, month - 1, day) == DayNumber(year, month, day)
  {
    assert (month - 1) / 12 == 0 && (month - 1) % 12 + 1 == month;
  }

  /** For a year of at least 100 and a month inside 1..12, MakeDay in the
      `Date` constructor gives the plain day number. */
  lemma DateFromPartsOfMonth(year: int, month: int, day: int)
    requires year >= 100 && 1 <= month <= 12
    ensures DateFromParts(year, month, day) == DayNumber(year, month, day)
  {
    MakeDayOfMonth(year, month, day);
  }

  /** The epoch splits the valid dates: the ones before 1970 have negative
      day numbers, the ones after 1 January 1970 positive ones. */
  lemma EpochSplits(y: int, m: int, d: int)
    requires ValidDate(y, m, d)
    ensures DayNumber(y, m, d) < 0 <==> y < 1970
    ensures DayNumber(y, m, d) > 0 <==> y > 1970 || (y == 1970 && (m > 1 || d > 1))
  {
    assert DayNumber(1970, 1, 1) == 0;
    DayNumberOrder(y, m, d, 1970, 1, 1);
    DayNumberOrder(1970, 1, 1, y, m, d);
  }

  /** 13 September 275760 is the last day a time value reaches. */
  lemma LastDay()
    ensures ValidDate(275760, 9, 13) && DayNumber(275760, 9, 13) == MaxDay
  {
  }

  /** From year 100 on, `new Date` of a valid date is that date's day
      number up to 13 September 275760, and an Invalid Date after it. */
  lemma NewDateRange(y: int, m: int, d: int)
    requires y >= 100 && ValidDate(y, m, d)
    ensures NewDate(y, m, d).Day? <==> y < 275760 || (y == 275760 && (m < 9 || (m == 9 && d <= 13)))
    ensures NewDate(y, m, d).Day? ==> NewDate(y, m, d).n == DayNumber(y, m, d)
  {
    DateFromPartsOfMonth(y, m, d);
    LastDay();
    DayNumberOrder(y, m, d, 275760, 9, 13);
    if DayNumber(y, m, d) == MaxDay {
      DayNumberInjective(y, m, d, 275760, 9, 13);
    }
    WithinYear(y, m, d);
    DaysBeforeYearGrows(100, y - 100);
    assert DaysBeforeYear(100) > -MaxDay;
  }
}
