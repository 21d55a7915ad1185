/**
 * Pure proleptic-Gregorian arithmetic standing in for the host's `Date` object.
 *
 * Days are numbered from 0000-01-01 (day 0).  `MakeDay` follows the MakeDay
 * operation of the ECMAScript specification (section 21.4.1.28 of ECMA-262):
 * an out-of-range month index is first folded into the year, then the day
 * of month is added to the first day of that month, so day 0 is the last
 * day of the previous month and day 32 spills into the next one.
 */
module Gregorian {

  /** A local calendar date as `Date` exposes it: full year, month index 0..11, day of month. */
  datatype CivilDate = CivilDate(year: int, month: int, day: int)

  predicate IsLeapYear(y: int) {
    y % 4 == 0 && (y % 100 != 0 || y % 400 == 0)
  }

  /** Length of month `m` (0 = January) of year `y`. */
  function DaysInMonth(y: int, m: int): (n: int)
    requires 0 <= m < 12
    ensures 28 <= n <= 31
    ensures n == 29 <==> m == 1 && IsLeapYear(y)
    ensures n == 28 <==> m == 1 && !IsLeapYear(y)
  {
    if m == 1 then (if IsLeapYear(y) then 29 else 28)
    else if m == 3 || m == 5 || m == 8 || m == 10 then 30
    else 31
  }

  predicate IsValid(d: CivilDate) {
    0 <= d.month < 12 && 1 <= d.day <= DaysInMonth(d.year, d.month)
  }

  /** A date that exists on the calendar. */
  type ValidDate = d: CivilDate | IsValid(d) witness CivilDate(1970, 0, 1)

  /** Number of leap years in [0, y): ceilings written as floors, valid for negative years too. */
  function LeapYearsBefore(y: int): int {
    (y + 3) / 4 - (y + 99) / 100 + (y + 399) / 400
  }

  /** Day number of January 1st of year `y`. */
  function YearStart(y: int): int {
    365 * y + LeapYearsBefore(y)
  }

  /** Days of year `y` before the first of month `m`; `m == 12` gives the length of the year. */
  function MonthStart(y: int, m: int): (n: int)
    requires 0 <= m <= 12
    ensures 0 <= n <= 366
  {
    [0, 31, 59, 90, 120, 151, 181, 212, 243, 273, 304, 334, 365][m]
      + (if m > 1 && IsLeapYear(y) then 1 else 0)
  }

  /** Day number of a date whose month index is in range. */
  function DayNumber(y: int, m: int, d: int): int
    requires 0 <= m < 12
  {
    YearStart(y) + MonthStart(y, m) + d - 1
  }

  /** ECMAScript MakeDay: any month index and any day of month. */
  function MakeDay(y: int, m: int, d: int): int {
    DayNumber(y + m / 12, m % 12, d)
  }

  /** Day number of 1970-01-01, the Unix epoch. */
  const UnixEpochDay: int := 719528

  /** Day of the week, 0 = Sunday ... 6 = Saturday; day 0 (0000-01-01) was a Saturday. */
  function Weekday(y: int, m: int, d: int): (w: int)
    ensures 0 <= w < 7
  {
    (MakeDay(y, m, d) + 6) % 7
  }

  lemma CeilingStep4(y: int)
    ensures (y + 4) / 4 - (y + 3) / 4 == if y % 4 == 0 then 1 else 0
  {
  }

  lemma CeilingStep100(y: int)
    ensures (y + 100) / 100 - (y + 99) / 100 == if y % 100 == 0 then 1 else 0
  {
  }

  lemma CeilingStep400(y: int)
    ensures (y + 400) / 400 - (y + 399) / 400 == if y % 400 == 0 then 1 else 0
  {
  }

  /** A multiple of 400 is a multiple of 100, and a multiple of 100 a multiple of 4. */
  lemma DivisorChain(y: int)
    ensures y % 400 == 0 ==> y % 100 == 0
    ensures y % 100 == 0 ==> y % 4 == 0
  {
    if y % 400 == 0 {
      var q := y / 400;
      assert y == 400 * q;
      var j := 4 * q;
      assert y == 100 * j;
    }
    if y % 100 == 0 {
      var q := y / 100;
      assert y == 100 * q;
      var j := 25 * q;
      assert y == 4 * j;
    }
  }

  /** A year has 366 days exactly when it is a leap year. */
  lemma {:induction false} YearLength(y: int)
    ensures YearStart(y + 1) - YearStart(y) == MonthStart(y, 12)
    ensures YearStart(y + 1) - YearStart(y) == if IsLeapYear(y) then 366 else 365
  {
    var c4, c100, c400 := (y + 4) / 4 - (y + 3) / 4, (y + 100) / 100 - (y + 99) / 100, (y + 400) / 400 - (y + 399) / 400;
    assert YearStart(y + 1) - YearStart(y) == 365 + c4 - c100 + c400;
    CeilingStep4(y);
    CeilingStep100(y);
    CeilingStep400(y);
    DivisorChain(y);
    assert MonthStart(y, 12) == 365 + (if IsLeapYear(y) then 1 else 0);
  }

  /** The first of the next month is `DaysInMonth` days after the first of this one. */
  lemma MonthStartStep(y: int, m: int)
    requires 0 <= m < 12
    ensures MonthStart(y, m + 1) == MonthStart(y, m) + DaysInMonth(y, m)
  {
  }

  /**
   * `new Date(y, m + 1, 0)` is the last day of month `m`: day 0 of the next
   * month index, folded by MakeDay, is the day numbered `DaysInMonth(y, m)`.
   */
  lemma {:induction false} DayZeroIsLastDay(y: int, m: int)
    requires 0 <= m < 12
    ensures MakeDay(y, m + 1, 0) == DayNumber(y, m, DaysInMonth(y, m))
    ensures MakeDay(y, m + 1, 0) + 1 == MakeDay(y, m + 1, 1)
  {
    MonthStartStep(y, m);
    if m == 11 {
      assert (m + 1) / 12 == 1 && (m + 1) % 12 == 0;
      YearLength(y);
    } else {
      assert (m + 1) / 12 == 0 && (m + 1) % 12 == m + 1;
    }
  }

  /** Inside month `m`, MakeDay counts days on from the first of the month. */
  lemma {:induction false} DayOfMonth(y: int, m: int, d: int)
    requires 0 <= m < 12
    ensures MakeDay(y, m, d) == MakeDay(y, m, 1) + d - 1
  {
    assert m / 12 == 0 && m % 12 == m;
  }

  /** The last day of month `m` and the first of the next, counted from the first of month `m`. */
  lemma {:induction false} MonthBoundaries(y: int, m: int)
    requires 0 <= m < 12
    ensures MakeDay(y, m + 1, 0) == MakeDay(y, m, 1) + DaysInMonth(y, m) - 1
    ensures MakeDay(y, m + 1, 1) == MakeDay(y, m, 1) + DaysInMonth(y, m)
  {
    DayZeroIsLastDay(y, m);
    DayOfMonth(y, m, DaysInMonth(y, m));
    assert MakeDay(y, m, DaysInMonth(y, m)) == DayNumber(y, m, DaysInMonth(y, m)) by {
      assert m / 12 == 0 && m % 12 == m;
    }
  }

  /** A valid date's day number lies inside its month, hence inside its year. */
  lemma {:induction false} DayWithinMonth(d: ValidDate)
    ensures YearStart(d.year) + MonthStart(d.year, d.month) <= DayNumber(d.year, d.month, d.day)
    ensures DayNumber(d.year, d.month, d.day) < YearStart(d.year) + MonthStart(d.year, d.month + 1)
    ensures DayNumber(d.year, d.month, d.day) < YearStart(d.year + 1)
  {
    MonthStartStep(d.year, d.month);
    YearLength(d.year);
  }

  lemma {:induction false} YearStartMonotone(y: int, z: int)
    requires y < z
    ensures YearStart(y) + 365 <= YearStart(z)
    decreases z - y
  {
    YearLength(y);
    if y + 1 < z {
      YearStartMonotone(y + 1, z);
    }
  }

  lemma MonthStartMonotone(y: int, m: int, n: int)
    requires 0 <= m < n <= 12
    ensures MonthStart(y, m + 1) <= MonthStart(y, n)
  {
  }

  /** A date in an earlier year has a smaller day number. */
  lemma {:induction false} EarlierYearEarlierDay(a: ValidDate, b: ValidDate)
    requires a.year < b.year
    ensures DayNumber(a.year, a.month, a.day) < DayNumber(b.year, b.month, b.day)
  {
    DayWithinMonth(a);
    DayWithinMonth(b);
    if a.year + 1 < b.year {
      YearStartMonotone(a.year + 1, b.year);
    }
  }

  /** Within one year, a date in an earlier month has a smaller day number. */
  lemma {:induction false} EarlierMonthEarlierDay(a: ValidDate, b: ValidDate)
    requires a.year == b.year && a.month < b.month
    ensures DayNumber(a.year, a.month, a.day) < DayNumber(b.year, b.month, b.day)
  {
    DayWithinMonth(a);
    DayWithinMonth(b);
    MonthStartMonotone(a.year, a.month, b.month);
  }

  /** Distinct valid dates have distinct day numbers, so a day number identifies its date. */
  lemma {:induction false} DayNumberInjective(a: ValidDate, b: ValidDate)
    requires DayNumber(a.year, a.month, a.day) == DayNumber(b.year, b.month, b.day)
    ensures a == b
  {
    if a.year < b.year {
      EarlierYearEarlierDay(a, b);
      assert false;
    } else if b.year < a.year {
      EarlierYearEarlierDay(b, a);
      assert false;
    } else if a.month < b.month {
      EarlierMonthEarlierDay(a, b);
      assert false;
    } else if b.month < a.month {
      EarlierMonthEarlierDay(b, a);
      assert false;
    }
  }

  lemma ShiftModSeven(a: int, k: int)
    ensures (a + k) % 7 == (a % 7 + k) % 7
  {
  }

  /** The weekday of the first of the next month advances by the length of this month. */
  lemma {:induction false} NextMonthWeekday(y: int, m: int)
    requires 0 <= m < 12
    ensures Weekday(y, m + 1, 1) == (Weekday(y, m, 1) + DaysInMonth(y, m)) % 7
  {
    MonthBoundaries(y, m);
    ShiftModSeven(MakeDay(y, m, 1) + 6, DaysInMonth(y, m));
  }

  /** Anchors: the Unix epoch day number, and 1970-01-01 fell on a Thursday. */
  lemma EpochAnchor()
    ensures MakeDay(1970, 0, 1) == UnixEpochDay
    ensures Weekday(1970, 0, 1) == 4
  {
  }
}
