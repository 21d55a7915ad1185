/**
 * Month navigation on the panel's `currentDate`.
 *
 * The cursor is a full date that starts as today and keeps today's day of
 * month.  `setMonth(getMonth() +- 1)` folds the month index into the year
 * and then places the kept day of month in the new month; when the new
 * month is shorter, the day spills into the month after it (January 31st
 * plus one month is March 2nd or 3rd).  `MonthCursor` and `Advance` are
 * the year-and-month cursor the navigation evidently intends.
 */
module Navigation {
  import opened Gregorian

  /**
   * `date.setMonth(m)` on a valid date: the result is the day numbered
   * MakeDay(year, m, day), i.e. the kept day of month counted from the
   * first of the (year-folded) month `m`.
   */
  function SetMonth(d: ValidDate, m: int): (r: ValidDate)
    ensures DayNumber(r.year, r.month, r.day) == MakeDay(d.year, m, d.day)
  {
    var y := d.year + m / 12;
    var mm := m % 12;
    var last := DaysInMonth(y, mm);
    if d.day <= last then CivilDate(y, mm, d.day)
    else
      // December has 31 days, so only a month before December can overflow.
      MonthStartStep(y, mm);
      CivilDate(y, mm + 1, d.day - last)
  }

  /** The left arrow: `setMonth(getMonth() - 1)`. */
  function PreviousMonth(d: ValidDate): ValidDate {
    SetMonth(d, d.month - 1)
  }

  /** The right arrow: `setMonth(getMonth() + 1)`. */
  function NextMonth(d: ValidDate): ValidDate {
    SetMonth(d, d.month + 1)
  }

  /** December steps forward to January of the next year, January back to December of the previous one. */
  lemma YearRollover(d: ValidDate)
    ensures d.month == 11 ==> NextMonth(d) == CivilDate(d.year + 1, 0, d.day)
    ensures d.month == 0 ==> PreviousMonth(d) == CivilDate(d.year - 1, 11, d.day)
  {
  }

  lemma {:induction false} StepWhenDayFits(d: ValidDate)
    requires d.day <= 28
    ensures PreviousMonth(d) == if d.month == 0 then CivilDate(d.year - 1, 11, d.day) else CivilDate(d.year, d.month - 1, d.day)
    ensures NextMonth(d) == if d.month == 11 then CivilDate(d.year + 1, 0, d.day) else CivilDate(d.year, d.month + 1, d.day)
  {
    if d.month == 0 {
      assert (d.month - 1) / 12 == -1 && (d.month - 1) % 12 == 11;
    } else {
      assert (d.month - 1) / 12 == 0 && (d.month - 1) % 12 == d.month - 1;
    }
    if d.month == 11 {
      assert (d.month + 1) / 12 == 1 && (d.month + 1) % 12 == 0;
    } else {
      assert (d.month + 1) / 12 == 0 && (d.month + 1) % 12 == d.month + 1;
    }
  }

  lemma {:induction false} ForwardUndoesBack(d: ValidDate)
    requires d.day <= 28
    ensures NextMonth(PreviousMonth(d)) == d
  {
    StepWhenDayFits(d);
    var p := PreviousMonth(d);
    StepWhenDayFits(p);
    if d.month == 0 {
      assert p == CivilDate(d.year - 1, 11, d.day);
    } else {
      assert p == CivilDate(d.year, d.month - 1, d.day);
    }
  }

  lemma {:induction false} BackUndoesForward(d: ValidDate)
    requires d.day <= 28
    ensures PreviousMonth(NextMonth(d)) == d
  {
    StepWhenDayFits(d);
    var n := NextMonth(d);
    StepWhenDayFits(n);
    if d.month == 11 {
      assert n == CivilDate(d.year + 1, 0, d.day);
    } else {
      assert n == CivilDate(d.year, d.month + 1, d.day);
    }
  }

  /** With a day of month that every month has, back-then-forward and forward-then-back restore the date. */
  lemma {:induction false} RoundTripWhenDayFits(d: ValidDate)
    requires d.day <= 28
    ensures NextMonth(PreviousMonth(d)) == d
    ensures PreviousMonth(NextMonth(d)) == d
  {
    ForwardUndoesBack(d);
    BackUndoesForward(d);
  }

  /** From January 31st the right arrow lands on March 3rd (in a common year): this click skips February. */
  lemma JanuaryThirtyFirstSkipsFebruary()
    ensures NextMonth(CivilDate(2025, 0, 31)) == CivilDate(2025, 2, 3)
  {
  }

  /** From March 31st, back-then-forward ends in April: the round trip fails once the day overflows. */
  lemma BackThenForwardDrifts()
    ensures PreviousMonth(CivilDate(2025, 2, 31)) == CivilDate(2025, 2, 3)
    ensures NextMonth(PreviousMonth(CivilDate(2025, 2, 31))) == CivilDate(2025, 3, 3)
  {
    var march31 := CivilDate(2025, 2, 31);
    assert !IsLeapYear(2025);
    assert 1 / 12 == 0 && 1 % 12 == 1 && DaysInMonth(2025, 1) == 28;
    var back := PreviousMonth(march31);
    assert back == CivilDate(2025, 2, 3);
    assert 3 / 12 == 0 && 3 % 12 == 3 && DaysInMonth(2025, 3) == 30;
  }

  // ------------------------------------------------ the intended month cursor

  /** The displayed year and month index, with no day of month to overflow. */
  datatype MonthCursor = MonthCursor(year: int, month: int)

  predicate ValidCursor(c: MonthCursor) {
    0 <= c.month < 12
  }

  function CursorOf(d: CivilDate): MonthCursor {
    MonthCursor(d.year, d.month)
  }

  /** Moves the cursor by `delta` months, rolling the year over in either direction. */
  function Advance(c: MonthCursor, delta: int): (r: MonthCursor)
    requires ValidCursor(c)
    ensures ValidCursor(r)
    ensures 12 * r.year + r.month == 12 * c.year + c.month + delta
  {
    var m := c.month + delta;
    MonthCursor(c.year + m / 12, m % 12)
  }

  /** Back then forward, and forward then back, always restore the cursor, across year ends too. */
  lemma {:induction false} AdvanceRoundTrip(c: MonthCursor)
    requires ValidCursor(c)
    ensures Advance(Advance(c, -1), 1) == c
    ensures Advance(Advance(c, 1), -1) == c
  {
    var back, fwd := Advance(c, -1), Advance(c, 1);
    assert 12 * Advance(back, 1).year + Advance(back, 1).month == 12 * c.year + c.month;
    assert 12 * Advance(fwd, -1).year + Advance(fwd, -1).month == 12 * c.year + c.month;
  }

  /** Length of the month a valid cursor shows. */
  function CursorLength(c: MonthCursor): (n: int)
    requires ValidCursor(c)
    ensures 28 <= n <= 31
  {
    DaysInMonth(c.year, c.month)
  }

  /**
   * The left arrow lands on the previous month when the day of month exists
   * there, and otherwise spills back into the date's own month.
   */
  lemma {:induction false} PreviousMonthCases(d: ValidDate)
    ensures var c := Advance(CursorOf(d), -1);
      PreviousMonth(d)
        == if d.day <= CursorLength(c) then CivilDate(c.year, c.month, d.day)
           else CivilDate(c.year, c.month + 1, d.day - CursorLength(c))
  {
    if d.month == 0 {
      assert (d.month - 1) / 12 == -1 && (d.month - 1) % 12 == 11;
      assert Advance(CursorOf(d), -1) == MonthCursor(d.year - 1, 11);
    } else {
      assert (d.month - 1) / 12 == 0 && (d.month - 1) % 12 == d.month - 1;
      assert Advance(CursorOf(d), -1) == MonthCursor(d.year, d.month - 1);
    }
  }

  /** The right arrow lands on the next month when the day of month exists there, and otherwise one month further. */
  lemma {:induction false} NextMonthCases(d: ValidDate)
    ensures var c := Advance(CursorOf(d), 1);
      NextMonth(d)
        == if d.day <= CursorLength(c) then CivilDate(c.year, c.month, d.day)
           else CivilDate(c.year, c.month + 1, d.day - CursorLength(c))
  {
    if d.month == 11 {
      assert (d.month + 1) / 12 == 1 && (d.month + 1) % 12 == 0;
    } else {
      assert (d.month + 1) / 12 == 0 && (d.month + 1) % 12 == d.month + 1;
    }
  }

  /** Back then forward restores the date exactly when its day of month exists in the previous month. */
  lemma {:induction false} ForwardUndoesBackIff(d: ValidDate)
    ensures NextMonth(PreviousMonth(d)) == d <==> d.day <= CursorLength(Advance(CursorOf(d), -1))
  {
    var c := Advance(CursorOf(d), -1);
    PreviousMonthCases(d);
    var p := PreviousMonth(d);
    NextMonthCases(p);
    if d.day <= CursorLength(c) {
      AdvanceRoundTrip(CursorOf(d));
      assert CursorOf(p) == c;
    } else {
      // December is 31 days long, so only a month before December can
      // overflow, and the overflow lands in d's own month on day 1, 2 or 3.
      assert c.month != 11;
      assert c.year == d.year && c.month + 1 == d.month;
      assert p == CivilDate(d.year, d.month, d.day - CursorLength(c));
      assert NextMonth(p).month != d.month;
    }
  }

  /** Forward then back restores the date exactly when its day of month exists in the next month. */
  lemma {:induction false} BackUndoesForwardIff(d: ValidDate)
    ensures PreviousMonth(NextMonth(d)) == d <==> d.day <= CursorLength(Advance(CursorOf(d), 1))
  {
    var c := Advance(CursorOf(d), 1);
    NextMonthCases(d);
    var n := NextMonth(d);
    PreviousMonthCases(n);
    if d.day <= CursorLength(c) {
      AdvanceRoundTrip(CursorOf(d));
      assert CursorOf(n) == c;
    } else {
      // January has 31 days, so the overflow comes from a later month of the
      // same year and lands two months on, on day 1, 2 or 3.
      assert c.month != 0;
      assert c.year == d.year && c.month == d.month + 1;
      assert n == CivilDate(d.year, c.month + 1, d.day - CursorLength(c));
      assert Advance(CursorOf(n), -1) == c;
      assert PreviousMonth(n).month == c.month;
    }
  }

  /** While the day of month fits every month, the arrows move the date exactly as `Advance` moves the cursor. */
  lemma {:induction false} SetMonthFollowsAdvance(d: ValidDate, delta: int)
    requires d.day <= 28
    ensures CursorOf(SetMonth(d, d.month + delta)) == Advance(CursorOf(d), delta)
    ensures SetMonth(d, d.month + delta).day == d.day
  {
  }
}
