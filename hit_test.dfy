/**
 * `getDayAtPosition`: from a pointer position back to the day under it, as
 * the panel's hover tooltip uses it.
 *
 * The painted grid starts its row counter at 1 (the first week is drawn one
 * cell-step below the top of the grid band), while this lookup counts rows
 * from 0 at the top of the band.  The two therefore disagree by one row: a
 * pointer on the painted cell of day d resolves to day d + 7.
 * `DayAtPositionCorrected` is the lookup with the painted row offset.
 */
module HitTest {
  import opened Wrappers
  import opened Gregorian
  import opened DateKey
  import opened PlayCounts
  import opened Layout

  /** What the tooltip shows: the day key, its count and the top-left corner of the pointer's slot. */
  datatype HoverDay = HoverDay(date: string, count: nat, x: int, y: int)

  /** `Math.floor(x / (CELL_SIZE + CELL_MARGIN))`. */
  function PointerColumn(x: int): int {
    x / STEP
  }

  /** `Math.floor((y - HEADER_HEIGHT - CELL_SIZE) / (CELL_SIZE + CELL_MARGIN))`: row 0 at the top of the band. */
  function PointerRow(y: int): int {
    (y - GRID_TOP) / STEP
  }

  /** Flooring a coordinate to the grid step lands on the step that contains it. */
  lemma FloorToStep(a: int)
    ensures (a / STEP) * STEP <= a < (a / STEP) * STEP + STEP
  {
    assert STEP == 17;
  }

  /** The pointer lies inside the square of side STEP whose corner the lookup reports. */
  lemma PointerInSlot(x: int, y: int)
    ensures PointerColumn(x) * STEP <= x < PointerColumn(x) * STEP + STEP
    ensures GRID_TOP + PointerRow(y) * STEP <= y < GRID_TOP + PointerRow(y) * STEP + STEP
  {
    FloorToStep(x);
    FloorToStep(y - GRID_TOP);
  }

  /** The day number `dayIndex - startDay + 1` read off the pointer. */
  function PointerDay(x: int, y: int, year: int, month: int): int {
    PointerRow(y) * 7 + PointerColumn(x) - Weekday(year, month, 1) + 1
  }

  /**
   * The lookup as written: nothing above the grid band or outside the
   * month's days; otherwise the day's key, its count (0 when absent), and
   * the corner of the slot the pointer is in.
   */
  function DayAtPosition(x: int, y: int, year: int, month: int, counts: Counts): (r: Option<HoverDay>)
    requires 0 <= month < 12
    ensures r.Some? <==> y >= GRID_TOP && 1 <= PointerDay(x, y, year, month) <= DaysInMonth(year, month)
    ensures r.Some? ==>
      && r.value.date == FormatDate(year, month + 1, PointerDay(x, y, year, month))
      && r.value.count == CountFor(counts, r.value.date)
      && r.value.x == PointerColumn(x) * STEP && r.value.y == GRID_TOP + PointerRow(y) * STEP
      && r.value.x <= x < r.value.x + STEP
      && r.value.y <= y < r.value.y + STEP
  {
    if y < GRID_TOP then None
    else
      var col := PointerColumn(x);
      var row := PointerRow(y);
      var day := PointerDay(x, y, year, month);
      if day < 1 || day > DaysInMonth(year, month) then None
      else
        var dateStr := FormatDate(year, month + 1, day);
        PointerInSlot(x, y);
        Some(HoverDay(dateStr, CountFor(counts, dateStr), col * STEP, GRID_TOP + row * STEP))
  }

  /** The day number under the pointer when rows are counted as the painter counts them. */
  function PaintedPointerDay(x: int, y: int, year: int, month: int): int {
    (PointerRow(y) - 1) * 7 + PointerColumn(x) - Weekday(year, month, 1) + 1
  }

  /**
   * The lookup with rows counted as the painter counts them (the first
   * painted row is row 1) and nothing reported beside the seven columns.
   */
  function DayAtPositionCorrected(x: int, y: int, year: int, month: int, counts: Counts): (r: Option<HoverDay>)
    requires 0 <= month < 12
    ensures r.Some? <==>
      0 <= x < 7 * STEP && y >= GRID_TOP + STEP && 1 <= PaintedPointerDay(x, y, year, month) <= DaysInMonth(year, month)
    ensures r.Some? ==>
      && r.value.date == FormatDate(year, month + 1, PaintedPointerDay(x, y, year, month))
      && r.value.count == CountFor(counts, r.value.date)
      && r.value.x == PointerColumn(x) * STEP && r.value.y == GRID_TOP + PointerRow(y) * STEP
      && r.value.x <= x < r.value.x + STEP
      && r.value.y <= y < r.value.y + STEP
  {
    if x < 0 || x >= 7 * STEP || y < GRID_TOP + STEP then None
    else
      var col := PointerColumn(x);
      var row := PointerRow(y);
      var day := PaintedPointerDay(x, y, year, month);
      if day < 1 || day > DaysInMonth(year, month) then None
      else
        var dateStr := FormatDate(year, month + 1, day);
        PointerInSlot(x, y);
        Some(HoverDay(dateStr, CountFor(counts, dateStr), col * STEP, GRID_TOP + row * STEP))
  }

  /** A point inside a painted square lies in that slot's column and painted row. */
  lemma InsideSlot(slot: int, px: int, py: int)
    requires 0 <= slot
    requires SlotX(slot) <= px < SlotX(slot) + CELL_SIZE
    requires SlotY(slot) <= py < SlotY(slot) + CELL_SIZE
    ensures PointerColumn(px) == slot % 7
    ensures PointerRow(py) == 1 + slot / 7
    ensures PointerRow(py) * 7 + PointerColumn(px) == slot + 7
  {
  }

  /** A point on the square of day `k + 1`, when the month starts in column `w`, lies inside the grid and in that square's column and row. */
  lemma SquareGeometry(w: int, k: nat, px: int, py: int)
    requires 0 <= w < 7
    requires SlotX(w + k) <= px < SlotX(w + k) + CELL_SIZE
    requires SlotY(w + k) <= py < SlotY(w + k) + CELL_SIZE
    ensures 0 <= px < 7 * STEP && py >= GRID_TOP + STEP
    ensures PointerColumn(px) * STEP == SlotX(w + k) && GRID_TOP + PointerRow(py) * STEP == SlotY(w + k)
    ensures (PointerRow(py) - 1) * 7 + PointerColumn(px) - w + 1 == k + 1
  {
    InsideSlot(w + k, px, py);
  }

  /**
   * A pointer anywhere on the painted square of day `k + 1` is reported as
   * day `k + 8`, one week later (or as nothing in the month's last week),
   * although the reported corner is that of the square under the pointer.
   */
  lemma {:induction false} PointerResolvesOneWeekLater(year: int, month: int, counts: Counts, k: nat, px: int, py: int)
    requires 0 <= month < 12
    requires k < DaysInMonth(year, month)
    requires SlotX(Weekday(year, month, 1) + k) <= px < SlotX(Weekday(year, month, 1) + k) + CELL_SIZE
    requires SlotY(Weekday(year, month, 1) + k) <= py < SlotY(Weekday(year, month, 1) + k) + CELL_SIZE
    ensures DayAtPosition(px, py, year, month, counts) ==
      if k + 8 <= DaysInMonth(year, month) then
        Some(HoverDay(FormatDate(year, month + 1, k + 8), CountFor(counts, FormatDate(year, month + 1, k + 8)),
                      SlotX(Weekday(year, month, 1) + k), SlotY(Weekday(year, month, 1) + k)))
      else None
  {
    var slot := Weekday(year, month, 1) + k;
    InsideSlot(slot, px, py);
    assert PointerColumn(px) * STEP == SlotX(slot);
    assert GRID_TOP + PointerRow(py) * STEP == SlotY(slot);
    assert py >= GRID_TOP;
    assert PointerDay(px, py, year, month) == k + 8;
    var r := DayAtPosition(px, py, year, month, counts);
    if k + 8 <= DaysInMonth(year, month) {
      var key := FormatDate(year, month + 1, k + 8);
      assert r.Some?;
      assert r.value.date == key;
      assert r.value.x == SlotX(slot);
      assert r.value.y == SlotY(slot);
      assert r.value == HoverDay(key, CountFor(counts, key), SlotX(slot), SlotY(slot));
    } else {
      assert r.None?;
    }
  }

  /** Inside the grid, the corrected lookup reports the painted day under the pointer and the corner of its slot. */
  lemma {:induction false} CorrectedAt(px: int, py: int, year: int, month: int, counts: Counts, day: int, cx: int, cy: int)
    requires 0 <= month < 12
    requires 0 <= px < 7 * STEP && py >= GRID_TOP + STEP
    requires PaintedPointerDay(px, py, year, month) == day && 1 <= day <= DaysInMonth(year, month)
    requires cx == PointerColumn(px) * STEP && cy == GRID_TOP + PointerRow(py) * STEP
    ensures DayAtPositionCorrected(px, py, year, month, counts) ==
      Some(HoverDay(FormatDate(year, month + 1, day), CountFor(counts, FormatDate(year, month + 1, day)), cx, cy))
  {
    var r := DayAtPositionCorrected(px, py, year, month, counts);
    assert r.Some?;
    var h := r.value;
    assert h.date == FormatDate(year, month + 1, day);
    assert h.count == CountFor(counts, h.date);
    assert h.x == cx && h.y == cy;
    assert h == HoverDay(h.date, h.count, h.x, h.y);
  }

  /** With the painted row offset the lookup inverts the layout: the square of day `k + 1` reports day `k + 1`. */
  lemma {:induction false} CorrectedInvertsLayout(year: int, month: int, counts: Counts, k: nat, px: int, py: int)
    requires 0 <= month < 12
    requires k < DaysInMonth(year, month)
    requires SlotX(Weekday(year, month, 1) + k) <= px < SlotX(Weekday(year, month, 1) + k) + CELL_SIZE
    requires SlotY(Weekday(year, month, 1) + k) <= py < SlotY(Weekday(year, month, 1) + k) + CELL_SIZE
    ensures DayAtPositionCorrected(px, py, year, month, counts) ==
      Some(HoverDay(FormatDate(year, month + 1, k + 1), CountFor(counts, FormatDate(year, month + 1, k + 1)),
                    SlotX(Weekday(year, month, 1) + k), SlotY(Weekday(year, month, 1) + k)))
  {
    var slot := Weekday(year, month, 1) + k;
    SquareGeometry(Weekday(year, month, 1), k, px, py);
    CorrectedAt(px, py, year, month, counts, k + 1, SlotX(slot), SlotY(slot));
  }

  /**
   * The column is not bounded: a pointer right of the Saturday column
   * (x >= 119) reads the next week's day at the left of the row below, so the
   * empty area beside the grid answers with days of the month.
   */
  lemma {:induction false} RightOfGridWraps(x: int, y: int, year: int, month: int, counts: Counts)
    requires 0 <= month < 12
    requires y >= GRID_TOP
    ensures PointerDay(x + 7 * STEP, y, year, month) == PointerDay(x, y + STEP, year, month)
    ensures var beside, below := DayAtPosition(x + 7 * STEP, y, year, month, counts), DayAtPosition(x, y + STEP, year, month, counts);
      && (beside.Some? <==> below.Some?)
      && (beside.Some? ==> beside.value.date == below.value.date && beside.value.count == below.value.count)
    ensures x >= 0 ==> DayAtPositionCorrected(x + 7 * STEP, y, year, month, counts).None?
  {
    assert (x + 7 * STEP) / STEP == x / STEP + 7;
    assert (y + STEP - GRID_TOP) / STEP == (y - GRID_TOP) / STEP + 1;
  }

  /** The band between the weekday labels and the first painted row answers for the first week. */
  lemma {:induction false} BandAnswersForFirstWeek(year: int, month: int, counts: Counts, px: int, py: int)
    requires 0 <= month < 12
    requires 0 <= px < 7 * STEP
    requires GRID_TOP <= py < GRID_TOP + STEP
    requires PointerColumn(px) >= Weekday(year, month, 1)
    ensures DayAtPosition(px, py, year, month, counts).Some?
    ensures DayAtPositionCorrected(px, py, year, month, counts).None?
  {
    FloorToStep(px);
    FloorToStep(py - GRID_TOP);
    assert PointerRow(py) == 0;
    assert PointerColumn(px) < 7;
    var day := PointerDay(px, py, year, month);
    assert 1 <= day <= 7;
    assert day <= DaysInMonth(year, month);
  }
}
