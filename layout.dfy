/**
 * The month grid the panel paints: 42 slots (six weeks of seven days), the
 * first day of the month in the slot of its weekday, and a colour bucket per
 * day taken from that day's play count.
 */
module Layout {
  import opened Gregorian
  import opened DateKey
  import opened PlayCounts

  const CELL_SIZE: int := 15
  const CELL_MARGIN: int := 2
  const HEADER_HEIGHT: int := 30
  const COLORS: seq<string> := ["#ebedf0", "#9be9a8", "#40c463", "#30a14e", "#216e39"]

  /** Distance between the left (or top) edges of neighbouring cells. */
  const STEP: int := CELL_SIZE + CELL_MARGIN
  /** Top of the grid band, just below the weekday labels. */
  const GRID_TOP: int := HEADER_HEIGHT + CELL_SIZE
  const SLOTS: int := 42

  /** `Math.min(Math.floor(count / 3), 4)`: which of the five colours a day gets. */
  function ColorIndex(count: nat): (r: nat)
    ensures r < |COLORS|
    ensures 3 * r <= count
    ensures r < 4 ==> count < 3 * (r + 1)
  {
    if count / 3 < 4 then count / 3 else 4
  }

  /** Left edge of slot `slot`: column `slot % 7`. */
  function SlotX(slot: int): int {
    (slot % 7) * STEP
  }

  /** Top edge of slot `slot`: the painted row counter starts at 1, so row `1 + slot / 7`. */
  function SlotY(slot: int): int {
    GRID_TOP + (1 + slot / 7) * STEP
  }

  /** One filled square: which day, in which slot, where, under which key and in which colour. */
  datatype PaintedCell = PaintedCell(day: int, slot: int, x: int, y: int, key: string, color: nat)

  function Min(a: int, b: int): int {
    if a < b then a else b
  }

  /** `cell` is day `k + 1` of the month, painted in slot `startDay + k` with the colour of its count. */
  predicate PaintedAs(cell: PaintedCell, k: int, startDay: int, year: int, month: int, counts: Counts) {
    && 0 <= k && 0 <= month
    && cell.day == k + 1
    && cell.slot == startDay + k
    && cell.x == SlotX(cell.slot)
    && cell.y == SlotY(cell.slot)
    && cell.key == FormatDate(year, month + 1, k + 1)
    && cell.color == ColorIndex(CountFor(counts, cell.key))
  }

  lemma PaintedAppend(cells: seq<PaintedCell>, cell: PaintedCell, startDay: int, year: int, month: int, counts: Counts)
    requires forall k :: 0 <= k < |cells| ==> PaintedAs(cells[k], k, startDay, year, month, counts)
    requires PaintedAs(cell, |cells|, startDay, year, month, counts)
    ensures forall k :: 0 <= k < |cells| + 1 ==> PaintedAs((cells + [cell])[k], k, startDay, year, month, counts)
  {
  }

  /** The cell painted in slot `i` on row `row` for day `k + 1` is that day's cell. */
  lemma CellInSlot(i: int, row: int, k: int, startDay: int, year: int, month: int, counts: Counts)
    requires 0 <= k && 0 <= month
    requires i == startDay + k && row == 1 + i / 7
    ensures var key := FormatDate(year, month + 1, k + 1);
      PaintedAs(PaintedCell(k + 1, i, (i % 7) * STEP, GRID_TOP + row * STEP, key, ColorIndex(CountFor(counts, key))),
                k, startDay, year, month, counts)
  {
  }

  /**
   * The cell loop of `drawCalendar`: walks the 42 slots with a day counter
   * and a row counter and paints a cell for each day of the month.  Every
   * day is painted exactly once, in order, day `k + 1` in slot
   * `startDay + k`; none falls beyond the 42nd slot.
   */
  method DrawCalendar(year: int, month: int, counts: Counts) returns (cells: seq<PaintedCell>)
    requires 0 <= month < 12
    ensures |cells| == DaysInMonth(year, month)
    ensures forall k :: 0 <= k < |cells| ==> PaintedAs(cells[k], k, Weekday(year, month, 1), year, month, counts)
    ensures forall k :: 0 <= k < |cells| ==> 0 <= cells[k].slot < SLOTS
  {
    var startDay := Weekday(year, month, 1);
    var last := DaysInMonth(year, month);
    var dayCount := 1;
    var row := 1;
    cells := [];
    for i := 0 to SLOTS
      invariant row == 1 + i / 7
      invariant dayCount == |cells| + 1
      invariant |cells| == if i <= startDay then 0 else Min(i - startDay, last)
      invariant forall k :: 0 <= k < |cells| ==> PaintedAs(cells[k], k, startDay, year, month, counts)
    {
      var col := i % 7;
      if i >= startDay && dayCount <= last {
        var x := col * STEP;
        var y := GRID_TOP + row * STEP;
        var key := FormatDate(year, month + 1, dayCount);
        var count := CountFor(counts, key);
        var cell := PaintedCell(dayCount, i, x, y, key, ColorIndex(count));
        CellInSlot(i, row, |cells|, startDay, year, month, counts);
        PaintedAppend(cells, cell, startDay, year, month, counts);
        cells := cells + [cell];
        dayCount := dayCount + 1;
      }
      if col == 6 {
        row := row + 1;
      }
    }
  }

  /** Bucket thresholds: 0-2 plays are the lightest colour, 3 the next, 12 or more the darkest. */
  lemma ColorThresholds(count: nat)
    ensures count <= 2 ==> ColorIndex(count) == 0
    ensures count == 3 ==> ColorIndex(count) == 1
    ensures count >= 12 ==> ColorIndex(count) == 4
  {
  }

  /** More plays never give a lighter colour. */
  lemma ColorIndexMonotone(a: nat, b: nat)
    requires a <= b
    ensures ColorIndex(a) <= ColorIndex(b)
  {
  }
}
