/**
 * The day grid of one month (`renderCalendar`) and the lookup of a day's
 * grid column in it (the scan at the head of `renderMonthEvents`).
 *
 * A month row holds 37 cells: in weekday-aligned mode as many blank cells as
 * the weekday of the 1st (0 for Sunday), then one cell per day, then blank
 * cells up to 37. In first-day mode there are no leading blanks. Grid columns
 * are numbered from 1, so day `d` sits in column `leading + d`.
 */
module Grid {
  import opened Dates

  datatype Cell = Blank | DayCell(day: int)

  /** Six leading blanks and 31 days at most. */
  const TotalCells: int := 37

  /** The number of blank cells before day 1. */
  function LeadingBlanks(alignByWeekday: bool, firstDay: int): int {
    if alignByWeekday then firstDay else 0
  }

  /** `cells` is the grid of a month of `daysInMonth` days after `leading` blanks. */
  ghost predicate IsMonthGrid(cells: seq<Cell>, leading: int, daysInMonth: int) {
    && |cells| == TotalCells
    && forall i :: 0 <= i < |cells| ==>
         cells[i] == if leading <= i < leading + daysInMonth then DayCell(i - leading + 1) else Blank
  }

  /** The cells of month `monthIndex` of `year` as `renderCalendar` lays them out. */
  function MonthGrid(year: int, monthIndex: int, alignByWeekday: bool): (cells: seq<Cell>)
    requires 0 <= monthIndex < 12
    ensures IsMonthGrid(cells, LeadingBlanks(alignByWeekday, FirstWeekday(year, monthIndex)),
                        DaysInMonth(year, monthIndex))
  {
    var leading := LeadingBlanks(alignByWeekday, FirstWeekday(year, monthIndex));
    var daysInMonth := DaysInMonth(year, monthIndex);
    seq(TotalCells, i => if leading <= i < leading + daysInMonth then DayCell(i - leading + 1) else Blank)
  }

  /**
   * The cell-building loops of `renderCalendar` for month `monthIndex` of
   * `year`: leading blanks, the day cells, then trailing blanks up to 37.
   */
  method BuildDaysGrid(year: int, monthIndex: int, alignByWeekday: bool) returns (cells: seq<Cell>)
    requires 0 <= monthIndex < 12
    ensures IsMonthGrid(cells, LeadingBlanks(alignByWeekday, FirstWeekday(year, monthIndex)),
                        DaysInMonth(year, monthIndex))
    ensures LeadingBlanks(alignByWeekday, FirstWeekday(year, monthIndex)) + DaysInMonth(year, monthIndex)
            <= TotalCells
    ensures cells == MonthGrid(year, monthIndex, alignByWeekday)
  {
    var daysInMonth := DaysInMonth(year, monthIndex);
    var firstDay := FirstWeekday(year, monthIndex);
    ghost var leading := LeadingBlanks(alignByWeekday, firstDay);
    cells := [];
    if alignByWeekday {
      var i := 0;
      while i < firstDay
        invariant 0 <= i <= firstDay
        invariant |cells| == i
        invariant forall k :: 0 <= k < i ==> cells[k] == Blank
      {
        cells := cells + [Blank];
        i := i + 1;
      }
    }
    var day := 1;
    while day <= daysInMonth
      invariant 1 <= day <= daysInMonth + 1
      invariant |cells| == leading + day - 1
      invariant forall k :: 0 <= k < leading ==> cells[k] == Blank
      invariant forall k :: leading <= k < |cells| ==> cells[k] == DayCell(k - leading + 1)
    {
      cells := cells + [DayCell(day)];
      day := day + 1;
    }
    var i := |cells|;
    while i < TotalCells
      invariant |cells| == i <= TotalCells
      invariant forall k :: 0 <= k < leading + daysInMonth ==>
                  cells[k] == if leading <= k then DayCell(k - leading + 1) else Blank
      invariant forall k :: leading + daysInMonth <= k < i ==> cells[k] == Blank
    {
      cells := cells + [Blank];
      i := i + 1;
    }
    assert forall k :: 0 <= k < TotalCells ==> cells[k] == MonthGrid(year, monthIndex, alignByWeekday)[k];
  }

  /**
   * The 1-based grid column of the first cell of day `day`, or 0 when no
   * cell holds that day.
   */
  function ColumnOf(cells: seq<Cell>, day: int): (col: nat)
    ensures col <= |cells|
    ensures col > 0 ==> cells[col - 1] == DayCell(day)
    ensures forall i :: 0 <= i < |cells| && cells[i] == DayCell(day) ==> 0 < col <= i + 1
  {
    if cells == [] then 0
    else if cells[0] == DayCell(day) then 1
    else
      var rest := ColumnOf(cells[1..], day);
      if rest == 0 then 0 else rest + 1
  }

  /** The scan over the grid's cells for the one whose day is `day`. */
  method FindColumn(cells: seq<Cell>, day: int) returns (startCol: nat)
    ensures startCol == ColumnOf(cells, day)
    ensures startCol > 0 ==> cells[startCol - 1] == DayCell(day)
    ensures startCol == 0 <==> forall i :: 0 <= i < |cells| ==> cells[i] != DayCell(day)
  {
    startCol := 0;
    var i := 0;
    while i < |cells|
      invariant 0 <= i <= |cells|
      invariant forall k :: 0 <= k < i ==> cells[k] != DayCell(day)
    {
      if cells[i] == DayCell(day) {
        startCol := i + 1;
        return;
      }
      i := i + 1;
    }
  }

  /**
   * In a month grid, day `d` of the month is found, in column `leading + d`;
   * any other number is not found.
   */
  lemma GridColumn(cells: seq<Cell>, leading: int, daysInMonth: int, d: int)
    requires IsMonthGrid(cells, leading, daysInMonth)
    requires 0 <= leading && leading + daysInMonth <= TotalCells
    ensures 1 <= d <= daysInMonth ==> ColumnOf(cells, d) == leading + d
    ensures !(1 <= d <= daysInMonth) ==> ColumnOf(cells, d) == 0
  {
    if 1 <= d <= daysInMonth {
      assert cells[leading + d - 1] == DayCell(d);
    }
  }
}
