/**
 * The month layout engine (`renderMonthEvents`): which events a month shows,
 * in which order, clipped to which days, and on which row each marker is
 * drawn.
 *
 * Rows are kept as a growable list of occupied-column sets. Each marker goes
 * to the first row whose columns it needs are all free, and a new row is
 * opened only when no existing row has room (greedy first fit). The
 * packing is specified by `Pack`, a fold over the clipped events; the method
 * `RenderMonthEvents` is the loops of `renderMonthEvents`, proved equal to it.
 */
module Layout {
  import opened Wrappers
  import opened Dates
  import opened Entities
  import opened Grid
  import Sorting

  // ---------------------------------------------------------------------------
  // Step 1: filtering
  // ---------------------------------------------------------------------------

  /** An event together with its parsed start and end dates. */
  datatype Span = Span(event: Event, start: Date, end: Date)

  /** Both dates of `e` parsed by `parseLocalDate`; None when either is not a date. */
  function ParseSpan(e: Event): (r: Option<Span>)
    ensures r.Some? <==> ParseLocalDate(e.startDate).Some? && ParseLocalDate(e.endDate).Some?
    ensures r.Some? ==> r.value == Span(e, ParseLocalDate(e.startDate).value, ParseLocalDate(e.endDate).value)
    ensures r.Some? ==> Valid(r.value.start) && Valid(r.value.end)
  {
    match (ParseLocalDate(e.startDate), ParseLocalDate(e.endDate))
    case (Some(s), Some(t)) => Some(Span(e, s, t))
    case _ => None
  }

  /** `startDate <= monthEnd && endDate >= monthStart`. */
  predicate OverlapsMonth(s: Span, year: int, monthIndex: int)
    requires 0 <= monthIndex < 12
  {
    NotAfter(s.start, MonthEnd(year, monthIndex)) && NotAfter(MonthStart(year, monthIndex), s.end)
  }

  /**
   * The events shown in a month, in their stored order. An event whose dates
   * do not parse compares false with everything, as an invalid JavaScript
   * date does, and is left out.
   */
  function MonthSpans(events: seq<Event>, year: int, monthIndex: int): (r: seq<Span>)
    requires 0 <= monthIndex < 12
    ensures |r| <= |events|
    ensures forall s :: s in r <==>
              s.event in events && ParseSpan(s.event) == Some(s) && OverlapsMonth(s, year, monthIndex)
  {
    if events == [] then []
    else
      var rest := MonthSpans(events[1..], year, monthIndex);
      match ParseSpan(events[0])
      case Some(s) => if OverlapsMonth(s, year, monthIndex) then [s] + rest else rest
      case None => rest
  }

  /**
   * For valid dates with the start not after the end, the filter keeps an
   * event exactly when some day of the month lies within its range.
   */
  lemma OverlapsMonthShareDay(s: Span, year: int, monthIndex: int)
    requires 0 <= monthIndex < 12 && Valid(s.start) && Valid(s.end)
    ensures OverlapsMonth(s, year, monthIndex) && NotAfter(s.start, s.end) <==>
            exists k :: 1 <= k <= DaysInMonth(year, monthIndex)
                        && NotAfter(s.start, Date(year, monthIndex, k)) && NotAfter(Date(year, monthIndex, k), s.end)
  {
    if OverlapsMonth(s, year, monthIndex) && NotAfter(s.start, s.end) {
      var d := DisplayStart(s, year, monthIndex);
      assert NotAfter(s.start, Date(year, monthIndex, d.day)) && NotAfter(Date(year, monthIndex, d.day), s.end);
    }
  }

  /**
   * The month filter works event by event and keeps the stored order: on a
   * concatenation it keeps from each part.
   */
  lemma {:induction false} MonthSpansAppend(a: seq<Event>, b: seq<Event>, year: int, monthIndex: int)
    requires 0 <= monthIndex < 12
    ensures MonthSpans(a + b, year, monthIndex) == MonthSpans(a, year, monthIndex) + MonthSpans(b, year, monthIndex)
    decreases |a|
  {
    if a == [] {
      assert a + b == b;
    } else {
      assert (a + b)[0] == a[0] && (a + b)[1..] == a[1..] + b;
      MonthSpansAppend(a[1..], b, year, monthIndex);
    }
  }

  /** A single event gives its span exactly when both dates parse and it overlaps the month. */
  lemma MonthSpansOne(e: Event, year: int, monthIndex: int)
    requires 0 <= monthIndex < 12
    ensures MonthSpans([e], year, monthIndex) ==
              if ParseSpan(e).Some? && OverlapsMonth(ParseSpan(e).value, year, monthIndex)
              then [ParseSpan(e).value] else []
  {
    assert [e][1..] == [];
  }

  // ---------------------------------------------------------------------------
  // Step 2: ordering
  // ---------------------------------------------------------------------------

  /** The comparator: earlier start first; on equal starts, later end first. */
  predicate LayoutBefore(a: Span, b: Span) {
    Before(a.start, b.start) || (a.start == b.start && Before(b.end, a.end))
  }

  lemma BeforeIsStrictOrder()
    ensures forall a, b :: Before(a, b) ==> !Before(b, a)
    ensures forall a, b :: !Before(a, b) && !Before(b, a) ==> a == b
    ensures forall a, b, c :: Before(a, b) && Before(b, c) ==> Before(a, c)
  {
  }

  lemma {:induction false} LayoutBeforeIsStrictWeakOrder()
    ensures Sorting.StrictWeakOrder(LayoutBefore)
  {
    BeforeIsStrictOrder();
  }

  /**
   * On valid dates the comparator is the one on time values: a negative
   * `aStart - bStart`, or equal starts and a negative `bEnd - aEnd`.
   */
  lemma LayoutBeforeByTime(a: Span, b: Span)
    requires Valid(a.start) && Valid(a.end) && Valid(b.start) && Valid(b.end)
    ensures LayoutBefore(a, b) <==>
            DayNumber(a.start) < DayNumber(b.start)
            || (DayNumber(a.start) == DayNumber(b.start) && DayNumber(b.end) < DayNumber(a.end))
  {
    DayNumberOrder(a.start, b.start);
    DayNumberOrder(b.end, a.end);
  }

  /** The month's events sorted as `monthEvents.sort(...)` leaves them. */
  function SortedMonthSpans(events: seq<Event>, year: int, monthIndex: int): seq<Span>
    requires 0 <= monthIndex < 12
  {
    Sorting.Sort(MonthSpans(events, year, monthIndex), LayoutBefore)
  }

  /**
   * After the sort, starts never decrease, and among equal starts ends never
   * increase; the sorted list holds the filtered events, each as often.
   */
  lemma SortedMonthOrder(events: seq<Event>, year: int, monthIndex: int)
    requires 0 <= monthIndex < 12
    ensures multiset(SortedMonthSpans(events, year, monthIndex)) == multiset(MonthSpans(events, year, monthIndex))
    ensures var r := SortedMonthSpans(events, year, monthIndex);
            forall i, j :: 0 <= i < j < |r| ==>
              NotAfter(r[i].start, r[j].start) &&
              (r[i].start == r[j].start ==> NotAfter(r[j].end, r[i].end))
  {
    var r := SortedMonthSpans(events, year, monthIndex);
    LayoutBeforeIsStrictWeakOrder();
    Sorting.SortSorted(MonthSpans(events, year, monthIndex), LayoutBefore);
    forall i, j | 0 <= i < j < |r|
      ensures NotAfter(r[i].start, r[j].start)
      ensures r[i].start == r[j].start ==> NotAfter(r[j].end, r[i].end)
    {
      assert !LayoutBefore(r[j], r[i]);
    }
  }

  /**
   * The sort keeps events with the same start and end in their stored
   * order (`Array.prototype.sort` is stable).
   */
  lemma SortedMonthStable(events: seq<Event>, year: int, monthIndex: int, x: Span)
    requires 0 <= monthIndex < 12
    ensures Sorting.Ties(SortedMonthSpans(events, year, monthIndex), x, LayoutBefore)
            == Sorting.Ties(MonthSpans(events, year, monthIndex), x, LayoutBefore)
  {
    LayoutBeforeIsStrictWeakOrder();
    Sorting.SortStable(MonthSpans(events, year, monthIndex), x, LayoutBefore);
  }

  // ---------------------------------------------------------------------------
  // Step 3: clipping
  // ---------------------------------------------------------------------------

  /** `displayStart`: the later of the event's start and the 1st of the month. */
  function DisplayStart(s: Span, year: int, monthIndex: int): (d: Date)
    requires 0 <= monthIndex < 12
    ensures NotAfter(s.start, d) && NotAfter(MonthStart(year, monthIndex), d)
    ensures d == s.start || d == MonthStart(year, monthIndex)
  {
    if Before(s.start, MonthStart(year, monthIndex)) then MonthStart(year, monthIndex) else s.start
  }

  /** `displayEnd`: the earlier of the event's end and the last day of the month. */
  function DisplayEnd(s: Span, year: int, monthIndex: int): (d: Date)
    requires 0 <= monthIndex < 12
    ensures NotAfter(d, s.end) && NotAfter(d, MonthEnd(year, monthIndex))
    ensures d == s.end || d == MonthEnd(year, monthIndex)
  {
    if Before(MonthEnd(year, monthIndex), s.end) then MonthEnd(year, monthIndex) else s.end
  }

  /** An event clipped to a month: its first and last day of the month shown. */
  datatype Bar = Bar(event: Event, startDay: int, endDay: int)

  /**
   * The bar starts on the event's start day, or on the 1st when the event
   * began in an earlier month, and ends on its end day, or on the last day
   * when it runs into a later month.
   */
  function Clip(s: Span, year: int, monthIndex: int): (b: Bar)
    requires 0 <= monthIndex < 12
    ensures b.event == s.event
    ensures b.startDay == if Before(s.start, Date(year, monthIndex, 1)) then 1 else s.start.day
    ensures b.endDay == if Before(Date(year, monthIndex, DaysInMonth(year, monthIndex)), s.end)
                        then DaysInMonth(year, monthIndex) else s.end.day
  {
    Bar(s.event, DisplayStart(s, year, monthIndex).day, DisplayEnd(s, year, monthIndex).day)
  }

  /**
   * A kept event's clipped days are days of the month, and a well-formed
   * event (start not after end) keeps them in order.
   */
  lemma ClipWithinMonth(s: Span, year: int, monthIndex: int)
    requires 0 <= monthIndex < 12
    requires Valid(s.start) && Valid(s.end) && OverlapsMonth(s, year, monthIndex)
    ensures DisplayStart(s, year, monthIndex).year == year && DisplayStart(s, year, monthIndex).month == monthIndex
    ensures DisplayEnd(s, year, monthIndex).year == year && DisplayEnd(s, year, monthIndex).month == monthIndex
    ensures 1 <= Clip(s, year, monthIndex).startDay <= DaysInMonth(year, monthIndex)
    ensures 1 <= Clip(s, year, monthIndex).endDay <= DaysInMonth(year, monthIndex)
    ensures NotAfter(s.start, s.end) ==> Clip(s, year, monthIndex).startDay <= Clip(s, year, monthIndex).endDay
  {
  }

  function Bars(spans: seq<Span>, year: int, monthIndex: int): (r: seq<Bar>)
    requires 0 <= monthIndex < 12
    ensures |r| == |spans|
    ensures forall k :: 0 <= k < |spans| ==> r[k] == Clip(spans[k], year, monthIndex)
  {
    seq(|spans|, k requires 0 <= k < |spans| => Clip(spans[k], year, monthIndex))
  }

  // ---------------------------------------------------------------------------
  // Step 4: row assignment
  // ---------------------------------------------------------------------------

  /** A placed marker: `gridColumn: startCol / span span`, drawn on row `row`. */
  datatype Marker = Marker(event: Event, startCol: int, span: int, row: nat)

  /** Grid columns `lo` to `hi` inclusive (none when `hi < lo`). */
  function Columns(lo: int, hi: int): (cs: set<int>)
    ensures forall c :: c in cs <==> lo <= c <= hi
    decreases hi - lo
  {
    if hi < lo then {} else Columns(lo, hi - 1) + {hi}
  }

  function MarkerColumns(m: Marker): set<int> {
    Columns(m.startCol, m.startCol + m.span - 1)
  }

  /** None of the columns `lo` to `hi` is occupied in `row` (`canFit`). */
  predicate Free(row: set<int>, lo: int, hi: int) {
    forall c :: lo <= c <= hi ==> c !in row
  }

  /** The lowest row from `from` on with room for `lo`..`hi`, or `|rows|`. */
  function FirstFitFrom(rows: seq<set<int>>, from: nat, lo: int, hi: int): (r: nat)
    requires from <= |rows|
    ensures from <= r <= |rows|
    ensures r < |rows| ==> Free(rows[r], lo, hi)
    ensures forall k :: from <= k < r ==> !Free(rows[k], lo, hi)
    decreases |rows| - from
  {
    if from == |rows| then from
    else if Free(rows[from], lo, hi) then from
    else FirstFitFrom(rows, from + 1, lo, hi)
  }

  /** The row first fit picks: the lowest with room, or a new one at `|rows|`. */
  function FirstFit(rows: seq<set<int>>, lo: int, hi: int): (r: nat)
    ensures r <= |rows|
    ensures r < |rows| ==> Free(rows[r], lo, hi)
    ensures forall k :: 0 <= k < r ==> !Free(rows[k], lo, hi)
  {
    FirstFitFrom(rows, 0, lo, hi)
  }

  /** Row `r` (a new row when `r == |rows|`) with columns `lo`..`hi` marked. */
  function Occupy(rows: seq<set<int>>, r: nat, lo: int, hi: int): (rows': seq<set<int>>)
    requires r <= |rows|
    ensures |rows'| == if r == |rows| then |rows| + 1 else |rows|
    ensures rows'[r] == (if r < |rows| then rows[r] else {}) + Columns(lo, hi)
    ensures forall k :: 0 <= k < |rows| && k != r ==> rows'[k] == rows[k]
  {
    if r == |rows| then rows + [Columns(lo, hi)] else rows[r := rows[r] + Columns(lo, hi)]
  }

  /** The markers placed so far and the rows' occupancy. */
  datatype Packing = Packing(markers: seq<Marker>, rows: seq<set<int>>)

  /**
   * One turn of the `forEach`: find the start column; if found, give the bar
   * the first row with room and mark its columns.
   */
  function PlaceBar(p: Packing, b: Bar, cells: seq<Cell>): Packing {
    var startCol := ColumnOf(cells, b.startDay);
    if startCol == 0 then p
    else
      var spanDays := b.endDay - b.startDay + 1;
      var endCol := startCol + spanDays - 1;
      var r := FirstFit(p.rows, startCol, endCol);
      Packing(p.markers + [Marker(b.event, startCol, spanDays, r)], Occupy(p.rows, r, startCol, endCol))
  }

  /**
   * The packing of `bars`, placed in order. A bar adds at most one marker
   * and opens at most one row, so the `k`-th marker sits on one of the
   * first `k + 1` rows.
   */
  function Pack(bars: seq<Bar>, cells: seq<Cell>): (p: Packing)
    ensures |p.rows| <= |p.markers| <= |bars|
    ensures forall k :: 0 <= k < |p.markers| ==> p.markers[k].row <= k
  {
    if bars == [] then Packing([], [])
    else PlaceBar(Pack(bars[..|bars| - 1], cells), bars[|bars| - 1], cells)
  }

  /** The markers `renderMonthEvents` draws for a month. */
  function MonthLayout(events: seq<Event>, year: int, monthIndex: int, cells: seq<Cell>): (ms: seq<Marker>)
    requires 0 <= monthIndex < 12
    ensures |ms| <= |events|
    ensures forall k :: 0 <= k < |ms| ==> ms[k].row <= k
  {
    Pack(Bars(SortedMonthSpans(events, year, monthIndex), year, monthIndex), cells).markers
  }

  // ---------------------------------------------------------------------------
  // What the row assignment guarantees
  // ---------------------------------------------------------------------------

  /** No two markers on the same row share a grid column. */
  ghost predicate NoOverlap(ms: seq<Marker>) {
    forall i, j :: 0 <= i < j < |ms| && ms[i].row == ms[j].row ==> MarkerColumns(ms[i]) !! MarkerColumns(ms[j])
  }

  /** Some marker placed before marker `j` is on row `r` and shares a column with it. */
  ghost predicate Blocked(ms: seq<Marker>, j: int, r: nat)
    requires 0 <= j < |ms|
  {
    exists i :: 0 <= i < j && ms[i].row == r && MarkerColumns(ms[i]) * MarkerColumns(ms[j]) != {}
  }

  /**
   * Every marker is on the lowest row it fits: each row below it was
   * blocked by an earlier marker. In particular, a marker opens a new row
   * only when every existing row was blocked.
   */
  ghost predicate LowestRows(ms: seq<Marker>) {
    forall j, r :: 0 <= j < |ms| && 0 <= r < ms[j].row ==> Blocked(ms, j, r)
  }

  /** The columns occupied by the markers on row `r`. */
  function RowUnion(ms: seq<Marker>, r: nat): set<int> {
    if ms == [] then {}
    else RowUnion(ms[..|ms| - 1], r) + (if ms[|ms| - 1].row == r then MarkerColumns(ms[|ms| - 1]) else {})
  }

  /**
   * The rows record exactly the placed markers: every marker is on an
   * existing row, and each row is the union of its markers' columns.
   */
  ghost predicate RowsRecordMarkers(p: Packing) {
    && (forall k :: 0 <= k < |p.markers| ==> p.markers[k].row < |p.rows|)
    && (forall r :: 0 <= r < |p.rows| ==> p.rows[r] == RowUnion(p.markers, r))
  }

  ghost predicate GoodPacking(p: Packing) {
    RowsRecordMarkers(p) && NoOverlap(p.markers) && LowestRows(p.markers)
  }

  /** Helper: what `PlaceBar` adds when the start column is found. */
  lemma PlaceBarAdds(p: Packing, b: Bar, cells: seq<Cell>)
    requires ColumnOf(cells, b.startDay) != 0
    ensures var startCol := ColumnOf(cells, b.startDay);
            var endCol := startCol + (b.endDay - b.startDay + 1) - 1;
            var r := FirstFit(p.rows, startCol, endCol);
            PlaceBar(p, b, cells)
              == Packing(p.markers + [Marker(b.event, startCol, b.endDay - b.startDay + 1, r)],
                         Occupy(p.rows, r, startCol, endCol))
  {
  }

  /** Each marker's columns are occupied in its row. */
  lemma {:induction false} RowUnionCovers(ms: seq<Marker>, k: int)
    requires 0 <= k < |ms|
    ensures MarkerColumns(ms[k]) <= RowUnion(ms, ms[k].row)
    decreases |ms|
  {
    var n := |ms| - 1;
    if k < n {
      RowUnionCovers(ms[..n], k);
      assert ms[..n][k] == ms[k];
    }
  }

  /** An occupied column belongs to a marker on that row. */
  lemma {:induction false} RowUnionWitness(ms: seq<Marker>, r: nat, c: int) returns (k: nat)
    requires c in RowUnion(ms, r)
    ensures k < |ms| && ms[k].row == r && c in MarkerColumns(ms[k])
    decreases |ms|
  {
    var n := |ms| - 1;
    if ms[n].row == r && c in MarkerColumns(ms[n]) {
      k := n;
    } else {
      k := RowUnionWitness(ms[..n], r, c);
      assert ms[..n][k] == ms[k];
    }
  }

  /** A row no marker is on is empty. */
  lemma {:induction false} RowUnionEmpty(ms: seq<Marker>, r: nat)
    requires forall k :: 0 <= k < |ms| ==> ms[k].row != r
    ensures RowUnion(ms, r) == {}
    decreases |ms|
  {
    if ms != [] {
      var n := |ms| - 1;
      assert forall k :: 0 <= k < n ==> ms[..n][k] == ms[k];
      RowUnionEmpty(ms[..n], r);
    }
  }

  /** Adding a marker adds its columns to its own row only. */
  lemma RowUnionAppend(ms: seq<Marker>, m: Marker, r: nat)
    ensures RowUnion(ms + [m], r) == RowUnion(ms, r) + (if m.row == r then MarkerColumns(m) else {})
  {
    assert (ms + [m])[..|ms|] == ms;
  }

  /** Adding a marker and marking its columns in its row keeps the rows a record of the markers. */
  lemma AddMarkerKeepsRecord(p: Packing, m: Marker, lo: int, hi: int)
    requires RowsRecordMarkers(p)
    requires m.row <= |p.rows| && MarkerColumns(m) == Columns(lo, hi)
    ensures RowsRecordMarkers(Packing(p.markers + [m], Occupy(p.rows, m.row, lo, hi)))
  {
    var ms, rows := p.markers + [m], Occupy(p.rows, m.row, lo, hi);
    forall k | 0 <= k < |ms| ensures ms[k].row < |rows| {
      if k < |p.markers| {
        assert ms[k] == p.markers[k];
      }
    }
    forall r | 0 <= r < |rows| ensures rows[r] == RowUnion(ms, r) {
      RowUnionAppend(p.markers, m, r);
      if r == |p.rows| {
        RowUnionEmpty(p.markers, r);
      }
    }
  }

  /** Placing a bar keeps the rows a record of the markers. */
  lemma PlaceBarKeepsRecord(p: Packing, b: Bar, cells: seq<Cell>)
    requires RowsRecordMarkers(p)
    ensures RowsRecordMarkers(PlaceBar(p, b, cells))
  {
    var startCol := ColumnOf(cells, b.startDay);
    if startCol != 0 {
      var spanDays := b.endDay - b.startDay + 1;
      var endCol := startCol + spanDays - 1;
      var r := FirstFit(p.rows, startCol, endCol);
      PlaceBarAdds(p, b, cells);
      AddMarkerKeepsRecord(p, Marker(b.event, startCol, spanDays, r), startCol, endCol);
    }
  }

  /** A marker added on a row with room shares no column with the markers already there. */
  lemma AddMarkerKeepsNoOverlap(p: Packing, m: Marker, lo: int, hi: int)
    requires RowsRecordMarkers(p) && NoOverlap(p.markers)
    requires MarkerColumns(m) == Columns(lo, hi)
    requires m.row < |p.rows| ==> Free(p.rows[m.row], lo, hi)
    ensures NoOverlap(p.markers + [m])
  {
    var ms, n := p.markers + [m], |p.markers|;
    forall i, j | 0 <= i < j < |ms| && ms[i].row == ms[j].row
      ensures MarkerColumns(ms[i]) !! MarkerColumns(ms[j])
    {
      assert ms[i] == p.markers[i];
      if j < n {
        assert ms[j] == p.markers[j];
      } else {
        RowUnionCovers(p.markers, i);
      }
    }
  }

  /** The new marker shares no column with a marker already on its row. */
  lemma PlaceBarKeepsNoOverlap(p: Packing, b: Bar, cells: seq<Cell>)
    requires RowsRecordMarkers(p) && NoOverlap(p.markers)
    ensures NoOverlap(PlaceBar(p, b, cells).markers)
  {
    var startCol := ColumnOf(cells, b.startDay);
    if startCol != 0 {
      var spanDays := b.endDay - b.startDay + 1;
      var endCol := startCol + spanDays - 1;
      var r := FirstFit(p.rows, startCol, endCol);
      PlaceBarAdds(p, b, cells);
      AddMarkerKeepsNoOverlap(p, Marker(b.event, startCol, spanDays, r), startCol, endCol);
    }
  }

  /**
   * A marker added on the first row with room keeps every marker on its
   * lowest row: each row below was blocked by a marker already placed.
   */
  lemma AddMarkerKeepsLowestRows(p: Packing, m: Marker, lo: int, hi: int)
    requires RowsRecordMarkers(p) && LowestRows(p.markers)
    requires m.row <= |p.rows| && MarkerColumns(m) == Columns(lo, hi)
    requires forall k :: 0 <= k < m.row ==> !Free(p.rows[k], lo, hi)
    ensures LowestRows(p.markers + [m])
  {
    var ms := p.markers + [m];
    var n := |p.markers|;
    forall j, r | 0 <= j < |ms| && 0 <= r < ms[j].row
      ensures Blocked(ms, j, r)
    {
      if j == n {
        NewMarkerBlocked(p, m, lo, hi, r);
      } else {
        OldMarkerStaysBlocked(p.markers, m, j, r);
      }
    }
  }

  /** Helper: the row `r` below the new marker holds an earlier marker sharing a column with it. */
  lemma NewMarkerBlocked(p: Packing, m: Marker, lo: int, hi: int, r: nat)
    requires RowsRecordMarkers(p)
    requires r < m.row <= |p.rows| && MarkerColumns(m) == Columns(lo, hi)
    requires !Free(p.rows[r], lo, hi)
    ensures Blocked(p.markers + [m], |p.markers|, r)
  {
    var ms := p.markers + [m];
    var c :| lo <= c <= hi && c in p.rows[r];
    var k := RowUnionWitness(p.markers, r, c);
    assert ms[k] == p.markers[k];
    assert c in MarkerColumns(ms[k]) * MarkerColumns(ms[|p.markers|]);
  }

  /** Helper: appending a marker does not unblock an earlier one. */
  lemma OldMarkerStaysBlocked(ms: seq<Marker>, m: Marker, j: int, r: nat)
    requires 0 <= j < |ms| && Blocked(ms, j, r)
    ensures Blocked(ms + [m], j, r)
  {
    var i :| 0 <= i < j && ms[i].row == r && MarkerColumns(ms[i]) * MarkerColumns(ms[j]) != {};
    assert (ms + [m])[i] == ms[i] && (ms + [m])[j] == ms[j];
  }

  /** Every row below the new marker's was blocked by a marker already placed. */
  lemma PlaceBarKeepsLowestRows(p: Packing, b: Bar, cells: seq<Cell>)
    requires RowsRecordMarkers(p) && LowestRows(p.markers)
    ensures LowestRows(PlaceBar(p, b, cells).markers)
  {
    var startCol := ColumnOf(cells, b.startDay);
    if startCol != 0 {
      var spanDays := b.endDay - b.startDay + 1;
      var endCol := startCol + spanDays - 1;
      var r := FirstFit(p.rows, startCol, endCol);
      PlaceBarAdds(p, b, cells);
      AddMarkerKeepsLowestRows(p, Marker(b.event, startCol, spanDays, r), startCol, endCol);
    }
  }

  lemma PlaceBarKeepsGood(p: Packing, b: Bar, cells: seq<Cell>)
    requires GoodPacking(p)
    ensures GoodPacking(PlaceBar(p, b, cells))
  {
    PlaceBarKeepsRecord(p, b, cells);
    PlaceBarKeepsNoOverlap(p, b, cells);
    PlaceBarKeepsLowestRows(p, b, cells);
  }

  lemma {:induction false} PackIsGood(bars: seq<Bar>, cells: seq<Cell>)
    ensures GoodPacking(Pack(bars, cells))
    decreases |bars|
  {
    if bars != [] {
      PackIsGood(bars[..|bars| - 1], cells);
      PlaceBarKeepsGood(Pack(bars[..|bars| - 1], cells), bars[|bars| - 1], cells);
    }
  }

  /** Both guarantees hold of every prefix of the markers. */
  lemma PrefixKeepsGuarantees(ms: seq<Marker>, n: nat)
    requires n <= |ms| && NoOverlap(ms) && LowestRows(ms)
    ensures NoOverlap(ms[..n]) && LowestRows(ms[..n])
  {
    var front := ms[..n];
    forall j, r | 0 <= j < |front| && 0 <= r < front[j].row ensures Blocked(front, j, r) {
      assert Blocked(ms, j, r);
      var i :| 0 <= i < j && ms[i].row == r && MarkerColumns(ms[i]) * MarkerColumns(ms[j]) != {};
      assert front[i] == ms[i] && front[j] == ms[j];
    }
  }

  /**
   * The two guarantees fix the rows completely: two assignments of the same
   * column ranges that both avoid overlaps and use lowest rows are equal.
   * So `NoOverlap` and `LowestRows` together specify greedy first fit.
   */
  lemma {:induction false} RowsDetermined(ms1: seq<Marker>, ms2: seq<Marker>)
    requires |ms1| == |ms2|
    requires forall k :: 0 <= k < |ms1| ==> MarkerColumns(ms1[k]) == MarkerColumns(ms2[k])
    requires NoOverlap(ms1) && LowestRows(ms1) && NoOverlap(ms2) && LowestRows(ms2)
    ensures forall k :: 0 <= k < |ms1| ==> ms1[k].row == ms2[k].row
    decreases |ms1|
  {
    var n := |ms1|;
    if n > 0 {
      PrefixKeepsGuarantees(ms1, n - 1);
      PrefixKeepsGuarantees(ms2, n - 1);
      RowsDetermined(ms1[..n - 1], ms2[..n - 1]);
      forall k | 0 <= k < n - 1 ensures ms1[k].row == ms2[k].row {
        assert ms1[..n - 1][k] == ms1[k] && ms2[..n - 1][k] == ms2[k];
      }
      RowChosenIsFree(ms1, ms2, n - 1);
      RowChosenIsFree(ms2, ms1, n - 1);
    }
  }

  /** Helper: the row `a` chose for marker `j` is not blocked in `b` either. */
  lemma RowChosenIsFree(a: seq<Marker>, b: seq<Marker>, j: int)
    requires |a| == |b| && 0 <= j < |a|
    requires forall k :: 0 <= k < |a| ==> MarkerColumns(a[k]) == MarkerColumns(b[k])
    requires forall k :: 0 <= k < j ==> a[k].row == b[k].row
    requires NoOverlap(a)
    ensures !Blocked(b, j, a[j].row)
  {
    forall i | 0 <= i < j && b[i].row == a[j].row
      ensures MarkerColumns(b[i]) * MarkerColumns(b[j]) == {}
    {
      assert MarkerColumns(a[i]) !! MarkerColumns(a[j]);
    }
  }

  /** Markers whose columns are pairwise disjoint all land on the first row. */
  lemma DisjointMarkersShareFirstRow(ms: seq<Marker>)
    requires LowestRows(ms)
    requires forall i, j :: 0 <= i < j < |ms| ==> MarkerColumns(ms[i]) !! MarkerColumns(ms[j])
    ensures forall j :: 0 <= j < |ms| ==> ms[j].row == 0
  {
    forall j | 0 <= j < |ms| ensures ms[j].row == 0 {
      assert !Blocked(ms, j, 0);
    }
  }

  /** Markers that pairwise share a column each get a row of their own, in order. */
  lemma {:induction false} CrowdedMarkersStack(ms: seq<Marker>)
    requires NoOverlap(ms) && LowestRows(ms)
    requires forall i, j :: 0 <= i < j < |ms| ==> MarkerColumns(ms[i]) * MarkerColumns(ms[j]) != {}
    ensures forall j :: 0 <= j < |ms| ==> ms[j].row == j
    decreases |ms|
  {
    var n := |ms|;
    if n > 0 {
      var front := ms[..n - 1];
      assert forall k :: 0 <= k < n - 1 ==> front[k] == ms[k];
      PrefixKeepsGuarantees(ms, n - 1);
      CrowdedMarkersStack(front);
      var j := n - 1;
      // The earlier markers sit on rows 0 to j - 1, and each of them shares
      // a column with marker j, so marker j is on none of those rows ...
      if j > 0 {
        var i := if ms[j].row < j then ms[j].row else 0;
        assert ms[i].row == i;
        assert ms[i].row != ms[j].row;
      }
      // ... and none of them is on row j, so row j was not blocked.
      assert !Blocked(ms, j, j);
    }
  }

  // ---------------------------------------------------------------------------
  // The engine
  // ---------------------------------------------------------------------------

  /** The `canFit` loop nested in the row search: the lowest row with room. */
  method FindRow(rows: seq<set<int>>, startCol: int, endCol: int) returns (rowIndex: nat, foundRow: bool)
    ensures foundRow ==> rowIndex < |rows| && Free(rows[rowIndex], startCol, endCol)
    ensures foundRow ==> forall k :: 0 <= k < rowIndex ==> !Free(rows[k], startCol, endCol)
    ensures !foundRow ==> rowIndex == 0 && forall k :: 0 <= k < |rows| ==> !Free(rows[k], startCol, endCol)
  {
    rowIndex, foundRow := 0, false;
    var r := 0;
    while r < |rows|
      invariant 0 <= r <= |rows|
      invariant forall k :: 0 <= k < r ==> !Free(rows[k], startCol, endCol)
    {
      var canFit := true;
      var col := startCol;
      while col <= endCol
        invariant startCol <= col || endCol < startCol
        invariant canFit ==> forall c :: startCol <= c < col ==> c !in rows[r]
        invariant !canFit ==> !Free(rows[r], startCol, endCol)
        decreases endCol - col + 1, canFit
      {
        if col in rows[r] {
          canFit := false;
          break;
        }
        col := col + 1;
      }
      if canFit {
        rowIndex, foundRow := r, true;
        return;
      }
      r := r + 1;
    }
  }

  /** `rows[rowIndex][col] = true` for every column of the marker. */
  method MarkColumns(rows: seq<set<int>>, rowIndex: nat, startCol: int, endCol: int)
    returns (rows': seq<set<int>>)
    requires rowIndex < |rows|
    ensures |rows'| == |rows|
    ensures rows'[rowIndex] == rows[rowIndex] + Columns(startCol, endCol)
    ensures forall k :: 0 <= k < |rows| && k != rowIndex ==> rows'[k] == rows[k]
  {
    rows' := rows;
    var col := startCol;
    while col <= endCol
      invariant col == startCol || startCol < col <= endCol + 1
      invariant |rows'| == |rows|
      invariant rows'[rowIndex] == rows[rowIndex] + Columns(startCol, col - 1)
      invariant forall k :: 0 <= k < |rows| && k != rowIndex ==> rows'[k] == rows[k]
      decreases endCol - col + 1
    {
      rows' := rows'[rowIndex := rows'[rowIndex] + {col}];
      col := col + 1;
    }
    assert Columns(startCol, col - 1) == Columns(startCol, endCol);
  }

  /**
   * The `forEach` callback of `renderMonthEvents` for one sorted event:
   * clip it, look up its start column and, when found, place its marker on
   * the first row with room, opening a new row when none has.
   */
  method PlaceEvent(event: Span, year: int, monthIndex: int, cells: seq<Cell>,
                    rows: seq<set<int>>, markers: seq<Marker>)
    returns (rows': seq<set<int>>, markers': seq<Marker>)
    requires 0 <= monthIndex < 12
    ensures Packing(markers', rows') == PlaceBar(Packing(markers, rows), Clip(event, year, monthIndex), cells)
  {
    var startDay := DisplayStart(event, year, monthIndex).day;
    var endDay := DisplayEnd(event, year, monthIndex).day;
    ghost var bar := Clip(event, year, monthIndex);
    var startCol := FindColumn(cells, startDay);
    rows', markers' := rows, markers;
    if startCol == 0 {
      PlaceBarSkipped(Packing(markers, rows), bar, cells);
    } else {
      var spanDays := endDay - startDay + 1;
      rows', markers' := PlaceMarker(event.event, startCol, spanDays, rows, markers);
      PlaceBarFound(Packing(markers, rows), bar, cells, startCol, FirstFit(rows, startCol, startCol + spanDays - 1));
    }
  }

  /**
   * The placement step of the `forEach` callback: the first row with room
   * for columns `startCol` onwards, a new row when none has, marked, and the
   * marker drawn on it.
   */
  method PlaceMarker(event: Event, startCol: int, spanDays: int, rows: seq<set<int>>, markers: seq<Marker>)
    returns (rows': seq<set<int>>, markers': seq<Marker>)
    ensures var r := FirstFit(rows, startCol, startCol + spanDays - 1);
            && rows' == Occupy(rows, r, startCol, startCol + spanDays - 1)
            && markers' == markers + [Marker(event, startCol, spanDays, r)]
  {
    var endCol := startCol + spanDays - 1;
    var rowIndex, foundRow := FindRow(rows, startCol, endCol);
    rows' := rows;
    if !foundRow {
      rowIndex := |rows'|;
      rows' := rows' + [{}];
    }
    FirstFitIsLowest(rows, rowIndex, startCol, endCol);
    rows' := MarkColumns(rows', rowIndex, startCol, endCol);
    OccupyIsMarking(rows, rowIndex, startCol, endCol, rows');
    markers' := markers + [Marker(event, startCol, spanDays, rowIndex)];
  }

  /** Helper for `PlaceEvent`: a bar whose start day has no column is skipped. */
  lemma PlaceBarSkipped(p: Packing, b: Bar, cells: seq<Cell>)
    requires ColumnOf(cells, b.startDay) == 0
    ensures PlaceBar(p, b, cells) == p
  {
  }

  /** Helper for `PlaceEvent`: `PlaceBar` once the column and the row are known. */
  lemma PlaceBarFound(p: Packing, b: Bar, cells: seq<Cell>, col: int, r: nat)
    requires 0 < col && ColumnOf(cells, b.startDay) == col
    requires FirstFit(p.rows, col, col + b.endDay - b.startDay) == r
    ensures PlaceBar(p, b, cells)
            == Packing(p.markers + [Marker(b.event, col, b.endDay - b.startDay + 1, r)],
                       Occupy(p.rows, r, col, col + b.endDay - b.startDay))
  {
  }

  /** Helper for `PlaceMarker`: the lowest row with room is the one `FirstFit` picks. */
  lemma FirstFitIsLowest(rows: seq<set<int>>, r: nat, lo: int, hi: int)
    requires r <= |rows|
    requires r < |rows| ==> Free(rows[r], lo, hi)
    requires forall k :: 0 <= k < r ==> !Free(rows[k], lo, hi)
    ensures FirstFit(rows, lo, hi) == r
  {
  }

  /** Helper for `PlaceMarker`: rows marked in place are the rows `Occupy` gives. */
  lemma OccupyIsMarking(rows: seq<set<int>>, r: nat, lo: int, hi: int, rows': seq<set<int>>)
    requires r <= |rows|
    requires |rows'| == if r == |rows| then |rows| + 1 else |rows|
    requires rows'[r] == (if r < |rows| then rows[r] else {}) + Columns(lo, hi)
    requires forall k :: 0 <= k < |rows| && k != r ==> rows'[k] == rows[k]
    ensures rows' == Occupy(rows, r, lo, hi)
  {
    var o := Occupy(rows, r, lo, hi);
    forall k | 0 <= k < |rows'| ensures rows'[k] == o[k] {
      if k != r {
        assert rows'[k] == rows[k];
      }
    }
  }

  /**
   * `renderMonthEvents`: filter, sort, then place each event in turn.
   * Markers are returned in drawing order instead of being added to the page.
   */
  method RenderMonthEvents(events: seq<Event>, year: int, monthIndex: int, cells: seq<Cell>)
    returns (markers: seq<Marker>)
    requires 0 <= monthIndex < 12
    ensures markers == MonthLayout(events, year, monthIndex, cells)
    ensures NoOverlap(markers) && LowestRows(markers)
  {
    var monthEvents := MonthSpans(events, year, monthIndex);
    var sorted := Sorting.Sort(monthEvents, LayoutBefore);
    ghost var bars := Bars(sorted, year, monthIndex);
    var rows: seq<set<int>> := [];
    markers := [];
    var i := 0;
    while i < |sorted|
      invariant 0 <= i <= |sorted|
      invariant Packing(markers, rows) == Pack(bars[..i], cells)
    {
      PackStep(bars, i, cells);
      rows, markers := PlaceEvent(sorted[i], year, monthIndex, cells, rows, markers);
      i := i + 1;
    }
    assert bars[..|sorted|] == bars;
    PackIsGood(bars, cells);
  }

  /** Helper for `RenderMonthEvents`: packing one more bar is one more `PlaceBar`. */
  lemma PackStep(bars: seq<Bar>, i: int, cells: seq<Cell>)
    requires 0 <= i < |bars|
    ensures Pack(bars[..i + 1], cells) == PlaceBar(Pack(bars[..i], cells), bars[i], cells)
  {
    assert bars[..i + 1][..i] == bars[..i];
  }

  /** Marker `m` draws bar `b` from column `leading + b.startDay` over its days. */
  predicate DrawsBar(m: Marker, b: Bar, leading: int) {
    && m.event == b.event
    && m.startCol == leading + b.startDay
    && m.span == b.endDay - b.startDay + 1
  }

  /**
   * On a month grid no marker is skipped: the markers follow the sorted
   * events one for one, each starting at its clipped start day's column and
   * spanning its clipped days, its first and last columns inside the 37.
   */
  lemma LayoutOnMonthGrid(events: seq<Event>, year: int, monthIndex: int, cells: seq<Cell>, leading: int)
    requires 0 <= monthIndex < 12
    requires IsMonthGrid(cells, leading, DaysInMonth(year, monthIndex))
    requires 0 <= leading && leading + DaysInMonth(year, monthIndex) <= TotalCells
    ensures var sorted := SortedMonthSpans(events, year, monthIndex);
            var ms := MonthLayout(events, year, monthIndex, cells);
            && |ms| == |sorted|
            && forall k :: 0 <= k < |ms| ==>
                 && DrawsBar(ms[k], Clip(sorted[k], year, monthIndex), leading)
                 && 1 <= ms[k].startCol && ms[k].startCol + ms[k].span - 1 <= TotalCells
  {
    var bars := Bars(SortedMonthSpans(events, year, monthIndex), year, monthIndex);
    BarsFoundOnGrid(events, year, monthIndex, cells, leading);
    BarsEndInMonth(events, year, monthIndex);
    PackFollowsBars(bars, cells, leading);
  }

  /** Helper for `LayoutOnMonthGrid`: every clipped end day is a day of the month. */
  lemma BarsEndInMonth(events: seq<Event>, year: int, monthIndex: int)
    requires 0 <= monthIndex < 12
    ensures var bars := Bars(SortedMonthSpans(events, year, monthIndex), year, monthIndex);
            forall k :: 0 <= k < |bars| ==> bars[k].endDay <= DaysInMonth(year, monthIndex)
  {
    var sorted := SortedMonthSpans(events, year, monthIndex);
    SortedMonthOrder(events, year, monthIndex);
    forall k | 0 <= k < |sorted| ensures Clip(sorted[k], year, monthIndex).endDay <= DaysInMonth(year, monthIndex) {
      assert sorted[k] in multiset(sorted);
      assert sorted[k] in MonthSpans(events, year, monthIndex);
      ClipWithinMonth(sorted[k], year, monthIndex);
    }
  }

  /** Helper for `LayoutOnMonthGrid`: every clipped start day has its column. */
  lemma BarsFoundOnGrid(events: seq<Event>, year: int, monthIndex: int, cells: seq<Cell>, leading: int)
    requires 0 <= monthIndex < 12
    requires IsMonthGrid(cells, leading, DaysInMonth(year, monthIndex))
    requires 0 <= leading && leading + DaysInMonth(year, monthIndex) <= TotalCells
    ensures var bars := Bars(SortedMonthSpans(events, year, monthIndex), year, monthIndex);
            forall k :: 0 <= k < |bars| ==>
              && 1 <= leading + bars[k].startDay <= TotalCells
              && ColumnOf(cells, bars[k].startDay) == leading + bars[k].startDay
  {
    var sorted := SortedMonthSpans(events, year, monthIndex);
    forall k | 0 <= k < |sorted|
      ensures 1 <= leading + Clip(sorted[k], year, monthIndex).startDay <= TotalCells
      ensures ColumnOf(cells, Clip(sorted[k], year, monthIndex).startDay) == leading + Clip(sorted[k], year, monthIndex).startDay
    {
      SpanFoundOnGrid(events, sorted[k], year, monthIndex, cells, leading);
    }
  }

  /** Helper for `LayoutOnMonthGrid`: a shown event's clipped start day has its column. */
  lemma SpanFoundOnGrid(events: seq<Event>, s: Span, year: int, monthIndex: int, cells: seq<Cell>, leading: int)
    requires 0 <= monthIndex < 12
    requires s in multiset(SortedMonthSpans(events, year, monthIndex))
    requires IsMonthGrid(cells, leading, DaysInMonth(year, monthIndex))
    requires 0 <= leading && leading + DaysInMonth(year, monthIndex) <= TotalCells
    ensures 1 <= Clip(s, year, monthIndex).startDay <= DaysInMonth(year, monthIndex)
    ensures ColumnOf(cells, Clip(s, year, monthIndex).startDay) == leading + Clip(s, year, monthIndex).startDay
  {
    SortedMonthOrder(events, year, monthIndex);
    assert s in MonthSpans(events, year, monthIndex);
    ClipWithinMonth(s, year, monthIndex);
    GridColumn(cells, leading, DaysInMonth(year, monthIndex), Clip(s, year, monthIndex).startDay);
  }

  /** Helper for `LayoutOnMonthGrid`: when every start column is found, `Pack` skips nothing. */
  lemma {:induction false} PackFollowsBars(bars: seq<Bar>, cells: seq<Cell>, leading: int)
    requires forall k :: 0 <= k < |bars| ==> ColumnOf(cells, bars[k].startDay) == leading + bars[k].startDay
    requires forall k :: 0 <= k < |bars| ==> 1 <= leading + bars[k].startDay
    ensures var ms := Pack(bars, cells).markers;
            |ms| == |bars| && forall k :: 0 <= k < |ms| ==> DrawsBar(ms[k], bars[k], leading)
    decreases |bars|
  {
    if bars != [] {
      var front, last := bars[..|bars| - 1], bars[|bars| - 1];
      PackFollowsBars(front, cells, leading);
      var p := Pack(front, cells);
      var col := leading + last.startDay;
      PlaceBarFound(p, last, cells, col, FirstFit(p.rows, col, col + last.endDay - last.startDay));
      var ms := Pack(bars, cells).markers;
      assert ms == p.markers + [Marker(last.event, col, last.endDay - last.startDay + 1,
                                       FirstFit(p.rows, col, col + last.endDay - last.startDay))];
      forall k | 0 <= k < |ms| ensures DrawsBar(ms[k], bars[k], leading) {
        if k < |front| {
          assert ms[k] == p.markers[k] && bars[k] == front[k];
        }
      }
    }
  }
}
