# Linear calendar: a verified model of its layout engine and list rules

The linear calendar shows a whole year as twelve rows, one per month, with
one cell per day. Events are drawn as bars across the days they cover.
This project models the program's core in Dafny and proves what it does:

- **Dates** (`dates.dfy`). Local dates are `(year, month, day)` triples with a 0-based month, in
  place of JavaScript `Date` objects. They use proleptic Gregorian arithmetic: month lengths, day numbers and
  weekdays. `parseLocalDate` reads `"YYYY-MM-DD"` text. Comparing dates lexicographically is proved equal to
  comparing day numbers. Like JavaScript's `new Date(year, month, day)`, the model reads a year from 0 to 99
  as 1900 to 1999 (`FullYear`), both when parsing and when drawing the displayed year.
- **Day grid** (`grid.dfy`). A month row is 37 cells: blank cells for the weekday of the 1st (in
  weekday-aligned mode), then the days, then blank padding. `renderMonthEvents` scans the cells to find the
  column of a day.
- **Month layout** (`layout.dfy`). `renderMonthEvents` runs four steps:
  - it keeps the events that overlap the month;
  - it sorts them, earlier start first and on equal starts later end first;
  - it clips each to the month;
  - it packs the bars into rows by greedy first fit over a growable list of occupied-column sets.

  The packing is specified as a fold (`Pack`). The nested loops of `renderMonthEvents` are proved to compute it. The
  fold is proved to keep two guarantees: no two bars on one row share a column, and every bar is on the
  lowest row it fits. These two guarantees are also proved to determine the rows completely.
- **Stable sort** (`sorting.dfy`). `Array.prototype.sort` with a key comparator is modelled as an
  insertion sort, proved to return a sorted permutation and to be stable.
- **List rules** (`store.dfy`). These are the stored lists' rules as functions:
  - look-ups by id and by colour;
  - migration of uncategorised events to the category of their colour;
  - recolouring the events when a category is edited;
  - clearing references when a category is deleted;
  - saving and deleting events;
  - the `trim` of a category name;
  - the events on a given day.
- **The calendar object** (`calendar.dfy`). `class LinearCalendar` has the object's fields (`currentYear`,
  `categories`, `events`, `editingEventId`, `editingCategoryId`, `alignByWeekday`). Its handlers update
  those fields with the handlers' own loops and are proved to compute the list functions. Lemmas show that
  migrating events and adding, editing and deleting categories keep category ids unique and every category
  reference pointing at an existing category. `saveEvent` stores the form's category id as given, so it can
  store an id no category has; no lemma claims otherwise.

Dialog answers (`confirm`) are boolean parameters. `Date.now()` ids and the lists read from storage are
parameters as well. Rendering returns each month's cells and markers as values instead of building the
page.

## Model

| member | source | states |
|---|---|---|
| Dates.DaysInMonth | script.js:184 | a month has 28 to 31 days, and 29 exactly for February of a leap year |
| Dates.FullYear | script.js:184-185 | the year `new Date(y, m, d)` uses: never in 0..99, with the same last two digits as `y`, and `y` itself outside 0..99 |
| Dates.MonthStart | script.js:255 | for the full year `y` the constructor uses (`FullYear(year)` for `new Date(year, m, 1)`), the month start is the valid date of day 1 of month `m` of year `y`, and no day of that month comes before it |
| Dates.MonthEnd | script.js:256 | for the full year `y` the constructor uses (`FullYear(year)` for `new Date(year, m + 1, 0)`), the month end is a valid date of month `m`, and no day of the month comes after it |
| Dates.DayNumberOrder | script.js:258 | for valid dates, lexicographic order on the triples is the order of their time values, both ways, so `<=`/`>=` on `Date`s is modelled by `NotAfter` |
| Dates.Weekday | script.js:206 | `getDay()` is in 0..6 |
| Dates.FirstWeekday | script.js:185 | the weekday of the 1st is in 0..6 |
| Dates.EpochIsThursday | script.js:185 | the weekday numbering agrees with JavaScript's: 1 January 1970 is day 4 (Thursday) |
| Dates.FirstWeekdayAdvances | script.js:184-185 | the 1st of the next month falls `daysInMonth` weekdays after the 1st of this one, across year ends too |
| Dates.ParseLocalDate | script.js:441-446 | a parsed date is valid and came from ten characters with dashes at 4 and 7; years 0 to 99 become 1900 to 1999 as in `new Date(y, m, d)`, so a parsed year is at least 100 |
| Dates.FormatLocalDate | script.js:225 | the text is the year in decimal (a minus sign for a negative year), then `-MM-DD` holding the month number and the day in two digits; a four-digit year gives ten characters |
| Dates.ParseCanonical | script.js:441-446 | every text of four, two and two digits joined by dashes denotes `new Date(YYYY, MM - 1, DD)` with years 0000-0099 read as 1900-1999 when month MM has a day DD, and gives None otherwise |
| Dates.ParseFormatRoundTrip | script.js:441-446 | parsing the `${year}-${MM}-${DD}` text of a valid date with a four-digit year gives the date back |
| Grid.MonthGrid | script.js:184-240 | the cells of month `monthIndex` form a month grid after as many blanks as the alignment asks |
| Grid.BuildDaysGrid | script.js:184-240 | the loops build 37 cells: `leading` blanks (the weekday of the 1st when aligned, else none), day `d` at index `leading + d - 1`, then blanks; `leading + daysInMonth <= 37`; the result is `MonthGrid` |
| Grid.ColumnOf | script.js:290-298 | the 1-based column of the first cell holding the day, or 0 when none holds it |
| Grid.FindColumn | script.js:290-298 | the scan with `break` returns `ColumnOf`, and returns 0 exactly when no cell holds the day |
| Grid.GridColumn | script.js:290-300 | in a month grid, day `d` of the month is found in column `leading + d`, so the `startCol > 0` test always passes for the month's days, and any other number is not found |
| Sorting.Sort | script.js:262-271 | the sort returns a permutation of its input |
| Sorting.SortSorted | script.js:262-271 | the result is ordered by the comparator when the comparator orders by a key |
| Sorting.SortSameElements | script.js:262-271 | the sorted list holds exactly the input's elements |
| Sorting.InsertTies | script.js:262-271 | inserting an element puts it in front of the elements it ties with and keeps their order |
| Sorting.SortStable | script.js:262-271 | the sort is stable: for every `x`, the elements tying with `x` keep their input order |
| Layout.ParseSpan | script.js:253-254 | an event's span exists exactly when both its dates parse, and both are valid dates |
| Layout.MonthSpans | script.js:252-259 | an event is kept exactly when both its dates parse, its start is not after the month's last day and its end is not before the 1st |
| Layout.OverlapsMonthShareDay | script.js:258 | for valid dates, the filter keeps an event with start not after end exactly when some day of the month lies within its range |
| Layout.MonthSpansAppend | script.js:252-259 | the filter keeps the stored order and duplicates: on a concatenation it keeps from each part |
| Layout.MonthSpansOne | script.js:252-259 | a single event gives its span exactly when both dates parse and it overlaps the month |
| Layout.LayoutBeforeIsStrictWeakOrder | script.js:262-271 | the comparator (start ascending, then end descending) is a strict weak order, so the sort is well defined |
| Layout.LayoutBeforeByTime | script.js:262-271 | on valid dates the comparator is the one on time values: `aStart - bStart` negative, or equal starts and `bEnd - aEnd` negative |
| Layout.SortedMonthOrder | script.js:262-271 | after the sort, starts never decrease, equal starts have non-increasing ends, and the list is a permutation of the kept events |
| Layout.SortedMonthStable | script.js:262-271 | events that tie under the comparator keep their stored order after the sort |
| Layout.DisplayStart | script.js:283 | `displayStart` is the later of the event's start and the 1st of the month |
| Layout.DisplayEnd | script.js:284 | `displayEnd` is the earlier of the event's end and the month's last day |
| Layout.Clip | script.js:286-287 | the bar keeps the event and starts on its start day, or on day 1 when it began earlier; it ends on its end day, or on the last day when it runs on |
| Layout.ClipWithinMonth | script.js:280-287 | for a kept event, both clipped dates fall in the month, `1 <= startDay, endDay <= daysInMonth`, and `startDay <= endDay` when start is not after end |
| Layout.Bars | script.js:276-287 | one clipped bar per sorted event, in order |
| Layout.FirstFit | script.js:305-320 | the row chosen is the lowest whose columns `startCol..endCol` are all free, or `rows.length` (a new row) when none is |
| Layout.Occupy | script.js:322-332 | exactly columns `startCol..endCol` of the chosen row become occupied, a new row starts empty, and every other row is unchanged |
| Layout.FindRow | script.js:305-320 | the nested `canFit` loops find the lowest free row when there is one, and report none only when every row is blocked |
| Layout.MarkColumns | script.js:329-332 | the marking loop adds exactly columns `startCol..endCol` to the chosen row and changes no other row |
| Layout.PlaceMarker | script.js:304-334 | the row search, the new row and the marking put the marker on `FirstFit`'s row and occupy its columns there as `Occupy` says |
| Layout.PlaceEvent | script.js:276-348 | one turn of the `forEach` (clip, column scan, row search, new row, marking, marker) computes one step of the `Pack` fold |
| Layout.RenderMonthEvents | script.js:251-349 | the markers are the month's layout (`MonthLayout`); no two on a row share a column, and each is on the lowest row it fits |
| Layout.PlaceBarKeepsRecord | script.js:305-332 | after each placement every row is exactly the union of the columns of the markers on it |
| Layout.PlaceBarKeepsNoOverlap | script.js:305-332 | after each placement no two markers on the same row share a column |
| Layout.PlaceBarKeepsLowestRows | script.js:305-327 | after each placement every row below a marker's row holds an earlier marker that overlaps it, so a new row is opened only when every row was blocked |
| Layout.PackIsGood | script.js:274-348 | every packing the fold produces satisfies the three invariants above |
| Layout.Pack | script.js:274-348 | placing the bars in order gives at most one marker per bar and never more rows than markers, so the `k`-th marker is on one of the first `k + 1` rows |
| Layout.MonthLayout | script.js:251-349 | a month has at most one marker per stored event, and the `k`-th marker is on one of the first `k + 1` rows |
| Layout.RowsDetermined | script.js:305-327 | any two row assignments of the same column ranges that both avoid overlaps and use lowest rows are equal, so the two guarantees specify greedy first fit completely |
| Layout.DisjointMarkersShareFirstRow | script.js:305-327 | markers whose columns are pairwise disjoint all go on row 0 |
| Layout.CrowdedMarkersStack | script.js:305-327 | markers that pairwise share a column go on rows 0, 1, 2, ... in placement order |
| Layout.LayoutOnMonthGrid | script.js:290-302 | on a month grid, every sorted event gets a marker, in order, drawing its clipped bar (`DrawsBar`: same event, column `leading + startDay`, span `endDay - startDay + 1`), its first column at least 1 and its last column at most 37 |
| Store.FirstIndex | script.js:645 | `findIndex`: the first index satisfying the test, or -1 exactly when none does |
| Store.EventIndex | script.js:520 | the first event with the id, or -1 exactly when no event has it |
| Store.CategoryIndex | script.js:645 | the first category with the id, or -1 exactly when no category has it |
| Store.CategoryById | script.js:598-600 | `find` by id: the first category with that id, None exactly when there is none |
| Store.CategoryByColor | script.js:602-604 | `find` by colour: the first category with that colour, None exactly when there is none |
| Store.Migrate | script.js:25-31 | only `categoryId` may change; an event with no (or an empty) category and a colour that some category has joins the first category of that colour; any other event is unchanged |
| Store.MigrateAll | script.js:24-33 | the `forEach` applies the rule to each event, keeping the order and the count |
| Store.MigrateIdempotent | script.js:22-37 | migrating a second time changes nothing |
| Store.Recolour | script.js:655-661 | an event of the edited category takes the new colour; an uncategorised event of the old colour joins it with the new colour; any other event is unchanged; id, title, dates and description never change |
| Store.RecolourAll | script.js:654-662 | the `forEach` applies the recolouring rule to each event, keeping the order and the count |
| Store.RecolourAllConsistent | script.js:654-662 | after the edit every event of the category has the new colour, events of other categories are untouched, and no uncategorised event is left with the old colour (unless the colours are equal) |
| Store.RecolourIdempotent | script.js:654-662 | repeating the same edit changes nothing more |
| Store.ReplaceCategory | script.js:648-652 | the edited position holds the new category and every other position is unchanged |
| Store.ClearCategory | script.js:693-695 | only `categoryId` may change; a reference to the deleted category becomes null and the colour is kept |
| Store.ClearCategoryAll | script.js:692-696 | the `forEach` clears each event of the deleted category, keeping the order and the count |
| Store.ClearCategoryAllForgets | script.js:692-696 | afterwards no event refers to the deleted category, and every event keeps its colour |
| Store.CountUsing | script.js:685-687 | `eventsUsingCategory.length` is 0 exactly when no event uses the category |
| Store.RemoveCategory | script.js:702 | the list loses exactly the categories with that id |
| Store.RemoveEvent | script.js:554 | the list loses exactly the events with that id |
| Store.RemoveAbsentEvent | script.js:554 | deleting an id that no event has leaves the list as it was |
| Store.RemoveEventAppend | script.js:554 | the `filter` keeps order and duplicates: on a concatenation it deletes from each part |
| Store.RemoveEventOne | script.js:554 | a single event stays exactly when its id differs |
| Store.RemoveCategoryAppend | script.js:702 | the `filter` keeps order and duplicates: on a concatenation it deletes from each part |
| Store.RemoveCategoryOne | script.js:702 | a single category stays exactly when its id differs |
| Store.CategoryOrNull | script.js:529 | the form's category field read with JavaScript's "or null": null exactly for the empty field, otherwise the field's text |
| Store.SaveEventInto | script.js:519-543 | a new event is appended; an edit replaces the first event with the edited id and keeps every other position, and does nothing when that id is gone |
| Store.SaveEventKeepsIdsUnique | script.js:519-543 | saving keeps event ids unique when a new event gets a new id and an edit keeps the edited id |
| Store.AddThenDeleteEvent | script.js:552-554 | deleting an event just added under a new id gives back the list before the add |
| Store.MigrateKeepsRefs | script.js:22-37 | migration only assigns ids of existing categories |
| Store.EditCategoryKeepsRefs | script.js:644-662 | editing a category (id kept) and recolouring the events leaves every category reference resolved |
| Store.DeleteCategoryKeepsRefs | script.js:682-702 | clearing the references and deleting the category leaves every category reference resolved |
| Store.AddCategoryKeeps | script.js:665-671 | adding a category with a new id keeps category ids unique and references resolved |
| Store.RemoveCategoryKeepsUnique | script.js:702 | deleting a category keeps category ids unique |
| Store.TrimStart | script.js:636 | the leading white space is removed and only that |
| Store.TrimEnd | script.js:636 | the trailing white space is removed and only that |
| Store.Trim | script.js:636 | the trimmed name is no longer than the input and neither starts nor ends with white space |
| Store.TrimIsCore | script.js:636 | the trimmed name is a contiguous part of the input, starts and ends with non-space, and only white space surrounds it |
| Store.TrimEmptyIffBlank | script.js:636-642 | the name is refused exactly when it is white space only (or empty) |
| Store.TrimIdempotent | script.js:636 | trimming twice is trimming once |
| Store.CoveringSpans | script.js:371-376 | an event is kept exactly when both dates parse and the day lies between them |
| Store.CoveringSpansAppend | script.js:371-376 | the `filter` keeps the stored order and duplicates: on a concatenation it keeps from each part |
| Store.CoveringSpansOne | script.js:371-376 | a single event gives its span exactly when both dates parse and the day lies between them |
| Store.EventsOnDate | script.js:370-378 | no more events are listed than are stored |
| Store.EventsOnDateTwoDigitYear | script.js:371 | a year from 0 to 99 lists the same events as the year 1900 later, as `new Date(year, month, day)` reads it |
| Store.EventsOnDateMembers | script.js:370-378 | `getEventsByDate` lists an event exactly when both its dates parse and the day `Date(FullYear(year), month, day)` lies between them |
| Store.EventsOnDateSorted | script.js:377 | the listed events are ordered by start date |
| Store.EventsOnDateStable | script.js:377 | events that start on the same day are listed in their stored order |
| Calendar.DefaultCategories | script.js:584-591 | six default categories with distinct non-empty ids, and non-empty names and colours |
| Calendar.LinearCalendar.constructor | script.js:2-13 | the stored lists (or the defaults and no events), nothing edited, weekday alignment, then migration |
| Calendar.LinearCalendar.MigrateEventAt | script.js:24-32 | one turn of the `forEach`: only event `i` changes, it becomes its migrated form, and the result says whether the rule applied |
| Calendar.LinearCalendar.MigrateOldEvents | script.js:22-37 | the loop leaves `events` migrated, and `needsSave` is true exactly when some event matched the rule |
| Calendar.RenderMonth | script.js:173-248 | one turn of the month loop draws month `monthIndex` as `MonthViewOf` says: the month grid of the displayed year read as `new Date` reads it (`FullYear`), and the markers of its layout on that grid |
| Calendar.MonthViewGuarantees | script.js:173-248 | a drawn month of the displayed year (read as `FullYear`) has cells forming that year's month grid in the chosen alignment, one marker per kept event, no two markers on a row sharing a column, and each marker on the lowest row it fits |
| Calendar.MonthViewsAt | script.js:173 | position `m` of the drawn months is month `m` |
| Calendar.LinearCalendar.RenderCalendar | script.js:161-249 | the twelve months drawn are `MonthViews` of the current year, alignment and events: month `m` at position `m`, each with the guarantees above |
| Calendar.LinearCalendar.PrevYear | script.js:112-115 | the year goes back by one |
| Calendar.LinearCalendar.NextYear | script.js:117-120 | the year goes forward by one |
| Calendar.LinearCalendar.SetAlignment | script.js:126-138 | the buttons set the alignment mode |
| Calendar.LinearCalendar.OpenModal | script.js:456-476 | the edited event id is the given event's, or null for a new event |
| Calendar.LinearCalendar.CloseModal | script.js:503-509 | no event is being edited |
| Calendar.LinearCalendar.SaveEvent | script.js:511-550 | the events become `SaveEventInto` of the form's event (edited id or new id), and the dialog closes |
| Calendar.LinearCalendar.DeleteEvent | script.js:552-561 | with an edited id and confirmation, events with that id are removed and the dialog closes; otherwise nothing changes |
| Calendar.LinearCalendar.OpenCategoryModal | script.js:606-626 | the edited category id is the given category's, or null for a new one |
| Calendar.LinearCalendar.CloseCategoryModal | script.js:628-633 | no category is being edited |
| Calendar.LinearCalendar.RecolourEvents | script.js:654-662 | the `forEach` leaves the events recoloured as `RecolourAll` says |
| Calendar.LinearCalendar.EditCategory | script.js:644-662 | when a category has the id, it alone is replaced by the edited one (id kept, new name and colour) and the events are recoloured as `RecolourAll` says; otherwise nothing changes |
| Calendar.LinearCalendar.SaveCategory | script.js:635-680 | an empty trimmed name changes nothing; an edit replaces the category (id kept, trimmed name, new colour) and recolours the events; an add appends a category under the new id; then the dialog closes |
| Calendar.LinearCalendar.DeleteCategory | script.js:682-709 | with an edited id and confirmation, references are cleared (colours kept), exactly the categories with that id are dropped, and the dialog closes; with no id or no confirmation nothing changes |
| Calendar.CategoryHandlersKeepRefs | script.js:635-709 | migration, category edit and category deletion keep every category reference resolved, and deletion and edit keep category ids unique |

## Left out

- DOM construction, CSS classes, event listeners, the pixel offset `20 + rowIndex * 18`, the event and
  category lists on the page and the colour presets: presentation only.
- `localStorage` and `JSON.parse`/`stringify`: the constructor takes the stored lists as parameters, and
  saving is not modelled. `MigrateOldEvents` returns `needsSave` instead of saving.
- `confirm` and `alert` are not called: `DeleteEvent` and `DeleteCategory` take the user's answer as a
  boolean, and an empty category name simply changes nothing.
- `Date.now()` ids and the `Math.random()` colour of a new category are parameters. `new Date()` (today,
  the current year at start-up, the upcoming-events list) is left out or a parameter.
- `toLocaleDateString` formatting and `createEventMarker` are left out: locale library output and unused
  DOM code.
- Dates.ParseLocalDate: text that is not of the form `DDDD-DD-DD` with a real date gives None. JavaScript
  would turn some such text into a normalised date (day 31 of a 30-day month rolls over to the next month)
  and other text into an invalid date. The model treats all of it as an invalid date, so such events are
  never shown.
- Store.EventsOnDate: the year is read through `FullYear` as the constructor does, but the rollover of an
  out-of-range month or day by `new Date(year, month, day)` is not modelled; nothing in script.js calls
  `getEventsByDate`.
- JavaScript `Date` values are limited to 8.64e15 ms either side of 1970 (about the years -271821 to
  275760). Outside that range `new Date` is an invalid date: `daysInMonth` and `firstDay` are NaN, the
  page draws no day cells and 37 blank cells, and no event matches. The model has unbounded years:
  Calendar.MonthViewOf, Calendar.RenderMonth and Grid.MonthGrid draw a full month for every integer
  year, and Calendar.LinearCalendar.PrevYear and Calendar.LinearCalendar.NextYear never stop.
- Store.IsSpace: the white-space set of `String.prototype.trim` is written out by code point.
- Layout.LayoutBefore: the sort compares the unclipped start and end dates, as the code does, not the
  clipped display dates. Events that start before the month are therefore ordered by their real starts.
- The markers that `renderMonthEvents` appends to the grid carry no day, so the column scan never matches
  them. The model scans the 37 day and blank cells only.
- Event objects are updated in place through the array, and the click listeners of the page hold
  references to them. The model holds them as values in the `events` field. This is equivalent for what is
  modelled because every change to the lists is followed by a full re-render, which rebuilds those
  listeners from the current lists.
