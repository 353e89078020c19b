/**
 * The `LinearCalendar` object: the year on show, the stored categories and
 * events, the ids being edited in the two dialogs, and the alignment mode.
 *
 * Its handlers update these fields in place. Each method runs the
 * statements and loops of the handler it is named after and is proved to
 * leave the fields as the list functions of `Store` say. What the page shows is returned as values:
 * `RenderCalendar` gives each month's cells and markers instead of building
 * the page. Dialog answers are boolean inputs, and `Date.now()` ids and the
 * stored lists are parameters.
 */
module Calendar {
  import opened Wrappers
  import opened Dates
  import opened Entities
  import opened Grid
  import opened Layout
  import opened Store

  /** The six categories a first visit starts with. */
  function DefaultCategories(): (r: seq<Category>)
    ensures |r| == 6 && UniqueCategoryIds(r)
    ensures forall k :: 0 <= k < |r| ==> r[k].id != "" && r[k].name != "" && r[k].color != ""
  {
    [ Category("1", "Personal", "#4CAF50"),
      Category("2", "Work", "#2196F3"),
      Category("3", "Important", "#FF9800"),
      Category("4", "Family", "#9C27B0"),
      Category("5", "Urgent", "#F44336"),
      Category("6", "Event", "#00BCD4") ]
  }

  /** One month as drawn: its 37 cells and its event markers. */
  datatype MonthView = MonthView(cells: seq<Cell>, markers: seq<Marker>)

  /**
   * Month `m` of the displayed `year` as drawn: its day grid in the given
   * alignment and the markers `renderMonthEvents` places on it for `events`.
   * Both build their dates with `new Date(year, m, d)`, so a displayed year
   * from 0 to 99 is drawn as year 1900 to 1999 (`FullYear`).
   */
  function MonthViewOf(year: int, alignByWeekday: bool, events: seq<Event>, m: int): MonthView
    requires 0 <= m < 12
  {
    var y := FullYear(year);
    var cells := MonthGrid(y, m, alignByWeekday);
    MonthView(cells, MonthLayout(events, y, m, cells))
  }

  /**
   * A drawn month is a month grid, shows every event of the month that
   * parses, and keeps its markers free of overlaps and on lowest rows.
   */
  lemma MonthViewGuarantees(year: int, alignByWeekday: bool, events: seq<Event>, m: int)
    requires 0 <= m < 12
    ensures var v := MonthViewOf(year, alignByWeekday, events, m);
            var y := FullYear(year);
            && IsMonthGrid(v.cells, LeadingBlanks(alignByWeekday, FirstWeekday(y, m)), DaysInMonth(y, m))
            && |v.markers| == |SortedMonthSpans(events, y, m)|
            && NoOverlap(v.markers) && LowestRows(v.markers)
  {
    var y := FullYear(year);
    var cells := MonthGrid(y, m, alignByWeekday);
    var leading := LeadingBlanks(alignByWeekday, FirstWeekday(y, m));
    LayoutOnMonthGrid(events, y, m, cells, leading);
    PackIsGood(Bars(SortedMonthSpans(events, y, m), y, m), cells);
  }

  /** The first `n` months of `year`, as drawn. */
  function MonthViews(year: int, alignByWeekday: bool, events: seq<Event>, n: int): (r: seq<MonthView>)
    requires 0 <= n <= 12
    ensures |r| == n
  {
    Tabulate(m requires 0 <= m < 12 => MonthViewOf(year, alignByWeekday, events, m), n)
  }

  function Tabulate<T>(f: int --> T, n: int): (r: seq<T>)
    requires 0 <= n && forall m :: 0 <= m < n ==> f.requires(m)
    ensures |r| == n
  {
    if n == 0 then [] else Tabulate(f, n - 1) + [f(n - 1)]
  }

  lemma {:induction false} TabulateAt<T>(f: int --> T, n: int, m: int)
    requires 0 <= m < n && forall k :: 0 <= k < n ==> f.requires(k)
    ensures Tabulate(f, n)[m] == f(m)
    decreases n
  {
    if m < n - 1 {
      TabulateAt(f, n - 1, m);
    }
  }

  /** Position `m` of the drawn months is month `m`. */
  lemma MonthViewsAt(year: int, alignByWeekday: bool, events: seq<Event>, n: int, m: int)
    requires 0 <= m < n <= 12
    ensures MonthViews(year, alignByWeekday, events, n)[m] == MonthViewOf(year, alignByWeekday, events, m)
  {
    TabulateAt(m requires 0 <= m < 12 => MonthViewOf(year, alignByWeekday, events, m), n, m);
  }

  /** One turn of the month loop of `renderCalendar`. */
  method RenderMonth(year: int, alignByWeekday: bool, events: seq<Event>, monthIndex: int) returns (view: MonthView)
    requires 0 <= monthIndex < 12
    ensures view == MonthViewOf(year, alignByWeekday, events, monthIndex)
  {
    var y := FullYear(year);
    var cells := BuildDaysGrid(y, monthIndex, alignByWeekday);
    var markers := RenderMonthEvents(events, y, monthIndex, cells);
    view := MonthView(cells, markers);
  }

  class LinearCalendar {
    var currentYear: int
    var categories: seq<Category>
    var events: seq<Event>
    var editingEventId: Option<string>
    var editingCategoryId: Option<string>
    var alignByWeekday: bool

    /**
     * The constructor and `init`: the stored lists (or the default
     * categories and no events), nothing being edited, weekday alignment,
     * then the migration of uncategorised events.
     */
    constructor(year: int, storedCategories: Option<seq<Category>>, storedEvents: Option<seq<Event>>)
      ensures currentYear == year
      ensures categories == if storedCategories.Some? then storedCategories.value else DefaultCategories()
      ensures events == MigrateAll(if storedEvents.Some? then storedEvents.value else [], categories)
      ensures editingEventId == None && editingCategoryId == None && alignByWeekday
    {
      currentYear := year;
      categories := if storedCategories.Some? then storedCategories.value else DefaultCategories();
      events := if storedEvents.Some? then storedEvents.value else [];
      editingEventId := None;
      editingCategoryId := None;
      alignByWeekday := true;
      new;
      var _ := MigrateOldEvents();
    }

    /**
     * `migrateOldEvents`: every uncategorised event with a colour joins the
     * first category of that colour. The result says whether any event
     * changed, which is when `migrateOldEvents` saves the list.
     */
    method MigrateOldEvents() returns (needsSave: bool)
      modifies this`events
      ensures events == MigrateAll(old(events), categories)
      ensures needsSave <==> exists k :: 0 <= k < |old(events)| && Migrates(old(events)[k], categories)
    {
      needsSave := false;
      var i := 0;
      while i < |events|
        invariant 0 <= i <= |events| == |old(events)|
        invariant forall k :: 0 <= k < i ==> events[k] == Migrate(old(events)[k], categories)
        invariant forall k :: i <= k < |events| ==> events[k] == old(events)[k]
        invariant needsSave <==> exists k :: 0 <= k < i && Migrates(old(events)[k], categories)
      {
        var changed := MigrateEventAt(i);
        needsSave := needsSave || changed;
        i := i + 1;
      }
    }

    /** The `forEach` callback of `migrateOldEvents` for event `i`. */
    method MigrateEventAt(i: int) returns (changed: bool)
      requires 0 <= i < |events|
      modifies this`events
      ensures events == old(events)[i := Migrate(old(events)[i], categories)]
      ensures changed == Migrates(old(events)[i], categories)
    {
      var event := events[i];
      changed := false;
      if !Truthy(event.categoryId) && event.color != "" {
        var category := CategoryByColor(categories, event.color);
        if category.Some? {
          events := events[i := event.(categoryId := Some(category.value.id))];
          changed := true;
        }
      }
    }

    /**
     * `renderCalendar`: for each month of the current year, its day grid
     * and the markers `renderMonthEvents` places on it.
     */
    method RenderCalendar() returns (months: seq<MonthView>)
      ensures months == MonthViews(currentYear, alignByWeekday, events, 12)
    {
      var year, align, shown := currentYear, alignByWeekday, events;
      months := [];
      var monthIndex := 0;
      while monthIndex < 12
        invariant 0 <= monthIndex <= 12
        invariant months == MonthViews(year, align, shown, monthIndex)
      {
        var view := RenderMonth(year, align, shown, monthIndex);
        months := months + [view];
        monthIndex := monthIndex + 1;
      }
    }

    /** The previous-year button. */
    method PrevYear()
      modifies this`currentYear
      ensures currentYear == old(currentYear) - 1
    {
      currentYear := currentYear - 1;
    }

    /** The next-year button. */
    method NextYear()
      modifies this`currentYear
      ensures currentYear == old(currentYear) + 1
    {
      currentYear := currentYear + 1;
    }

    /** The two alignment buttons: weekday alignment (true) or first-day alignment (false). */
    method SetAlignment(byWeekday: bool)
      modifies this`alignByWeekday
      ensures alignByWeekday == byWeekday
    {
      alignByWeekday := byWeekday;
    }

    /** `openModal`: editing `event` when one is given, adding a new one otherwise. */
    method OpenModal(event: Option<Event>)
      modifies this`editingEventId
      ensures editingEventId == if event.Some? then Some(event.value.id) else None
    {
      if event.Some? {
        editingEventId := Some(event.value.id);
      } else {
        editingEventId := None;
      }
    }

    /** `closeModal`: no event is being edited any more. */
    method CloseModal()
      modifies this`editingEventId
      ensures editingEventId == None
    {
      editingEventId := None;
    }

    /**
     * `saveEvent` with the form's fields: replace the event being edited
     * (kept under its id) or append a new one under `newId`, then close
     * the dialog.
     */
    method SaveEvent(title: string, startDate: string, endDate: string, color: string,
                     description: string, categoryInput: string, newId: string)
      modifies this`events, this`editingEventId
      ensures events == SaveEventInto(old(events), old(editingEventId),
                                      Event(if Truthy(old(editingEventId)) then old(editingEventId).value else newId,
                                            title, startDate, endDate, color, CategoryOrNull(categoryInput), description))
      ensures editingEventId == None
    {
      if Truthy(editingEventId) {
        var eventIndex := EventIndex(events, editingEventId.value);
        if eventIndex != -1 {
          events := events[eventIndex := Event(editingEventId.value, title, startDate, endDate, color,
                                               CategoryOrNull(categoryInput), description)];
        }
      } else {
        var newEvent := Event(newId, title, startDate, endDate, color, CategoryOrNull(categoryInput), description);
        events := events + [newEvent];
      }
      CloseModal();
    }

    /**
     * `deleteEvent`: when an event is being edited and the deletion is
     * confirmed, drop every event with its id and close the dialog;
     * otherwise nothing changes.
     */
    method DeleteEvent(confirmed: bool)
      modifies this`events, this`editingEventId
      ensures Truthy(old(editingEventId)) && confirmed ==>
                events == RemoveEvent(old(events), old(editingEventId).value) && editingEventId == None
      ensures !(Truthy(old(editingEventId)) && confirmed) ==>
                events == old(events) && editingEventId == old(editingEventId)
    {
      if Truthy(editingEventId) && confirmed {
        events := RemoveEvent(events, editingEventId.value);
        CloseModal();
      }
    }

    /** `openCategoryModal`: editing `category` when one is given, adding one otherwise. */
    method OpenCategoryModal(category: Option<Category>)
      modifies this`editingCategoryId
      ensures editingCategoryId == if category.Some? then Some(category.value.id) else None
    {
      if category.Some? {
        editingCategoryId := Some(category.value.id);
      } else {
        editingCategoryId := None;
      }
    }

    /** `closeCategoryModal`: no category is being edited any more. */
    method CloseCategoryModal()
      modifies this`editingCategoryId
      ensures editingCategoryId == None
    {
      editingCategoryId := None;
    }

    /**
     * The `forEach` of `saveCategory` over the events, once category `id`
     * changed colour from `oldColor` to `color`.
     */
    method RecolourEvents(id: string, oldColor: string, color: string)
      modifies this`events
      ensures events == RecolourAll(old(events), id, oldColor, color)
    {
      var i := 0;
      while i < |events|
        invariant 0 <= i <= |events| == |old(events)|
        invariant forall k :: 0 <= k < i ==> events[k] == Recolour(old(events)[k], id, oldColor, color)
        invariant forall k :: i <= k < |events| ==> events[k] == old(events)[k]
      {
        var event := events[i];
        if event.categoryId == Some(id) {
          events := events[i := event.(color := color)];
        } else if event.color == oldColor && !Truthy(event.categoryId) {
          events := events[i := event.(categoryId := Some(id), color := color)];
        }
        i := i + 1;
      }
    }

    /**
     * `saveCategory` with the form's name and colour. A name that trims to
     * nothing is refused and nothing changes. Otherwise the category being
     * edited is replaced, keeping its id, and its colour change is carried to
     * the events; or a new category is appended under `newId`. Then the
     * dialog closes.
     */
    method SaveCategory(nameInput: string, color: string, newId: string)
      modifies this`categories, this`events, this`editingCategoryId
      ensures Trim(nameInput) == [] ==>
                categories == old(categories) && events == old(events) && editingCategoryId == old(editingCategoryId)
      ensures Trim(nameInput) != [] && Truthy(old(editingCategoryId)) ==>
                var id := old(editingCategoryId).value;
                var i := CategoryIndex(old(categories), id);
                if i == -1 then categories == old(categories) && events == old(events)
                else categories == ReplaceCategory(old(categories), i, Category(id, Trim(nameInput), color))
                     && events == RecolourAll(old(events), id, old(categories)[i].color, color)
      ensures Trim(nameInput) != [] && !Truthy(old(editingCategoryId)) ==>
                categories == old(categories) + [Category(newId, Trim(nameInput), color)] && events == old(events)
      ensures Trim(nameInput) != [] ==> editingCategoryId == None
    {
      var name := Trim(nameInput);
      if name == [] {
        return;
      }
      if Truthy(editingCategoryId) {
        EditCategory(editingCategoryId.value, name, color);
      } else {
        var newCategory := Category(newId, name, color);
        categories := categories + [newCategory];
      }
      CloseCategoryModal();
    }

    /**
     * The edit branch of `saveCategory`: the category with id `id`, when
     * there is one, takes the new name and colour, and the events follow it.
     */
    method EditCategory(id: string, name: string, color: string)
      modifies this`categories, this`events
      ensures var i := CategoryIndex(old(categories), id);
              if i == -1 then categories == old(categories) && events == old(events)
              else categories == ReplaceCategory(old(categories), i, Category(id, name, color))
                   && events == RecolourAll(old(events), id, old(categories)[i].color, color)
    {
      var categoryIndex := CategoryIndex(categories, id);
      if categoryIndex != -1 {
        var oldColor := categories[categoryIndex].color;
        categories := categories[categoryIndex := Category(id, name, color)];
        RecolourEvents(id, oldColor, color);
      }
    }

    /**
     * `deleteCategory`: with a category being edited and the dialog's
     * question confirmed, clear the category from the events that use it
     * (their colours stay), drop it from the list and close the dialog.
     * Without a category being edited, or when refused, nothing changes.
     */
    method DeleteCategory(confirmed: bool)
      modifies this`categories, this`events, this`editingCategoryId
      ensures Truthy(old(editingCategoryId)) && confirmed ==>
                && events == ClearCategoryAll(old(events), old(editingCategoryId).value)
                && categories == RemoveCategory(old(categories), old(editingCategoryId).value)
                && editingCategoryId == None
      ensures !(Truthy(old(editingCategoryId)) && confirmed) ==>
                categories == old(categories) && events == old(events) && editingCategoryId == old(editingCategoryId)
    {
      if !Truthy(editingCategoryId) {
        return;
      }
      var id := editingCategoryId.value;
      var usingCategory := CountUsing(events, id);
      if usingCategory > 0 {
        if !confirmed {
          return;
        }
        var i := 0;
        while i < |events|
          invariant 0 <= i <= |events| == |old(events)|
          invariant forall k :: 0 <= k < i ==> events[k] == ClearCategory(old(events)[k], id)
          invariant forall k :: i <= k < |events| ==> events[k] == old(events)[k]
          invariant categories == old(categories) && editingCategoryId == old(editingCategoryId)
        {
          if events[i].categoryId == Some(id) {
            events := events[i := events[i].(categoryId := None)];
          }
          i := i + 1;
        }
      } else {
        if !confirmed {
          return;
        }
        assert events == ClearCategoryAll(events, id);
      }
      categories := RemoveCategory(categories, id);
      CloseCategoryModal();
    }
  }

  /**
   * Migrating, deleting a category and editing one keep category ids
   * unique and every category reference resolved.
   */
  lemma CategoryHandlersKeepRefs(events: seq<Event>, categories: seq<Category>, id: string,
                                 name: string, color: string)
    requires UniqueCategoryIds(categories) && RefsResolve(events, categories)
    ensures RefsResolve(MigrateAll(events, categories), categories)
    ensures UniqueCategoryIds(RemoveCategory(categories, id))
    ensures RefsResolve(ClearCategoryAll(events, id), RemoveCategory(categories, id))
    ensures var i := CategoryIndex(categories, id);
            i != -1 ==>
              && UniqueCategoryIds(ReplaceCategory(categories, i, Category(id, name, color)))
              && RefsResolve(RecolourAll(events, id, categories[i].color, color),
                             ReplaceCategory(categories, i, Category(id, name, color)))
  {
    MigrateKeepsRefs(events, categories);
    RemoveCategoryKeepsUnique(categories, id);
    DeleteCategoryKeepsRefs(events, categories, id);
    var i := CategoryIndex(categories, id);
    if i != -1 {
      EditCategoryKeepsRefs(events, categories, i, name, categories[i].color, color);
      var cats := ReplaceCategory(categories, i, Category(id, name, color));
      forall a, b | 0 <= a < b < |cats| ensures cats[a].id != cats[b].id {
        assert cats[a].id == categories[a].id && cats[b].id == categories[b].id;
      }
    }
  }
}
