/**
 * The list-maintenance rules of the calendar, as functions on the stored
 * lists: lookups by id and by colour (`find`/`findIndex`), the per-event
 * rules applied by the `forEach` loops of `migrateOldEvents`,
 * `saveCategory` and `deleteCategory`, the `filter`s that delete, the
 * `trim` of a category name, and `getEventsByDate`.
 *
 * The class in `Calendar` runs the handlers' loops over its fields and is
 * proved to compute these functions.
 */
module Store {
  import opened Wrappers
  import opened Dates
  import opened Entities
  import Layout
  import Sorting

  // ---------------------------------------------------------------------------
  // Lookups
  // ---------------------------------------------------------------------------

  /** `findIndex`: the index of the first element satisfying `p`, or -1. */
  function FirstIndex<T>(s: seq<T>, p: T -> bool): (i: int)
    ensures -1 <= i < |s|
    ensures i >= 0 ==> p(s[i]) && forall k :: 0 <= k < i ==> !p(s[k])
    ensures i == -1 <==> forall k :: 0 <= k < |s| ==> !p(s[k])
  {
    if s == [] then -1
    else if p(s[0]) then 0
    else
      var j := FirstIndex(s[1..], p);
      if j == -1 then -1 else j + 1
  }

  /** `findIndex(e => e.id === id)` over the events. */
  function EventIndex(events: seq<Event>, id: string): (i: int)
    ensures -1 <= i < |events|
    ensures i >= 0 ==> events[i].id == id && forall k :: 0 <= k < i ==> events[k].id != id
    ensures i == -1 <==> forall k :: 0 <= k < |events| ==> events[k].id != id
  {
    FirstIndex(events, (e: Event) => e.id == id)
  }

  /** `findIndex(c => c.id === id)` over the categories. */
  function CategoryIndex(categories: seq<Category>, id: string): (i: int)
    ensures -1 <= i < |categories|
    ensures i >= 0 ==> categories[i].id == id && forall k :: 0 <= k < i ==> categories[k].id != id
    ensures i == -1 <==> forall k :: 0 <= k < |categories| ==> categories[k].id != id
  {
    FirstIndex(categories, (c: Category) => c.id == id)
  }

  /** `getCategoryById`: the first category with id `id`, if any. */
  function CategoryById(categories: seq<Category>, id: string): (r: Option<Category>)
    ensures r.None? <==> forall k :: 0 <= k < |categories| ==> categories[k].id != id
    ensures r.Some? ==> exists i :: 0 <= i < |categories| && categories[i] == r.value && r.value.id == id
                          && forall k :: 0 <= k < i ==> categories[k].id != id
  {
    var i := CategoryIndex(categories, id);
    if i == -1 then None else Some(categories[i])
  }

  /** `getCategoryByColor`: the first category with colour `color`, if any. */
  function CategoryByColor(categories: seq<Category>, color: string): (r: Option<Category>)
    ensures r.None? <==> forall k :: 0 <= k < |categories| ==> categories[k].color != color
    ensures r.Some? ==> exists i :: 0 <= i < |categories| && categories[i] == r.value && r.value.color == color
                          && forall k :: 0 <= k < i ==> categories[k].color != color
  {
    var i := FirstIndex(categories, (c: Category) => c.color == color);
    if i == -1 then None else Some(categories[i])
  }

  // ---------------------------------------------------------------------------
  // Migrating uncategorised events (`migrateOldEvents`)
  // ---------------------------------------------------------------------------

  /** The event has no category, has a colour, and some category has that colour. */
  predicate Migrates(e: Event, categories: seq<Category>) {
    !Truthy(e.categoryId) && e.color != "" && CategoryByColor(categories, e.color).Some?
  }

  /**
   * One event after migration: an uncategorised event whose colour is a
   * category's colour joins the first such category; every other event,
   * and every other field, is left as it was.
   */
  function Migrate(e: Event, categories: seq<Category>): (e': Event)
    ensures e' == e.(categoryId := e'.categoryId)
    ensures Migrates(e, categories) ==>
              exists i :: 0 <= i < |categories| && categories[i].color == e.color
                && e'.categoryId == Some(categories[i].id)
                && forall k :: 0 <= k < i ==> categories[k].color != e.color
    ensures !Migrates(e, categories) ==> e' == e
  {
    if Migrates(e, categories) then e.(categoryId := Some(CategoryByColor(categories, e.color).value.id))
    else e
  }

  function MigrateAll(events: seq<Event>, categories: seq<Category>): (r: seq<Event>)
    ensures |r| == |events|
    ensures forall k :: 0 <= k < |events| ==> r[k] == Migrate(events[k], categories)
  {
    seq(|events|, k requires 0 <= k < |events| => Migrate(events[k], categories))
  }

  /** Migrating twice changes nothing more than migrating once. */
  lemma MigrateIdempotent(e: Event, categories: seq<Category>)
    ensures Migrate(Migrate(e, categories), categories) == Migrate(e, categories)
  {
  }

  // ---------------------------------------------------------------------------
  // Editing a category (`saveCategory`)
  // ---------------------------------------------------------------------------

  /**
   * One event after category `id` was recoloured from `oldColor` to `color`:
   * its members take the new colour, and uncategorised events of the old
   * colour join the category with the new colour.
   */
  function Recolour(e: Event, id: string, oldColor: string, color: string): (e': Event)
    ensures e'.id == e.id && e'.title == e.title && e'.description == e.description
    ensures e'.startDate == e.startDate && e'.endDate == e.endDate
    ensures e.categoryId == Some(id) ==> e'.categoryId == e.categoryId && e'.color == color
    ensures e.categoryId != Some(id) && e.color == oldColor && !Truthy(e.categoryId) ==>
              e'.categoryId == Some(id) && e'.color == color
    ensures e.categoryId != Some(id) && (e.color != oldColor || Truthy(e.categoryId)) ==> e' == e
  {
    if e.categoryId == Some(id) then e.(color := color)
    else if e.color == oldColor && !Truthy(e.categoryId) then e.(categoryId := Some(id), color := color)
    else e
  }

  function RecolourAll(events: seq<Event>, id: string, oldColor: string, color: string): (r: seq<Event>)
    ensures |r| == |events|
    ensures forall k :: 0 <= k < |events| ==> r[k] == Recolour(events[k], id, oldColor, color)
  {
    seq(|events|, k requires 0 <= k < |events| => Recolour(events[k], id, oldColor, color))
  }

  /**
   * After the edit every event of the category has its colour, no event
   * of another category changed, and no uncategorised event keeps the old
   * colour unless the old and new colours are equal.
   */
  lemma RecolourAllConsistent(events: seq<Event>, id: string, oldColor: string, color: string)
    ensures var r := RecolourAll(events, id, oldColor, color);
            && (forall k :: 0 <= k < |r| && r[k].categoryId == Some(id) ==> r[k].color == color)
            && (forall k :: 0 <= k < |r| && Truthy(events[k].categoryId) && events[k].categoryId != Some(id) ==>
                  r[k] == events[k])
            && (forall k :: 0 <= k < |r| && !Truthy(r[k].categoryId) ==> r[k].color != oldColor || color == oldColor)
  {
  }

  /** Repeating the same edit changes nothing more. */
  lemma RecolourIdempotent(e: Event, id: string, oldColor: string, color: string)
    ensures Recolour(Recolour(e, id, oldColor, color), id, oldColor, color) == Recolour(e, id, oldColor, color)
  {
  }

  /** The category list after category `i` was replaced by `(id, name, color)`. */
  function ReplaceCategory(categories: seq<Category>, i: int, c: Category): (r: seq<Category>)
    requires 0 <= i < |categories|
    ensures |r| == |categories| && r[i] == c
    ensures forall k :: 0 <= k < |r| && k != i ==> r[k] == categories[k]
  {
    categories[i := c]
  }

  // ---------------------------------------------------------------------------
  // Deleting a category (`deleteCategory`) and an event (`deleteEvent`)
  // ---------------------------------------------------------------------------

  /** One event after category `id` was deleted: it loses the reference, keeps its colour. */
  function ClearCategory(e: Event, id: string): (e': Event)
    ensures e' == e.(categoryId := e'.categoryId)
    ensures e.categoryId == Some(id) ==> e'.categoryId == None
    ensures e.categoryId != Some(id) ==> e' == e
  {
    if e.categoryId == Some(id) then e.(categoryId := None) else e
  }

  function ClearCategoryAll(events: seq<Event>, id: string): (r: seq<Event>)
    ensures |r| == |events|
    ensures forall k :: 0 <= k < |events| ==> r[k] == ClearCategory(events[k], id)
  {
    seq(|events|, k requires 0 <= k < |events| => ClearCategory(events[k], id))
  }

  /** No event refers to the deleted category any more, and every colour is kept. */
  lemma ClearCategoryAllForgets(events: seq<Event>, id: string)
    ensures var r := ClearCategoryAll(events, id);
            && (forall k :: 0 <= k < |r| ==> r[k].categoryId != Some(id))
            && (forall k :: 0 <= k < |r| ==> r[k].color == events[k].color)
  {
  }

  /** `eventsUsingCategory.length`: how many events refer to category `id`. */
  function CountUsing(events: seq<Event>, id: string): (n: nat)
    ensures n <= |events|
    ensures n == 0 <==> forall k :: 0 <= k < |events| ==> events[k].categoryId != Some(id)
  {
    if events == [] then 0
    else (if events[0].categoryId == Some(id) then 1 else 0) + CountUsing(events[1..], id)
  }

  /** `categories.filter(c => c.id !== id)`. */
  function RemoveCategory(categories: seq<Category>, id: string): (r: seq<Category>)
    ensures |r| <= |categories|
    ensures forall c :: c in r <==> c in categories && c.id != id
  {
    if categories == [] then []
    else
      var rest := RemoveCategory(categories[1..], id);
      if categories[0].id != id then [categories[0]] + rest else rest
  }

  /** `events.filter(e => e.id !== id)`. */
  function RemoveEvent(events: seq<Event>, id: string): (r: seq<Event>)
    ensures |r| <= |events|
    ensures forall e :: e in r <==> e in events && e.id != id
  {
    if events == [] then []
    else
      var rest := RemoveEvent(events[1..], id);
      if events[0].id != id then [events[0]] + rest else rest
  }

  /**
   * Deleting works element by element and keeps the order: on a
   * concatenation it deletes from each part.
   */
  lemma {:induction false} RemoveCategoryAppend(a: seq<Category>, b: seq<Category>, id: string)
    ensures RemoveCategory(a + b, id) == RemoveCategory(a, id) + RemoveCategory(b, id)
    decreases |a|
  {
    if a == [] {
      assert a + b == b;
    } else {
      assert (a + b)[0] == a[0] && (a + b)[1..] == a[1..] + b;
      RemoveCategoryAppend(a[1..], b, id);
    }
  }

  /** A single category stays exactly when its id differs. */
  lemma RemoveCategoryOne(c: Category, id: string)
    ensures RemoveCategory([c], id) == if c.id != id then [c] else []
  {
    assert [c][1..] == [];
  }


  /**
   * Deleting works element by element and keeps the order: on a
   * concatenation it deletes from each part.
   */
  lemma {:induction false} RemoveEventAppend(a: seq<Event>, b: seq<Event>, id: string)
    ensures RemoveEvent(a + b, id) == RemoveEvent(a, id) + RemoveEvent(b, id)
    decreases |a|
  {
    if a == [] {
      assert a + b == b;
    } else {
      assert (a + b)[0] == a[0] && (a + b)[1..] == a[1..] + b;
      RemoveEventAppend(a[1..], b, id);
    }
  }

  /** A single event stays exactly when its id differs. */
  lemma RemoveEventOne(e: Event, id: string)
    ensures RemoveEvent([e], id) == if e.id != id then [e] else []
  {
    assert [e][1..] == [];
  }


  /** Deleting an id no event has leaves the list as it was, order included. */
  lemma {:induction false} RemoveAbsentEvent(events: seq<Event>, id: string)
    ensures (forall k :: 0 <= k < |events| ==> events[k].id != id) ==> RemoveEvent(events, id) == events
    decreases |events|
  {
    if events != [] {
      RemoveAbsentEvent(events[1..], id);
      if forall k :: 0 <= k < |events| ==> events[k].id != id {
        assert forall k :: 0 <= k < |events[1..]| ==> events[1..][k].id != id by {
          forall k | 0 <= k < |events[1..]| ensures events[1..][k].id != id {
            assert events[1..][k] == events[k + 1];
          }
        }
        assert events == [events[0]] + events[1..];
      }
    }
  }

  // ---------------------------------------------------------------------------
  // Saving an event (`saveEvent`)
  // ---------------------------------------------------------------------------

  /** `categoryId || null`: the form's category field, with "" read as no category. */
  function CategoryOrNull(input: string): (r: Option<string>)
    ensures r.None? <==> input == ""
    ensures r.Some? ==> r.value == input && Truthy(r)
  {
    if input == "" then None else Some(input)
  }

  /**
   * The event list after the form was saved as `e`: while editing an
   * event, the first event with that id is replaced (nothing happens when
   * it is gone); otherwise `e` is appended.
   */
  function SaveEventInto(events: seq<Event>, editingId: Option<string>, e: Event): (r: seq<Event>)
    ensures !Truthy(editingId) ==> r == events + [e]
    ensures Truthy(editingId) ==> |r| == |events|
    ensures Truthy(editingId) ==>
              forall k :: 0 <= k < |r| ==> r[k] == if k == EventIndex(events, editingId.value) then e else events[k]
  {
    if Truthy(editingId) then
      var i := EventIndex(events, editingId.value);
      if i == -1 then events else events[i := e]
    else events + [e]
  }

  /** No two entries share an id. */
  ghost predicate UniqueIds(events: seq<Event>) {
    forall i, j :: 0 <= i < j < |events| ==> events[i].id != events[j].id
  }

  ghost predicate UniqueCategoryIds(categories: seq<Category>) {
    forall i, j :: 0 <= i < j < |categories| ==> categories[i].id != categories[j].id
  }

  /**
   * Saving keeps ids unique when an added event's id is new and an edited
   * event keeps the id being edited, as `saveEvent` does.
   */
  lemma SaveEventKeepsIdsUnique(events: seq<Event>, editingId: Option<string>, e: Event)
    requires UniqueIds(events)
    requires Truthy(editingId) ==> e.id == editingId.value
    requires !Truthy(editingId) ==> forall k :: 0 <= k < |events| ==> events[k].id != e.id
    ensures UniqueIds(SaveEventInto(events, editingId, e))
  {
    var r := SaveEventInto(events, editingId, e);
    if Truthy(editingId) {
      var i := EventIndex(events, editingId.value);
      forall a, b | 0 <= a < b < |r| ensures r[a].id != r[b].id {
        if a == i {
          assert r[b] == events[b];
        } else if b == i {
          assert r[a] == events[a];
        } else {
          assert r[a] == events[a] && r[b] == events[b];
        }
      }
    }
  }

  /** Deleting an event just added with a new id gives back the list before the add. */
  lemma AddThenDeleteEvent(events: seq<Event>, e: Event)
    requires forall k :: 0 <= k < |events| ==> events[k].id != e.id
    ensures RemoveEvent(SaveEventInto(events, None, e), e.id) == events
  {
    AddThenRemove(events, e);
  }

  lemma {:induction false} AddThenRemove(events: seq<Event>, e: Event)
    requires forall k :: 0 <= k < |events| ==> events[k].id != e.id
    ensures RemoveEvent(events + [e], e.id) == events
    decreases |events|
  {
    if events == [] {
      assert RemoveEvent([e][1..], e.id) == [];
    } else {
      assert (events + [e])[1..] == events[1..] + [e];
      forall k | 0 <= k < |events[1..]| ensures events[1..][k].id != e.id {
        assert events[1..][k] == events[k + 1];
      }
      AddThenRemove(events[1..], e);
      assert events == [events[0]] + events[1..];
    }
  }

  // ---------------------------------------------------------------------------
  // Category references
  // ---------------------------------------------------------------------------

  /** Every event that names a category names one that exists. */
  ghost predicate RefsResolve(events: seq<Event>, categories: seq<Category>) {
    forall k :: 0 <= k < |events| && Truthy(events[k].categoryId) ==>
      exists c :: c in categories && c.id == events[k].categoryId.value
  }

  /** Migration only assigns ids of existing categories. */
  lemma MigrateKeepsRefs(events: seq<Event>, categories: seq<Category>)
    requires RefsResolve(events, categories)
    ensures RefsResolve(MigrateAll(events, categories), categories)
  {
    var r := MigrateAll(events, categories);
    forall k | 0 <= k < |r| && Truthy(r[k].categoryId)
      ensures exists c :: c in categories && c.id == r[k].categoryId.value
    {
      if Migrates(events[k], categories) {
        var i :| 0 <= i < |categories| && r[k].categoryId == Some(categories[i].id);
        assert categories[i] in categories;
      } else {
        assert r[k] == events[k];
      }
    }
  }

  /** Editing category `i` (id kept) and recolouring the events keeps every reference resolved. */
  lemma EditCategoryKeepsRefs(events: seq<Event>, categories: seq<Category>, i: int,
                              name: string, oldColor: string, color: string)
    requires 0 <= i < |categories| && RefsResolve(events, categories)
    ensures var id := categories[i].id;
            RefsResolve(RecolourAll(events, id, oldColor, color), ReplaceCategory(categories, i, Category(id, name, color)))
  {
    var id := categories[i].id;
    var cats := ReplaceCategory(categories, i, Category(id, name, color));
    var r := RecolourAll(events, id, oldColor, color);
    assert cats[i] in cats;
    forall k | 0 <= k < |r| && Truthy(r[k].categoryId)
      ensures exists c :: c in cats && c.id == r[k].categoryId.value
    {
      if r[k].categoryId != Some(id) {
        assert r[k].categoryId == events[k].categoryId;
        var c :| c in categories && c.id == events[k].categoryId.value;
        var j :| 0 <= j < |categories| && categories[j] == c;
        assert cats[j].id == c.id && cats[j] in cats;
      }
    }
  }

  /** Deleting a category and clearing its references keeps every reference resolved. */
  lemma DeleteCategoryKeepsRefs(events: seq<Event>, categories: seq<Category>, id: string)
    requires RefsResolve(events, categories)
    ensures RefsResolve(ClearCategoryAll(events, id), RemoveCategory(categories, id))
  {
    var r := ClearCategoryAll(events, id);
    var cats := RemoveCategory(categories, id);
    forall k | 0 <= k < |r| && Truthy(r[k].categoryId)
      ensures exists c :: c in cats && c.id == r[k].categoryId.value
    {
      var c :| c in categories && c.id == events[k].categoryId.value;
      assert c in cats;
    }
  }

  /** Adding a category with a new id keeps ids unique and references resolved. */
  lemma AddCategoryKeeps(events: seq<Event>, categories: seq<Category>, c: Category)
    requires UniqueCategoryIds(categories) && RefsResolve(events, categories)
    requires forall k :: 0 <= k < |categories| ==> categories[k].id != c.id
    ensures UniqueCategoryIds(categories + [c]) && RefsResolve(events, categories + [c])
  {
    forall k | 0 <= k < |events| && Truthy(events[k].categoryId)
      ensures exists d :: d in categories + [c] && d.id == events[k].categoryId.value
    {
      var d :| d in categories && d.id == events[k].categoryId.value;
      assert d in categories + [c];
    }
  }

  /** Deleting a category leaves no category with its id, and keeps ids unique. */
  lemma {:induction false} RemoveCategoryKeepsUnique(categories: seq<Category>, id: string)
    requires UniqueCategoryIds(categories)
    ensures UniqueCategoryIds(RemoveCategory(categories, id))
    decreases |categories|
  {
    if categories != [] {
      var rest := RemoveCategory(categories[1..], id);
      assert UniqueCategoryIds(categories[1..]) by {
        forall a, b | 0 <= a < b < |categories[1..]|
          ensures categories[1..][a].id != categories[1..][b].id
        {
          assert categories[1..][a] == categories[a + 1] && categories[1..][b] == categories[b + 1];
        }
      }
      RemoveCategoryKeepsUnique(categories[1..], id);
      if categories[0].id != id {
        var r := [categories[0]] + rest;
        forall a, b | 0 <= a < b < |r| ensures r[a].id != r[b].id {
          if a == 0 {
            assert r[b] in rest;
            var j :| 0 <= j < |categories[1..]| && categories[1..][j] == r[b];
            assert categories[j + 1] == r[b];
          } else {
            assert r[a] == rest[a - 1] && r[b] == rest[b - 1];
          }
        }
      }
    }
  }

  // ---------------------------------------------------------------------------
  // The category name (`value.trim()`)
  // ---------------------------------------------------------------------------

  /** The white space and line terminators `String.prototype.trim` removes. */
  predicate IsSpace(c: char) {
    c == '\t' || c == '\n' || c == '\U{000B}' || c == '\U{000C}' || c == '\r' || c == ' '
    || c == '\U{00A0}' || c == '\U{1680}' || ('\U{2000}' <= c <= '\U{200A}')
    || c == '\U{2028}' || c == '\U{2029}' || c == '\U{202F}' || c == '\U{205F}'
    || c == '\U{3000}' || c == '\U{FEFF}'
  }

  /** `s` without its leading white space. */
  function TrimStart(s: string): (r: string)
    ensures |r| <= |s| && r == s[|s| - |r|..]
    ensures r == [] || !IsSpace(r[0])
    ensures forall k :: 0 <= k < |s| - |r| ==> IsSpace(s[k])
  {
    if s != [] && IsSpace(s[0]) then TrimStart(s[1..]) else s
  }

  /** `s` without its trailing white space. */
  function TrimEnd(s: string): (r: string)
    ensures |r| <= |s| && r == s[..|r|]
    ensures r == [] || !IsSpace(r[|r| - 1])
    ensures forall k :: |r| <= k < |s| ==> IsSpace(s[k])
  {
    if s != [] && IsSpace(s[|s| - 1]) then TrimEnd(s[..|s| - 1]) else s
  }

  /** `s.trim()`: neither end of the result is white space. */
  function Trim(s: string): (r: string)
    ensures |r| <= |s|
    ensures r == [] || (!IsSpace(r[0]) && !IsSpace(r[|r| - 1]))
  {
    assert TrimEnd(TrimStart(s)) != [] ==> TrimEnd(TrimStart(s))[0] == TrimStart(s)[0];
    TrimEnd(TrimStart(s))
  }

  /**
   * The trimmed name is the contiguous part of the input after its leading
   * white space; it neither starts nor ends with white space, and only
   * white space was removed around it.
   */
  lemma TrimIsCore(s: string)
    ensures var t, i := Trim(s), |s| - |TrimStart(s)|;
            && (t == [] || (!IsSpace(t[0]) && !IsSpace(t[|t| - 1])))
            && 0 <= i <= |s| - |t| && s[i..i + |t|] == t
            && (forall k :: 0 <= k < i ==> IsSpace(s[k]))
            && (forall k :: i + |t| <= k < |s| ==> IsSpace(s[k]))
  {
    TrimIsSlice(s);
  }

  /**
   * Helper: a prefix `t` of the suffix `u` of `s` from `i` on, followed in
   * `u` by white space only, is a slice of `s` followed by white space only.
   */
  lemma PrefixOfSuffix(s: string, u: string, t: string, i: int)
    requires 0 <= i <= |s| && u == s[i..] && |t| <= |u| && t == u[..|t|]
    requires forall k :: |t| <= k < |u| ==> IsSpace(u[k])
    ensures i + |t| <= |s| && s[i..i + |t|] == t
    ensures forall k :: i + |t| <= k < |s| ==> IsSpace(s[k])
  {
    assert s[i..i + |t|] == s[i..][..|t|];
    forall k | i + |t| <= k < |s| ensures IsSpace(s[k]) {
      assert s[k] == u[k - i];
    }
  }

  /** Helper: the trimmed name sits in the input with white space only around it. */
  lemma TrimIsSlice(s: string)
    ensures var t, i := Trim(s), |s| - |TrimStart(s)|;
            && 0 <= i <= |s| - |t| && s[i..i + |t|] == t
            && (forall k :: i + |t| <= k < |s| ==> IsSpace(s[k]))
  {
    var u := TrimStart(s);
    var i := |s| - |u|;
    assert u == s[i..];
    var t := TrimEnd(u);
    assert t == Trim(s);
    assert |t| <= |u| && t == u[..|t|];
    PrefixOfSuffix(s, u, t, i);
  }

  /** A name of white space only trims to the empty name, which `saveCategory` refuses. */
  lemma TrimEmptyIffBlank(s: string)
    ensures Trim(s) == [] <==> forall k :: 0 <= k < |s| ==> IsSpace(s[k])
  {
    var u := TrimStart(s);
    if u != [] {
      assert !IsSpace(u[0]);
      assert TrimEnd(u) != [];
      assert s[|s| - |u|] == u[0];
    }
  }

  lemma TrimIdempotent(s: string)
    ensures Trim(Trim(s)) == Trim(s)
  {
    TrimIsCore(s);
  }

  // ---------------------------------------------------------------------------
  // The events on a day (`getEventsByDate`)
  // ---------------------------------------------------------------------------

  /** The events whose dates parse and whose range covers day `d`, in stored order. */
  function CoveringSpans(events: seq<Event>, d: Date): (r: seq<Layout.Span>)
    ensures |r| <= |events|
    ensures forall s :: s in r <==>
              s.event in events && Layout.ParseSpan(s.event) == Some(s) && NotAfter(s.start, d) && NotAfter(d, s.end)
  {
    if events == [] then []
    else
      var rest := CoveringSpans(events[1..], d);
      match Layout.ParseSpan(events[0])
      case Some(s) => if NotAfter(s.start, d) && NotAfter(d, s.end) then [s] + rest else rest
      case None => rest
  }

  /**
   * The covering spans of a concatenation are those of each part, in order.
   */
  lemma {:induction false} CoveringSpansAppend(a: seq<Event>, b: seq<Event>, d: Date)
    ensures CoveringSpans(a + b, d) == CoveringSpans(a, d) + CoveringSpans(b, d)
    decreases |a|
  {
    if a == [] {
      assert a + b == b;
    } else {
      assert (a + b)[0] == a[0] && (a + b)[1..] == a[1..] + b;
      CoveringSpansAppend(a[1..], b, d);
    }
  }

  /** A single event gives its span exactly when both dates parse and it covers `d`. */
  lemma CoveringSpansOne(e: Event, d: Date)
    ensures CoveringSpans([e], d) ==
              if Layout.ParseSpan(e).Some? && NotAfter(Layout.ParseSpan(e).value.start, d)
                 && NotAfter(d, Layout.ParseSpan(e).value.end)
              then [Layout.ParseSpan(e).value] else []
  {
    assert [e][1..] == [];
  }

  /** The comparator `parseLocalDate(a.startDate) - parseLocalDate(b.startDate)`. */
  predicate StartsBefore(a: Layout.Span, b: Layout.Span) {
    Before(a.start, b.start)
  }

  function EventsOf(spans: seq<Layout.Span>): (r: seq<Event>)
    ensures |r| == |spans| && forall k :: 0 <= k < |spans| ==> r[k] == spans[k].event
  {
    seq(|spans|, k requires 0 <= k < |spans| => spans[k].event)
  }

  /**
   * `getEventsByDate(year, month, day)`: the events covering the day
   * `new Date(year, month, day)`, sorted by start. The constructor reads a
   * year from 0 to 99 as 1900 to 1999, so the day compared is
   * `Date(FullYear(year), month, day)`.
   */
  function EventsOnDate(events: seq<Event>, year: int, month: int, day: int): (r: seq<Event>)
    ensures |r| <= |events|
  {
    EventsOf(Sorting.Sort(CoveringSpans(events, Date(FullYear(year), month, day)), StartsBefore))
  }

  /** A two-digit year asks for the same day as the year 1900 later. */
  lemma EventsOnDateTwoDigitYear(events: seq<Event>, year: int, month: int, day: int)
    requires 0 <= year <= 99
    ensures EventsOnDate(events, year, month, day) == EventsOnDate(events, 1900 + year, month, day)
  {
  }

  /** An event is listed exactly when both its dates parse and the day asked for lies between them. */
  lemma EventsOnDateMembers(events: seq<Event>, year: int, month: int, day: int)
    ensures var d := Date(FullYear(year), month, day);
            forall e :: e in EventsOnDate(events, year, month, day) <==>
              e in events && Layout.ParseSpan(e).Some?
              && NotAfter(Layout.ParseSpan(e).value.start, d) && NotAfter(d, Layout.ParseSpan(e).value.end)
  {
    var d := Date(FullYear(year), month, day);
    var cs := CoveringSpans(events, d);
    var sorted := Sorting.Sort(cs, StartsBefore);
    var r := EventsOf(sorted);
    assert r == EventsOnDate(events, year, month, day);
    Sorting.SortSameElements(cs, StartsBefore);
    forall e | e in r ensures e in events && Layout.ParseSpan(e).Some?
                  && NotAfter(Layout.ParseSpan(e).value.start, d) && NotAfter(d, Layout.ParseSpan(e).value.end)
    {
      var k :| 0 <= k < |r| && r[k] == e;
      assert sorted[k] in cs;
    }
    forall e | e in events && Layout.ParseSpan(e).Some?
                  && NotAfter(Layout.ParseSpan(e).value.start, d) && NotAfter(d, Layout.ParseSpan(e).value.end)
      ensures e in r
    {
      var s := Layout.ParseSpan(e).value;
      assert s in sorted;
      var k :| 0 <= k < |sorted| && sorted[k] == s;
      assert r[k] == e;
    }
  }

  /** Every event of `r` has dates that parse, and no event starts after a later one. */
  ghost predicate OrderedByStart(r: seq<Event>) {
    forall i, j :: 0 <= i < j < |r| ==>
      Layout.ParseSpan(r[i]).Some? && Layout.ParseSpan(r[j]).Some? &&
      NotAfter(Layout.ParseSpan(r[i]).value.start, Layout.ParseSpan(r[j]).value.start)
  }

  /** The events listed for a day are in order of their start dates. */
  lemma EventsOnDateSorted(events: seq<Event>, year: int, month: int, day: int)
    ensures OrderedByStart(EventsOnDate(events, year, month, day))
  {
    CoveringSortedByStart(events, Date(FullYear(year), month, day), EventsOnDate(events, year, month, day));
  }

  /** Helper for `EventsOnDateSorted`, for the day already built. */
  lemma CoveringSortedByStart(events: seq<Event>, d: Date, r: seq<Event>)
    requires r == EventsOf(Sorting.Sort(CoveringSpans(events, d), StartsBefore))
    ensures OrderedByStart(r)
  {
    var cs := CoveringSpans(events, d);
    var sorted := Sorting.Sort(cs, StartsBefore);
    assert Sorting.Sorted(sorted, StartsBefore) by {
      Layout.BeforeIsStrictOrder();
      assert Sorting.StrictWeakOrder(StartsBefore);
      Sorting.SortSorted(cs, StartsBefore);
    }
    assert forall k :: 0 <= k < |sorted| ==> Layout.ParseSpan(r[k]) == Some(sorted[k]) by {
      Sorting.SortSameElements(cs, StartsBefore);
      forall k | 0 <= k < |sorted| ensures Layout.ParseSpan(r[k]) == Some(sorted[k]) {
        assert sorted[k] in cs;
      }
    }
    forall i, j | 0 <= i < j < |r|
      ensures Layout.ParseSpan(r[i]).Some? && Layout.ParseSpan(r[j]).Some?
      ensures NotAfter(Layout.ParseSpan(r[i]).value.start, Layout.ParseSpan(r[j]).value.start)
    {
      assert !StartsBefore(sorted[j], sorted[i]);
    }
  }

  /**
   * The sort is stable: the events covering the day asked for that start on
   * the same day as `x` are listed in their stored order.
   */
  lemma EventsOnDateStable(events: seq<Event>, year: int, month: int, day: int, x: Layout.Span)
    ensures var cs := CoveringSpans(events, Date(FullYear(year), month, day));
            Sorting.Ties(Sorting.Sort(cs, StartsBefore), x, StartsBefore) == Sorting.Ties(cs, x, StartsBefore)
  {
    Layout.BeforeIsStrictOrder();
    assert Sorting.StrictWeakOrder(StartsBefore);
    Sorting.SortStable(CoveringSpans(events, Date(FullYear(year), month, day)), x, StartsBefore);
  }
}
