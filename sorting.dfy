/**
 * A stable sort by a comparator, as `Array.prototype.sort` is.
 *
 * The comparator is given as a strict "comes before" relation `lt`; the
 * comparators of `renderMonthEvents` and `getEventsByDate` (a difference
 * of time values) are such relations.
 * Insertion sort is used because, like the library sort, it keeps elements
 * that compare equal in their input order.
 */
module Sorting {

  /**
   * `lt` orders elements by a key: it is asymmetric, and "not before" is
   * transitive. Every comparator of the form "key(a) < key(b)" is one.
   */
  ghost predicate StrictWeakOrder<T(!new)>(lt: (T, T) -> bool) {
    && (forall a, b :: lt(a, b) ==> !lt(b, a))
    && (forall a, b, c :: !lt(a, b) && !lt(b, c) ==> !lt(a, c))
  }

  /** No element comes strictly before an element to its left. */
  ghost predicate Sorted<T>(s: seq<T>, lt: (T, T) -> bool) {
    forall i, j :: 0 <= i < j < |s| ==> !lt(s[j], s[i])
  }

  /** Places `x` in front of the first element of `s` that does not come before it. */
  function Insert<T>(x: T, s: seq<T>, lt: (T, T) -> bool): (r: seq<T>)
    ensures multiset(r) == multiset(s) + multiset{x}
    ensures |r| == |s| + 1
  {
    if s == [] || !lt(s[0], x) then [x] + s
    else
      assert s == [s[0]] + s[1..];
      [s[0]] + Insert(x, s[1..], lt)
  }

  /** The elements of `s`, sorted by `lt`; elements that tie keep their order. */
  function Sort<T>(s: seq<T>, lt: (T, T) -> bool): (r: seq<T>)
    ensures multiset(r) == multiset(s)
    ensures |r| == |s|
  {
    if s == [] then []
    else
      assert s == [s[0]] + s[1..];
      Insert(s[0], Sort(s[1..], lt), lt)
  }

  /** The sorted list holds the same elements as the input. */
  lemma SortSameElements<T>(s: seq<T>, lt: (T, T) -> bool)
    ensures forall x :: x in Sort(s, lt) <==> x in s
  {
    var r := Sort(s, lt);
    forall x ensures x in r <==> x in s {
      assert x in r <==> x in multiset(r);
      assert x in s <==> x in multiset(s);
    }
  }

  lemma {:induction false} InsertSorted<T(!new)>(x: T, s: seq<T>, lt: (T, T) -> bool)
    requires StrictWeakOrder(lt) && Sorted(s, lt)
    ensures Sorted(Insert(x, s, lt), lt)
  {
    if s == [] || !lt(s[0], x) {
      var r := [x] + s;
      forall i, j | 0 <= i < j < |r| ensures !lt(r[j], r[i]) {
        if i == 0 && j > 1 {
          assert !lt(s[j - 1], s[0]);
        }
      }
    } else {
      var t := Insert(x, s[1..], lt);
      InsertSorted(x, s[1..], lt);
      var r := [s[0]] + t;
      assert r == Insert(x, s, lt);
      forall i, j | 0 <= i < j < |r| ensures !lt(r[j], r[i]) {
        if i == 0 {
          // r[j] is either x, which s[0] comes before, or an element of s[1..]
          assert r[j] in multiset(s[1..]) + multiset{x} by {
            assert r[j] in multiset(t);
          }
          if r[j] != x {
            var k :| 0 <= k < |s[1..]| && s[1..][k] == r[j];
            assert !lt(s[k + 1], s[0]);
          }
        }
      }
    }
  }

  lemma {:induction false} SortSorted<T(!new)>(s: seq<T>, lt: (T, T) -> bool)
    requires StrictWeakOrder(lt)
    ensures Sorted(Sort(s, lt), lt)
  {
    if s != [] {
      SortSorted(s[1..], lt);
      InsertSorted(s[0], Sort(s[1..], lt), lt);
    }
  }

  /** The elements of `s` that tie with `x` (neither comes before the other), in order. */
  function Ties<T(!new)>(s: seq<T>, x: T, lt: (T, T) -> bool): (r: seq<T>)
    ensures |r| <= |s|
    ensures forall y :: y in r <==> y in s && !lt(y, x) && !lt(x, y)
  {
    if s == [] then []
    else (if !lt(s[0], x) && !lt(x, s[0]) then [s[0]] else []) + Ties(s[1..], x, lt)
  }

  lemma {:induction false} TiesAppend<T(!new)>(a: seq<T>, b: seq<T>, x: T, lt: (T, T) -> bool)
    ensures Ties(a + b, x, lt) == Ties(a, x, lt) + Ties(b, x, lt)
    decreases |a|
  {
    if a == [] {
      assert a + b == b;
    } else {
      assert (a + b)[0] == a[0] && (a + b)[1..] == a[1..] + b;
      TiesAppend(a[1..], b, x, lt);
    }
  }

  lemma TiesOne<T(!new)>(y: T, x: T, lt: (T, T) -> bool)
    ensures Ties([y], x, lt) == if !lt(y, x) && !lt(x, y) then [y] else []
  {
    assert [y][1..] == [];
  }

  /**
   * Inserting `y` adds it to the elements tying with `x` in front of those
   * already there: everything before the insertion point comes strictly
   * before `y`, so it cannot tie with anything `y` ties with.
   */
  lemma {:induction false} InsertTies<T(!new)>(y: T, t: seq<T>, x: T, lt: (T, T) -> bool)
    requires StrictWeakOrder(lt)
    ensures Ties(Insert(y, t, lt), x, lt) == Ties([y], x, lt) + Ties(t, x, lt)
    decreases |t|
  {
    if t == [] || !lt(t[0], y) {
      TiesAppend([y], t, x, lt);
    } else {
      var first, rest := t[0], t[1..];
      assert t == [first] + rest;
      var inserted := Insert(y, rest, lt);
      assert Insert(y, t, lt) == [first] + inserted;
      InsertTies(y, rest, x, lt);
      TiesAppend([first], inserted, x, lt);
      TiesAppend([first], rest, x, lt);
      TiesOne(first, x, lt);
      TiesOne(y, x, lt);
      var ty, tf, tr := Ties([y], x, lt), Ties([first], x, lt), Ties(rest, x, lt);
      if !lt(y, x) && !lt(x, y) {
        // `first` comes before `y`, which ties with `x`, so `first` does not tie with `x`
        assert lt(first, x) || lt(x, first);
        assert tf == [];
        calc {
          Ties(Insert(y, t, lt), x, lt);
          tf + (ty + tr);
          { assert tf + (ty + tr) == ty + tr; }
          ty + tr;
          { assert tf + tr == tr; }
          ty + (tf + tr);
        }
      } else {
        assert ty == [];
        calc {
          Ties(Insert(y, t, lt), x, lt);
          tf + (ty + tr);
          { assert ty + tr == tr; }
          tf + tr;
          { assert ty + (tf + tr) == tf + tr; }
          ty + (tf + tr);
        }
      }
    }
  }

  /**
   * The sort is stable: the elements that tie with any `x` appear in the
   * sorted list in the order they had in the input.
   */
  lemma {:induction false} SortStable<T(!new)>(s: seq<T>, x: T, lt: (T, T) -> bool)
    requires StrictWeakOrder(lt)
    ensures Ties(Sort(s, lt), x, lt) == Ties(s, x, lt)
  {
    if s != [] {
      SortStable(s[1..], x, lt);
      InsertTies(s[0], Sort(s[1..], lt), x, lt);
      assert s == [s[0]] + s[1..];
      TiesAppend([s[0]], s[1..], x, lt);
    }
  }
}
