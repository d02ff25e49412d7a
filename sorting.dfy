/**
 * `Array.prototype.sort`, which the script calls twice, modelled as an
 * insertion sort driven by a "goes before" relation derived from the
 * comparator: `before(x, y)` holds when the comparator asks for `x`
 * ahead of `y`.
 */
module Sorting {

  /** A relation a sort can honour: irreflexive and transitive. */
  ghost predicate StrictOrder<T(!new)>(before: (T, T) -> bool) {
    && (forall x :: !before(x, x))
    && (forall x, y, z :: before(x, y) && before(y, z) ==> before(x, z))
  }

  /** No element is asked to go before one that precedes it. */
  predicate SortedBy<T>(s: seq<T>, before: (T, T) -> bool) {
    forall i, j :: 0 <= i < j < |s| ==> !before(s[j], s[i])
  }

  /** Places `x` ahead of the first element it goes before. */
  function Insert<T>(x: T, s: seq<T>, before: (T, T) -> bool): (r: seq<T>)
    ensures multiset(r) == multiset(s) + multiset{x}
    decreases |s|
  {
    if s == [] then [x]
    else if before(x, s[0]) then
      assert s == [s[0]] + s[1..];
      [x] + s
    else
      assert s == [s[0]] + s[1..];
      [s[0]] + Insert(x, s[1..], before)
  }

  /**
   * The sorted sequence: the last element is placed first and every earlier
   * element is inserted in front of the first one it goes before, so
   * elements that tie end up in reverse input order.
   */
  function Sort<T>(s: seq<T>, before: (T, T) -> bool): (r: seq<T>)
    ensures multiset(r) == multiset(s)
    decreases |s|
  {
    if s == [] then []
    else
      assert s == [s[0]] + s[1..];
      Insert(s[0], Sort(s[1..], before), before)
  }

  /** Inserting into a sorted sequence keeps it sorted. */
  lemma {:induction false} InsertSorted<T(!new)>(x: T, s: seq<T>, before: (T, T) -> bool)
    requires StrictOrder(before) && SortedBy(s, before)
    ensures SortedBy(Insert(x, s, before), before)
    decreases |s|
  {
    if s != [] && !before(x, s[0]) {
      var rest := Insert(x, s[1..], before);
      InsertSorted(x, s[1..], before);
      forall k | 0 <= k < |rest| ensures !before(rest[k], s[0]) {
        assert rest[k] in multiset(s[1..]) + multiset{x};
        if rest[k] != x {
          assert rest[k] in s[1..];
        }
      }
    }
  }

  /** The result of `Sort` honours a strict order. */
  lemma {:induction false} SortSorted<T(!new)>(s: seq<T>, before: (T, T) -> bool)
    requires StrictOrder(before)
    ensures SortedBy(Sort(s, before), before)
    decreases |s|
  {
    if s != [] {
      SortSorted(s[1..], before);
      InsertSorted(s[0], Sort(s[1..], before), before);
    }
  }

  /** Two elements where the first does not go before the second swap places. */
  lemma SortTwo<T>(b: T, c: T, before: (T, T) -> bool)
    requires !before(b, c)
    ensures Sort([b, c], before) == [c, b]
  {
    assert [b, c][1..] == [c] && [c][1..] == [];
    assert Sort([c], before) == [c];
    assert Insert(b, [c], before) == [c] + Insert(b, [], before);
  }

  /** An element that goes before the second element but not the first lands between them. */
  lemma InsertBetween<T>(a: T, c: T, b: T, before: (T, T) -> bool)
    requires !before(a, c) && before(a, b)
    ensures Insert(a, [c, b], before) == [c, a, b]
  {
    assert [c, b][1..] == [b];
    assert Insert(a, [b], before) == [a, b];
  }

  /**
   * Sorting three elements where only the first goes before the second:
   * the last comes first, and the first stays ahead of the second.
   */
  lemma SortThree<T>(a: T, b: T, c: T, before: (T, T) -> bool)
    requires before(a, b) && !before(b, c) && !before(a, c)
    ensures Sort([a, b, c], before) == [c, a, b]
  {
    assert [a, b, c][1..] == [b, c];
    SortTwo(b, c, before);
    InsertBetween(a, c, b, before);
  }
}
