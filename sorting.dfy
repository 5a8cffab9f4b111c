/** The orderings SQL gives result rows: `GROUP BY` on an integer key (distinct keys in
    ascending order) and `ORDER BY` on a strict ordering of rows. */
module Sorting {

  predicate StrictlyIncreasing(xs: seq<int>) {
    forall i, j :: 0 <= i < j < |xs| ==> xs[i] < xs[j]
  }

  /** Inserts `x` into an ascending sequence of distinct values, unless it is already there. */
  function InsertDistinct(x: int, xs: seq<int>): (r: seq<int>)
    requires StrictlyIncreasing(xs)
    ensures StrictlyIncreasing(r)
    ensures forall y :: y in r <==> y == x || y in xs
  {
    if xs == [] then [x]
    else if x < xs[0] then [x] + xs
    else if x == xs[0] then xs
    else
      var rest := InsertDistinct(x, xs[1..]);
      assert forall y :: y in rest ==> xs[0] < y by {
        forall y | y in rest ensures xs[0] < y {
          if y != x {
            var j :| 0 <= j < |xs[1..]| && xs[1..][j] == y;
            assert xs[j + 1] == y;
          }
        }
      }
      assert forall i :: 0 < i < |[xs[0]] + rest| ==> ([xs[0]] + rest)[i] in rest;
      [xs[0]] + rest
  }

  /** The distinct values of `xs` in ascending order: the groups of a `GROUP BY` on an integer key. */
  function SortedDistinct(xs: seq<int>): (r: seq<int>)
    ensures StrictlyIncreasing(r)
    ensures forall y :: y in r <==> y in xs
  {
    if xs == [] then []
    else InsertDistinct(xs[|xs| - 1], SortedDistinct(xs[..|xs| - 1]))
  }

  /** `before` is a strict ordering: irreflexive and transitive. */
  ghost predicate StrictOrder<T(!new)>(before: (T, T) -> bool) {
    && (forall a :: !before(a, a))
    && (forall a, b, c :: before(a, b) && before(b, c) ==> before(a, c))
  }

  /** No element is strictly before an element that precedes it. */
  predicate SortedBy<T>(s: seq<T>, before: (T, T) -> bool) {
    forall i, j :: 0 <= i < j < |s| ==> !before(s[j], s[i])
  }

  /** Inserts `x` in front of the first element it comes strictly before. */
  function InsertBy<T>(x: T, s: seq<T>, before: (T, T) -> bool): (r: seq<T>)
    ensures multiset(r) == multiset(s) + multiset{x}
  {
    if s == [] || before(x, s[0]) then [x] + s
    else
      assert s == [s[0]] + s[1..];
      [s[0]] + InsertBy(x, s[1..], before)
  }

  /** Insertion sort of `s` by `before`: the rows of an `ORDER BY`. */
  function SortBy<T>(s: seq<T>, before: (T, T) -> bool): (r: seq<T>)
    ensures multiset(r) == multiset(s)
  {
    if s == [] then []
    else
      assert s == s[..|s| - 1] + [s[|s| - 1]];
      InsertBy(s[|s| - 1], SortBy(s[..|s| - 1], before), before)
  }

  lemma {:induction false} InsertBySorted<T(!new)>(x: T, s: seq<T>, before: (T, T) -> bool)
    requires StrictOrder(before)
    requires SortedBy(s, before)
    ensures SortedBy(InsertBy(x, s, before), before)
  {
    if s == [] || before(x, s[0]) {
    } else {
      InsertBySorted(x, s[1..], before);
      var tail := InsertBy(x, s[1..], before);
      forall e | e in tail
        ensures !before(e, s[0])
      {
        assert e in multiset(tail);
      }
    }
  }

  /** `SortBy` returns its input sorted and permuted. */
  lemma {:induction false} SortBySorted<T(!new)>(s: seq<T>, before: (T, T) -> bool)
    requires StrictOrder(before)
    ensures SortedBy(SortBy(s, before), before)
    ensures multiset(SortBy(s, before)) == multiset(s)
  {
    if s != [] {
      SortBySorted(s[..|s| - 1], before);
      InsertBySorted(s[|s| - 1], SortBy(s[..|s| - 1], before), before);
    }
  }

  /** An element that comes before nothing in `s` is inserted at the end. */
  lemma {:induction false} InsertByAtEnd<T>(x: T, s: seq<T>, before: (T, T) -> bool)
    requires forall i :: 0 <= i < |s| ==> !before(x, s[i])
    ensures InsertBy(x, s, before) == s + [x]
  {
    if s != [] {
      InsertByAtEnd(x, s[1..], before);
      assert [s[0]] + (s[1..] + [x]) == s + [x];
    }
  }

  /** The sort is stable: an already sorted sequence comes back unchanged. */
  lemma {:induction false} SortByOfSorted<T>(s: seq<T>, before: (T, T) -> bool)
    requires SortedBy(s, before)
    ensures SortBy(s, before) == s
  {
    if s != [] {
      var init := s[..|s| - 1];
      assert SortedBy(init, before);
      SortByOfSorted(init, before);
      InsertByAtEnd(s[|s| - 1], init, before);
      assert init + [s[|s| - 1]] == s;
    }
  }
}
