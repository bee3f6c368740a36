/** Ordering by an integer key, as used for `OrderBy` / `OrderByDescending`
    over timestamp columns. Insertion sort is stable, which matches LINQ's
    ordering of ties; callers only rely on the result being a sorted
    permutation of the input. */
module Sorting {

  ghost predicate SortedBy<T>(xs: seq<T>, key: T -> int) {
    forall i, j :: 0 <= i < j < |xs| ==> key(xs[i]) <= key(xs[j])
  }

  /** In a sorted sequence the first element has the least key. */
  lemma HeadIsLeast<T>(xs: seq<T>, key: T -> int)
    requires SortedBy(xs, key) && |xs| > 0
    ensures forall y :: y in xs ==> key(xs[0]) <= key(y)
  {
    forall y | y in xs
      ensures key(xs[0]) <= key(y)
    {
      var m :| 0 <= m < |xs| && xs[m] == y;
      if m > 0 {
        assert key(xs[0]) <= key(xs[m]);
      }
    }
  }

  /** Putting an element no larger than all others in front keeps a
      sequence sorted. */
  lemma ConsSorted<T>(h: T, xs: seq<T>, key: T -> int)
    requires SortedBy(xs, key) && forall y :: y in xs ==> key(h) <= key(y)
    ensures SortedBy([h] + xs, key)
  {
    var r := [h] + xs;
    forall i, j | 0 <= i < j < |r|
      ensures key(r[i]) <= key(r[j])
    {
      assert r[j] == xs[j - 1];
      if i == 0 {
        assert xs[j - 1] in xs;
      } else {
        assert r[i] == xs[i - 1];
      }
    }
  }

  /** Inserts `x` before the first element whose key exceeds its own. */
  function Insert<T>(x: T, xs: seq<T>, key: T -> int): (r: seq<T>)
    requires SortedBy(xs, key)
    ensures SortedBy(r, key)
    ensures forall y :: y in r ==> y == x || y in xs
    ensures multiset(r) == multiset(xs) + multiset{x}
    ensures |r| == |xs| + 1
  {
    if |xs| == 0 then [x]
    else
      HeadIsLeast(xs, key);
      if key(x) <= key(xs[0]) then
        ConsSorted(x, xs, key);
        [x] + xs
      else
        assert xs == [xs[0]] + xs[1..];
        assert SortedBy(xs[1..], key);
        var rest := Insert(x, xs[1..], key);
        ConsSorted(xs[0], rest, key);
        [xs[0]] + rest
  }

  /** The elements of `xs` rearranged in non-decreasing key order. */
  function SortBy<T>(xs: seq<T>, key: T -> int): (r: seq<T>)
    ensures SortedBy(r, key)
    ensures multiset(r) == multiset(xs)
    ensures |r| == |xs|
  {
    if |xs| == 0 then []
    else
      assert xs == [xs[0]] + xs[1..];
      Insert(xs[0], SortBy(xs[1..], key), key)
  }
}
