/** Order-preserving deletion: `a` is a subsequence of `b` when `a` is
    obtained from `b` by dropping some positions and keeping the rest in
    order. Filters and list removals are characterised with it. */
module Subsequences {

  /** Defined from the end: either the last elements are matched with each
      other, or the last element of `b` is dropped. */
  predicate Subsequence<T(==)>(a: seq<T>, b: seq<T>)
    decreases |b|
  {
    || |a| == 0
    || (&& |b| > 0
        && ((a[|a| - 1] == b[|b| - 1] && Subsequence(a[..|a| - 1], b[..|b| - 1]))
            || Subsequence(a, b[..|b| - 1])))
  }

  lemma {:induction false} SubsequenceRefl<T>(a: seq<T>)
    ensures Subsequence(a, a)
  {
    if |a| > 0 {
      SubsequenceRefl(a[..|a| - 1]);
    }
  }

  lemma {:induction false} SubsequenceTrans<T>(a: seq<T>, b: seq<T>, c: seq<T>)
    requires Subsequence(a, b) && Subsequence(b, c)
    ensures Subsequence(a, c)
    decreases |c|
  {
    if |a| > 0 {
      assert |b| > 0 && |c| > 0;
      var bi, ci := b[..|b| - 1], c[..|c| - 1];
      if b[|b| - 1] == c[|c| - 1] && Subsequence(bi, ci) {
        if a[|a| - 1] == b[|b| - 1] && Subsequence(a[..|a| - 1], bi) {
          SubsequenceTrans(a[..|a| - 1], bi, ci);
        } else {
          SubsequenceTrans(a, bi, ci);
        }
      } else {
        SubsequenceTrans(a, b, ci);
      }
    }
  }

  /** Dropping one position leaves a subsequence. */
  lemma {:induction false} SubsequenceDrop<T>(xs: seq<T>, i: nat)
    requires i < |xs|
    ensures Subsequence(xs[..i] + xs[i + 1..], xs)
    decreases |xs|
  {
    var r := xs[..i] + xs[i + 1..];
    var init := xs[..|xs| - 1];
    if i == |xs| - 1 {
      assert r == init;
      SubsequenceRefl(init);
    } else {
      SubsequenceDrop(init, i);
      assert r[..|r| - 1] == init[..i] + init[i + 1..];
      assert r[|r| - 1] == xs[|xs| - 1];
    }
  }

  /** Everything a subsequence holds, the whole sequence holds. */
  lemma {:induction false} SubsequenceMembers<T>(a: seq<T>, b: seq<T>, x: T)
    requires Subsequence(a, b) && x in a
    ensures x in b
    decreases |b|
  {
    var bi := b[..|b| - 1];
    assert b == bi + [b[|b| - 1]];
    if a[|a| - 1] == b[|b| - 1] && Subsequence(a[..|a| - 1], bi) {
      assert a == a[..|a| - 1] + [a[|a| - 1]];
      if x != a[|a| - 1] {
        SubsequenceMembers(a[..|a| - 1], bi, x);
      }
    } else {
      SubsequenceMembers(a, bi, x);
    }
  }
}
