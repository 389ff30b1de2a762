/**
  The LINQ operators the modelled code uses on sequences: Where, Any and All.
 */
module Enumerables {

  /** Enumerable.Where: the elements of `xs` that satisfy `p`, in their order. */
  function Where<T>(xs: seq<T>, p: T -> bool): (r: seq<T>)
    ensures |r| <= |xs|
    ensures forall k :: 0 <= k < |r| ==> p(r[k]) && r[k] in xs
    decreases |xs|
  {
    if xs == [] then []
    else (if p(xs[0]) then [xs[0]] else []) + Where(xs[1..], p)
  }

  /** Enumerable.Any: some element satisfies `p`. */
  function Any<T>(xs: seq<T>, p: T -> bool): (r: bool)
    ensures r <==> exists k :: 0 <= k < |xs| && p(xs[k])
    decreases |xs|
  {
    if xs == [] then false
    else p(xs[0]) || (assert forall k :: 0 < k < |xs| ==> xs[k] == xs[1..][k - 1]; Any(xs[1..], p))
  }

  /** Enumerable.All: every element satisfies `p`. */
  function All<T>(xs: seq<T>, p: T -> bool): (r: bool)
    ensures r <==> forall k :: 0 <= k < |xs| ==> p(xs[k])
    decreases |xs|
  {
    if xs == [] then true
    else p(xs[0]) && (assert forall k :: 0 < k < |xs| ==> xs[k] == xs[1..][k - 1]; All(xs[1..], p))
  }

  /** `a` is `b` with some elements dropped and the rest kept in order. */
  predicate IsSubsequence<T(==)>(a: seq<T>, b: seq<T>)
    decreases |b|
  {
    if a == [] then true
    else if b == [] then false
    else (a[0] == b[0] && IsSubsequence(a[1..], b[1..])) || IsSubsequence(a, b[1..])
  }

  /** A subsequence of a suffix of `b` is a subsequence of `b`. */
  lemma {:induction false} SubsequenceOfSuffix<T>(a: seq<T>, b: seq<T>, j: nat)
    requires j <= |b| && IsSubsequence(a, b[j..])
    ensures IsSubsequence(a, b)
    decreases j
  {
    if j == 0 {
      assert b[0..] == b;
    } else {
      assert b[1..][j - 1..] == b[j..];
      SubsequenceOfSuffix(a, b[1..], j - 1);
    }
  }

  /** Where keeps every element that satisfies `p` as often as it occurs, and no other. */
  lemma {:induction false} WhereCounts<T>(xs: seq<T>, p: T -> bool)
    ensures forall x :: multiset(Where(xs, p))[x] == if p(x) then multiset(xs)[x] else 0
    decreases |xs|
  {
    if xs != [] {
      WhereCounts(xs[1..], p);
      assert xs == [xs[0]] + xs[1..];
      assert multiset(xs) == multiset([xs[0]]) + multiset(xs[1..]);
    }
  }

  /** Where keeps the relative order of the elements it keeps. */
  lemma {:induction false} WhereOrder<T>(xs: seq<T>, p: T -> bool)
    ensures IsSubsequence(Where(xs, p), xs)
    decreases |xs|
  {
    if xs != [] {
      WhereOrder(xs[1..], p);
      var w := Where(xs[1..], p);
      if p(xs[0]) {
        assert ([xs[0]] + w)[1..] == w;
      } else {
        assert [] + w == w;
      }
    }
  }

  /** Where over a concatenation is the concatenation of the two Where. */
  lemma {:induction false} WhereAppend<T>(a: seq<T>, b: seq<T>, p: T -> bool)
    ensures Where(a + b, p) == Where(a, p) + Where(b, p)
    decreases |a|
  {
    if a == [] {
      assert a + b == b;
    } else {
      assert (a + b)[1..] == a[1..] + b;
      WhereAppend(a[1..], b, p);
    }
  }

  /** A non-empty sequence is its front followed by its last element. */
  lemma FrontLast<T>(xs: seq<T>)
    requires xs != []
    ensures xs == xs[..|xs| - 1] + [xs[|xs| - 1]]
  {
  }

  /** Where over one more element at the end. */
  lemma WhereSnoc<T>(xs: seq<T>, x: T, p: T -> bool)
    ensures Where(xs + [x], p) == Where(xs, p) + (if p(x) then [x] else [])
  {
    WhereAppend(xs, [x], p);
    assert [x][1..] == [];
  }

  /** Two predicates that agree on the elements of `xs` select the same elements. */
  lemma {:induction false} WhereAgree<T>(xs: seq<T>, p: T -> bool, q: T -> bool)
    requires forall k :: 0 <= k < |xs| ==> p(xs[k]) == q(xs[k])
    ensures Where(xs, p) == Where(xs, q)
    decreases |xs|
  {
    if xs != [] {
      assert forall k :: 0 <= k < |xs| - 1 ==> xs[1..][k] == xs[k + 1];
      WhereAgree(xs[1..], p, q);
    }
  }

  /** Two Where in a row select what one Where with both conditions selects. */
  lemma {:induction false} WhereWhere<T>(xs: seq<T>, p: T -> bool, q: T -> bool, both: T -> bool)
    requires forall x :: both(x) == (p(x) && q(x))
    ensures Where(Where(xs, p), q) == Where(xs, both)
    decreases |xs|
  {
    if xs != [] {
      WhereWhere(xs[1..], p, q, both);
      var w := Where(xs[1..], p);
      if p(xs[0]) {
        assert ([xs[0]] + w)[1..] == w;
      } else {
        assert [] + w == w;
      }
    }
  }

  /** Where with a predicate that holds everywhere on `xs` keeps all of `xs`. */
  lemma {:induction false} WhereAll<T>(xs: seq<T>, p: T -> bool)
    requires forall k :: 0 <= k < |xs| ==> p(xs[k])
    ensures Where(xs, p) == xs
    decreases |xs|
  {
    if xs != [] {
      assert forall k :: 0 <= k < |xs| - 1 ==> xs[1..][k] == xs[k + 1];
      WhereAll(xs[1..], p);
      assert xs == [xs[0]] + xs[1..];
    }
  }
}
