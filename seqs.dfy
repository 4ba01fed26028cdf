/** Sequence helpers shared by the list screens: JavaScript's `filter`, index ranges and orderings. */
module Seqs {

  /** The elements of `s` that satisfy `p`, in their original order (`Array.prototype.filter`). */
  function Filter<T>(s: seq<T>, p: T -> bool): seq<T>
    decreases |s|
  {
    if s == [] then []
    else Filter(s[..|s| - 1], p) + (if p(s[|s| - 1]) then [s[|s| - 1]] else [])
  }

  /** Filtering distributes over concatenation; together with the one-element case
      this determines `Filter` completely. */
  lemma {:induction false} FilterAppend<T>(a: seq<T>, b: seq<T>, p: T -> bool)
    ensures Filter(a + b, p) == Filter(a, p) + Filter(b, p)
    decreases |b|
  {
    if b == [] {
      assert a + b == a;
    } else {
      assert (a + b)[..|a + b| - 1] == a + b[..|b| - 1];
      FilterAppend(a, b[..|b| - 1], p);
    }
  }

  /** An element is kept exactly when it occurs in the input and satisfies the predicate. */
  lemma {:induction false} FilterMembership<T>(s: seq<T>, p: T -> bool, x: T)
    ensures x in Filter(s, p) <==> x in s && p(x)
    decreases |s|
  {
    if s != [] {
      FilterMembership(s[..|s| - 1], p, x);
      assert s == s[..|s| - 1] + [s[|s| - 1]];
    }
  }

  /** A predicate that holds throughout keeps the whole sequence. */
  lemma {:induction false} FilterKeepsAll<T>(s: seq<T>, p: T -> bool)
    requires forall i :: 0 <= i < |s| ==> p(s[i])
    ensures Filter(s, p) == s
    decreases |s|
  {
    if s != [] {
      FilterKeepsAll(s[..|s| - 1], p);
    }
  }

  /** `[0, 1, ..., n - 1]`, the indices of an `n`-element list (`questions.map((_, i) => i)`). */
  function Range(n: nat): (r: seq<int>)
    ensures |r| == n
  {
    seq(n, i => i)
  }

  predicate StrictlyIncreasing(s: seq<int>)
  {
    forall i, j :: 0 <= i < j < |s| ==> s[i] < s[j]
  }

  /** A filter of a strictly increasing list is strictly increasing, and its
      elements are bounded by the list's elements. */
  lemma {:induction false} FilterIncreasing(s: seq<int>, p: int -> bool)
    requires StrictlyIncreasing(s)
    ensures StrictlyIncreasing(Filter(s, p))
    ensures forall x :: x in Filter(s, p) ==> x in s
    decreases |s|
  {
    if s != [] {
      var init := s[..|s| - 1];
      FilterIncreasing(init, p);
      var f := Filter(init, p);
      forall x | x in f ensures x < s[|s| - 1] {
        FilterMembership(init, p, x);
        var k :| 0 <= k < |init| && init[k] == x;
      }
      if p(s[|s| - 1]) {
        var r := Filter(s, p);
        assert r == f + [s[|s| - 1]];
        forall i, j | 0 <= i < j < |r| ensures r[i] < r[j] {
          if j < |f| {
          } else {
            assert r[i] in f;
          }
        }
      }
      forall x | x in Filter(s, p) ensures x in s {
        FilterMembership(s, p, x);
      }
    }
  }

  lemma RangeIncreasing(n: nat)
    ensures StrictlyIncreasing(Range(n))
  {
  }

  function Reverse<T>(s: seq<T>): (r: seq<T>)
    ensures |r| == |s|
    decreases |s|
  {
    if s == [] then [] else [s[|s| - 1]] + Reverse(s[..|s| - 1])
  }

  /** Reversal peels the first element off to the back. */
  lemma {:induction false} ReverseCons<T>(s: seq<T>)
    requires s != []
    ensures Reverse(s) == Reverse(s[1..]) + [s[0]]
    decreases |s|
  {
    if |s| > 1 {
      ReverseCons(s[..|s| - 1]);
      assert s[..|s| - 1][1..] == s[1..][..|s[1..]| - 1];
    }
  }
}
