/** Generic facts about sequences that the reader and the aggregators share. */
module Seqs {
  import opened Wrappers

  /**
    Applies `f` to every element and keeps the `Some` results, in order
    (the shape of a Python loop that appends only the items passing a check).
   */
  function FilterMap<A, B>(s: seq<A>, f: A -> Option<B>): (r: seq<B>)
    ensures |r| <= |s|
    decreases |s|
  {
    if |s| == 0 then []
    else FilterMap(s[..|s| - 1], f) + (match f(s[|s| - 1]) case Some(b) => [b] case None => [])
  }

  /** Each element is judged on its own: `FilterMap` distributes over concatenation. */
  lemma {:induction false} FilterMapAppend<A, B>(a: seq<A>, b: seq<A>, f: A -> Option<B>)
    ensures FilterMap(a + b, f) == FilterMap(a, f) + FilterMap(b, f)
    decreases |b|
  {
    if |b| == 0 {
      assert a + b == a;
    } else {
      var b' := b[..|b| - 1];
      assert (a + b)[..|a + b| - 1] == a + b';
      FilterMapAppend(a, b', f);
    }
  }

  /**
    The kept results are exactly those of the elements `f` accepts, in input order:
    `idx` lists the accepted positions, increasing, and misses none.
   */
  lemma {:induction false} FilterMapIsSubsequence<A, B>(s: seq<A>, f: A -> Option<B>) returns (idx: seq<nat>)
    ensures |idx| == |FilterMap(s, f)|
    ensures forall k :: 0 <= k < |idx| ==> idx[k] < |s| && f(s[idx[k]]) == Some(FilterMap(s, f)[k])
    ensures forall k, m :: 0 <= k < m < |idx| ==> idx[k] < idx[m]
    ensures forall i :: 0 <= i < |s| && f(s[i]).Some? ==> i in idx
    decreases |s|
  {
    if |s| == 0 {
      idx := [];
    } else {
      var n := |s| - 1;
      var init := s[..n];
      var idx' := FilterMapIsSubsequence(init, f);
      assert forall i :: 0 <= i < n ==> s[i] == init[i];
      match f(s[n])
      case Some(b) =>
        idx := idx' + [n];
      case None =>
        idx := idx';
    }
  }

  /** Nothing is kept exactly when `f` accepts no element. */
  lemma {:induction false} FilterMapEmpty<A, B>(s: seq<A>, f: A -> Option<B>)
    ensures |FilterMap(s, f)| == 0 <==> forall i :: 0 <= i < |s| ==> f(s[i]).None?
    decreases |s|
  {
    if |s| > 0 {
      FilterMapEmpty(s[..|s| - 1], f);
    }
  }

  /** Every kept result satisfies whatever `f` promises of its `Some` results. */
  lemma {:induction false} FilterMapAll<A, B>(s: seq<A>, f: A -> Option<B>, p: B -> bool)
    requires forall a :: f(a).Some? ==> p(f(a).value)
    ensures forall k :: 0 <= k < |FilterMap(s, f)| ==> p(FilterMap(s, f)[k])
    decreases |s|
  {
    if |s| > 0 {
      FilterMapAll(s[..|s| - 1], f, p);
    }
  }

  /** The sum of `f` over the elements of `s`. */
  function SumBy<T>(s: seq<T>, f: T -> nat): nat
    decreases |s|
  {
    if |s| == 0 then 0 else f(s[0]) + SumBy(s[1..], f)
  }

  lemma {:induction false} SumByAppend<T>(a: seq<T>, b: seq<T>, f: T -> nat)
    ensures SumBy(a + b, f) == SumBy(a, f) + SumBy(b, f)
    decreases |a|
  {
    if |a| == 0 {
      assert a + b == b;
    } else {
      assert (a + b)[1..] == a[1..] + b;
      SumByAppend(a[1..], b, f);
    }
  }

  /** No two elements share an `id`. */
  ghost predicate DistinctBy<T, J>(s: seq<T>, id: T -> J) {
    forall i, j :: 0 <= i < j < |s| ==> id(s[i]) != id(s[j])
  }
}
