/**
  Python's `list.sort(key=..., reverse=True)`: a stable sort into non-increasing
  key order, comparing keys with `<` only. Elements whose keys are equal keep
  their original relative order.
 */
module Sorting {
  import opened Seqs

  /**
    What `list.sort` needs of `<` on the keys: asymmetric, and "not less than"
    is transitive. Reals and lexicographically compared tuples of strings and
    reals both qualify.
   */
  ghost predicate StrictWeakOrder<K(!new)>(less: (K, K) -> bool) {
    && (forall a, b :: less(a, b) ==> !less(b, a))
    && (forall a, b, c :: !less(a, b) && !less(b, c) ==> !less(a, c))
  }

  /** Non-increasing key order: no element's key is less than a later element's key. */
  ghost predicate SortedDesc<T, K>(s: seq<T>, key: T -> K, less: (K, K) -> bool) {
    forall i, j :: 0 <= i < j < |s| ==> !less(key(s[i]), key(s[j]))
  }

  /**
    Inserts `x` in front of the first element whose key is not greater than its
    own, so `x` precedes every element of `s` with an equal key.
   */
  function Insert<T, K>(x: T, s: seq<T>, key: T -> K, less: (K, K) -> bool): (r: seq<T>)
    ensures multiset(r) == multiset(s) + multiset{x}
    ensures |r| == |s| + 1
    decreases |s|
  {
    if |s| == 0 || !less(key(x), key(s[0])) then [x] + s
    else
      assert s == [s[0]] + s[1..];
      [s[0]] + Insert(x, s[1..], key, less)
  }

  /** The stable descending sort, as an insertion sort from the back. */
  function SortDesc<T, K>(s: seq<T>, key: T -> K, less: (K, K) -> bool): (r: seq<T>)
    ensures multiset(r) == multiset(s)
    ensures |r| == |s|
    decreases |s|
  {
    if |s| == 0 then []
    else
      assert s == [s[0]] + s[1..];
      Insert(s[0], SortDesc(s[1..], key, less), key, less)
  }

  lemma {:induction false} InsertSorted<T, K(!new)>(x: T, s: seq<T>, key: T -> K, less: (K, K) -> bool)
    requires StrictWeakOrder(less)
    requires SortedDesc(s, key, less)
    ensures SortedDesc(Insert(x, s, key, less), key, less)
    decreases |s|
  {
    var r := Insert(x, s, key, less);
    if |s| == 0 || !less(key(x), key(s[0])) {
      forall i, j | 0 <= i < j < |r| ensures !less(key(r[i]), key(r[j])) {
        if i == 0 {
          assert !less(key(s[0]), key(s[j - 1]));
        }
      }
    } else {
      var tail := Insert(x, s[1..], key, less);
      InsertSorted(x, s[1..], key, less);
      forall j | 0 <= j < |tail| ensures !less(key(s[0]), key(tail[j])) {
        assert tail[j] in multiset(tail);
        if tail[j] != x {
          var m :| 1 <= m < |s| && s[m] == tail[j];
        }
      }
    }
  }

  /** The sort's output is in non-increasing key order. */
  lemma {:induction false} SortIsSorted<T, K(!new)>(s: seq<T>, key: T -> K, less: (K, K) -> bool)
    requires StrictWeakOrder(less)
    ensures SortedDesc(SortDesc(s, key, less), key, less)
    decreases |s|
  {
    if |s| > 0 {
      SortIsSorted(s[1..], key, less);
      InsertSorted(s[0], SortDesc(s[1..], key, less), key, less);
    }
  }

  /** The elements of `s` whose key is `v`, in order. */
  function WithKey<T, K(==)>(s: seq<T>, key: T -> K, v: K): (r: seq<T>)
    ensures |r| <= |s|
    decreases |s|
  {
    if |s| == 0 then []
    else (if key(s[0]) == v then [s[0]] else []) + WithKey(s[1..], key, v)
  }

  lemma {:induction false} InsertStable<T, K(!new)>(x: T, s: seq<T>, key: T -> K, less: (K, K) -> bool, v: K)
    requires StrictWeakOrder(less)
    ensures WithKey(Insert(x, s, key, less), key, v) == (if key(x) == v then [x] else []) + WithKey(s, key, v)
    decreases |s|
  {
    if |s| == 0 || !less(key(x), key(s[0])) {
      assert ([x] + s)[1..] == s;
    } else {
      InsertStable(x, s[1..], key, less, v);
      assert ([s[0]] + Insert(x, s[1..], key, less))[1..] == Insert(x, s[1..], key, less);
    }
  }

  /**
    The sort is stable: for every key value, the elements with that key appear
    in the output in the same order as in the input.
   */
  lemma {:induction false} SortIsStable<T, K(!new)>(s: seq<T>, key: T -> K, less: (K, K) -> bool, v: K)
    requires StrictWeakOrder(less)
    ensures WithKey(SortDesc(s, key, less), key, v) == WithKey(s, key, v)
    decreases |s|
  {
    if |s| > 0 {
      SortIsStable(s[1..], key, less, v);
      InsertStable(s[0], SortDesc(s[1..], key, less), key, less, v);
    }
  }

  lemma {:induction false} InsertSum<T, K>(x: T, s: seq<T>, key: T -> K, less: (K, K) -> bool, f: T -> nat)
    ensures SumBy(Insert(x, s, key, less), f) == f(x) + SumBy(s, f)
    decreases |s|
  {
    if |s| == 0 || !less(key(x), key(s[0])) {
      assert ([x] + s)[1..] == s;
    } else {
      var tail := Insert(x, s[1..], key, less);
      InsertSum(x, s[1..], key, less, f);
      assert ([s[0]] + tail)[1..] == tail;
    }
  }

  /** Sorting neither adds nor loses anything a sum over the elements can see. */
  lemma {:induction false} SortKeepsSum<T, K>(s: seq<T>, key: T -> K, less: (K, K) -> bool, f: T -> nat)
    ensures SumBy(SortDesc(s, key, less), f) == SumBy(s, f)
    decreases |s|
  {
    if |s| > 0 {
      SortKeepsSum(s[1..], key, less, f);
      InsertSum(s[0], SortDesc(s[1..], key, less), key, less, f);
    }
  }

  lemma {:induction false} InsertKeepsDistinct<T, K, J>(x: T, s: seq<T>, key: T -> K, less: (K, K) -> bool, id: T -> J)
    requires DistinctBy(s, id)
    requires forall i :: 0 <= i < |s| ==> id(s[i]) != id(x)
    ensures DistinctBy(Insert(x, s, key, less), id)
    decreases |s|
  {
    if |s| > 0 && less(key(x), key(s[0])) {
      var tail := Insert(x, s[1..], key, less);
      InsertKeepsDistinct(x, s[1..], key, less, id);
      forall j | 0 <= j < |tail| ensures id(s[0]) != id(tail[j]) {
        assert tail[j] in multiset(tail);
        if tail[j] != x {
          var m :| 1 <= m < |s| && s[m] == tail[j];
        }
      }
    }
  }

  /** Elements that had distinct ids still have distinct ids after sorting. */
  lemma {:induction false} SortKeepsDistinct<T, K, J>(s: seq<T>, key: T -> K, less: (K, K) -> bool, id: T -> J)
    requires DistinctBy(s, id)
    ensures DistinctBy(SortDesc(s, key, less), id)
    decreases |s|
  {
    if |s| > 0 {
      var rest := SortDesc(s[1..], key, less);
      SortKeepsDistinct(s[1..], key, less, id);
      forall i | 0 <= i < |rest| ensures id(rest[i]) != id(s[0]) {
        assert rest[i] in multiset(s[1..]);
        var m :| 0 <= m < |s[1..]| && s[1..][m] == rest[i];
        assert s[m + 1] == rest[i];
      }
      InsertKeepsDistinct(s[0], rest, key, less, id);
    }
  }

  /** Any two keys are ordered one way or the other unless they are equal. */
  ghost predicate Trichotomous<K(!new)>(less: (K, K) -> bool) {
    forall a, b :: a == b || less(a, b) || less(b, a)
  }

  /** An element is in `WithKey(s, key, v)` exactly when it is in `s` with key `v`. */
  lemma {:induction false} WithKeyMember<T, K>(s: seq<T>, key: T -> K, v: K, x: T)
    ensures x in WithKey(s, key, v) <==> x in s && key(x) == v
    decreases |s|
  {
    if |s| > 0 {
      WithKeyMember(s[1..], key, v, x);
      assert s == [s[0]] + s[1..];
    }
  }

  /** In a sequence in non-increasing key order no element's key is above the first one's. */
  lemma FirstKeyIsMax<T, K(!new)>(s: seq<T>, key: T -> K, less: (K, K) -> bool, x: T)
    requires StrictWeakOrder(less)
    requires SortedDesc(s, key, less)
    requires x in s
    ensures !less(key(s[0]), key(x))
  {
    var j :| 0 <= j < |s| && s[j] == x;
    if j > 0 {
      assert !less(key(s[0]), key(s[j]));
    }
  }

  /**
    A sequence in non-increasing key order is determined by which elements carry
    each key and in what order: two such sequences that agree on `WithKey` for
    every key are equal.
   */
  lemma {:induction false} SortedStableUnique<T, K(!new)>(a: seq<T>, b: seq<T>, key: T -> K, less: (K, K) -> bool)
    requires StrictWeakOrder(less) && Trichotomous(less)
    requires SortedDesc(a, key, less) && SortedDesc(b, key, less)
    requires forall v :: WithKey(a, key, v) == WithKey(b, key, v)
    ensures a == b
    decreases |a| + |b|
  {
    if |a| > 0 {
      WithKeyMember(a, key, key(a[0]), a[0]);
      WithKeyMember(b, key, key(a[0]), a[0]);
    }
    if |b| > 0 {
      WithKeyMember(b, key, key(b[0]), b[0]);
      WithKeyMember(a, key, key(b[0]), b[0]);
    }
    if |a| == 0 {
      return;
    }
    var va, vb := key(a[0]), key(b[0]);
    FirstKeyIsMax(a, key, less, b[0]);
    FirstKeyIsMax(b, key, less, a[0]);
    assert va == vb;
    assert WithKey(a, key, va) == [a[0]] + WithKey(a[1..], key, va);
    assert WithKey(b, key, va) == [b[0]] + WithKey(b[1..], key, va);
    assert WithKey(a, key, va) == WithKey(b, key, va);
    assert a[0] == WithKey(a, key, va)[0] == WithKey(b, key, va)[0] == b[0];
    forall v ensures WithKey(a[1..], key, v) == WithKey(b[1..], key, v) {
      assert WithKey(a, key, v) == WithKey(b, key, v);
      assert key(b[0]) == va;
      if v == va {
        assert WithKey(a, key, v) == [a[0]] + WithKey(a[1..], key, v);
        assert WithKey(b, key, v) == [b[0]] + WithKey(b[1..], key, v);
        assert WithKey(a, key, v)[1..] == WithKey(a[1..], key, v);
        assert WithKey(b, key, v)[1..] == WithKey(b[1..], key, v);
      } else {
        assert WithKey(a, key, v) == [] + WithKey(a[1..], key, v);
        assert WithKey(b, key, v) == [] + WithKey(b[1..], key, v);
        assert WithKey(a, key, v) == WithKey(a[1..], key, v);
        assert WithKey(b, key, v) == WithKey(b[1..], key, v);
      }
    }
    SortedStableUnique(a[1..], b[1..], key, less);
    assert a == [a[0]] + a[1..] && b == [b[0]] + b[1..];
  }

  /**
    `SortDesc` is the only stable sort into non-increasing key order: any sequence
    in that order that keeps the input order among equal keys is its result.
   */
  lemma SortIsUnique<T, K(!new)>(s: seq<T>, r: seq<T>, key: T -> K, less: (K, K) -> bool)
    requires StrictWeakOrder(less) && Trichotomous(less)
    requires SortedDesc(r, key, less)
    requires forall v :: WithKey(r, key, v) == WithKey(s, key, v)
    ensures r == SortDesc(s, key, less)
  {
    SortIsSorted(s, key, less);
    forall v ensures WithKey(r, key, v) == WithKey(SortDesc(s, key, less), key, v) {
      SortIsStable(s, key, less, v);
    }
    SortedStableUnique(r, SortDesc(s, key, less), key, less);
  }
}
