/**
  The `<` comparisons the two sorts use: on reals (the attendance rate), on
  strings (Python compares code point by code point), and on the
  `(subject, attendance_rate)` tuples of the student-subject sort.
 */
module Ordering {
  import opened Sorting

  function RealLess(a: real, b: real): bool {
    a < b
  }

  /** Python's `<` on `str`: the first differing code point decides, and a proper prefix is smaller. */
  function StrLess(a: string, b: string): bool
    decreases |a|
  {
    if |a| == 0 then |b| > 0
    else if |b| == 0 then false
    else if a[0] != b[0] then a[0] < b[0]
    else StrLess(a[1..], b[1..])
  }

  /**
    Python's `<` on a pair `(subject, rate)`: the subjects decide unless they are
    equal, in which case the rates do.
   */
  function PairLess(a: (string, real), b: (string, real)): bool {
    if a.0 != b.0 then StrLess(a.0, b.0) else a.1 < b.1
  }

  lemma {:induction false} StrLessAsymmetric(a: string, b: string)
    ensures StrLess(a, b) ==> !StrLess(b, a)
    decreases |a|
  {
    if |a| > 0 && |b| > 0 && a[0] == b[0] {
      StrLessAsymmetric(a[1..], b[1..]);
    }
  }

  lemma {:induction false} StrLessTransitive(a: string, b: string, c: string)
    ensures StrLess(a, b) && StrLess(b, c) ==> StrLess(a, c)
    decreases |a|
  {
    if |a| > 0 && |b| > 0 && |c| > 0 && a[0] == b[0] && b[0] == c[0] {
      StrLessTransitive(a[1..], b[1..], c[1..]);
    }
  }

  lemma {:induction false} StrLessTotal(a: string, b: string)
    ensures a == b || StrLess(a, b) || StrLess(b, a)
    decreases |a|
  {
    if |a| > 0 && |b| > 0 && a[0] == b[0] {
      StrLessTotal(a[1..], b[1..]);
      if a[1..] == b[1..] {
        assert a == [a[0]] + a[1..] && b == [b[0]] + b[1..];
      }
    }
  }

  /** String comparison is a strict total order. */
  lemma StrLessIsStrictTotalOrder()
    ensures forall a, b :: StrLess(a, b) ==> !StrLess(b, a)
    ensures forall a, b, c :: StrLess(a, b) && StrLess(b, c) ==> StrLess(a, c)
    ensures forall a, b :: a == b || StrLess(a, b) || StrLess(b, a)
  {
    forall a, b ensures StrLess(a, b) ==> !StrLess(b, a) {
      StrLessAsymmetric(a, b);
    }
    forall a, b, c ensures StrLess(a, b) && StrLess(b, c) ==> StrLess(a, c) {
      StrLessTransitive(a, b, c);
    }
    forall a, b ensures a == b || StrLess(a, b) || StrLess(b, a) {
      StrLessTotal(a, b);
    }
  }

  /** `<` on reals is a valid ordering for `list.sort`. */
  lemma RealLessIsStrictWeakOrder()
    ensures StrictWeakOrder(RealLess)
  {
  }

  /** Lexicographic `<` on `(subject, rate)` pairs is a valid ordering for `list.sort`. */
  lemma PairLessIsStrictWeakOrder()
    ensures StrictWeakOrder(PairLess)
  {
    StrLessIsStrictTotalOrder();
  }

  /** Two rates are equal or one is below the other. */
  lemma RealLessIsTrichotomous()
    ensures Trichotomous(RealLess)
  {
  }

  /** Two `(subject, rate)` pairs are equal or one is below the other. */
  lemma PairLessIsTrichotomous()
    ensures Trichotomous(PairLess)
  {
    StrLessIsStrictTotalOrder();
  }
}
