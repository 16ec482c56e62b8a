/**
  The two aggregators, `stats_by_subject` and `stats_by_student_subject`: group
  the records, turn each dictionary entry into a statistics row with its
  attendance rate, and sort the rows.
 */
module Aggregate {
  import opened Status
  import opened Rows
  import opened Counters
  import opened Grouping
  import opened Seqs
  import opened Sorting
  import opened Ordering

  /**
    One output row: the grouping key, its counters and `attendance_rate`.
    For the subject aggregator the key is the subject; for the student-subject
    aggregator it is the pair `(student_id, subject)`.
   */
  datatype Stats<K> = Stats(key: K, counts: Counts, rate: real)

  type SubjectStats = Stats<string>
  type StudentSubjectStats = Stats<(string, string)>

  function SubjectOf(r: Record): string {
    r.subject
  }

  function StudentSubjectOf(r: Record): (string, string) {
    (r.studentId, r.subject)
  }

  function KeyOf<K>(e: Stats<K>): K {
    e.key
  }

  function TotalOf<K>(e: Stats<K>): nat {
    e.counts.total
  }

  /** The sort key of `stats_by_subject`. */
  function RateOf(e: SubjectStats): real {
    e.rate
  }

  /** The sort key of `stats_by_student_subject`: `(subject, attendance_rate)`. */
  function SubjectRateOf(e: StudentSubjectStats): (string, real) {
    (e.key.1, e.rate)
  }

  /** A row as the source completes it: the counters plus `attendance_rate`. */
  function MakeStats<K>(k: K, c: Counts): Stats<K> {
    Stats(k, c, Rate(c))
  }

  /** The rows of the dictionary's entries, in the order of the keys given. */
  function Entries<K>(keys: seq<K>, m: map<K, Counts>): (out: seq<Stats<K>>)
    requires forall k :: k in keys ==> k in m
    ensures |out| == |keys|
    ensures forall i :: 0 <= i < |keys| ==> out[i] == MakeStats(keys[i], m[keys[i]])
  {
    seq(|keys|, i requires 0 <= i < |keys| => MakeStats(keys[i], m[keys[i]]))
  }

  /** The unsorted list `out` both aggregators build: one row per key, in order of first occurrence. */
  function Tabulate<K(==, !new)>(rs: seq<Record>, key: Record -> K): seq<Stats<K>> {
    var t := Group(rs, key);
    Entries(t.keys, t.entries)
  }

  /** `stats_by_subject`: per-subject rows, highest attendance rate first. */
  function StatsBySubject(rs: seq<Record>): seq<SubjectStats> {
    SortDesc(Tabulate(rs, SubjectOf), RateOf, RealLess)
  }

  /** `stats_by_student_subject`: per-(student, subject) rows, sorted on `(subject, rate)` descending. */
  function StatsByStudentSubject(rs: seq<Record>): seq<StudentSubjectStats> {
    SortDesc(Tabulate(rs, StudentSubjectOf), SubjectRateOf, PairLess)
  }

  // ---------------------------------------------------------------------------
  // Properties of the unsorted rows, for any grouping key.
  // ---------------------------------------------------------------------------

  /**
    A row is exact: its counters are those of the records with its key, there is
    at least one such record, the counters add up, and the rate is the share of
    present and late records (see `RateIsShare`), hence within [0, 1].
   */
  ghost predicate Exact<K(!new)>(rs: seq<Record>, key: Record -> K, e: Stats<K>) {
    && e.counts == Expected(rs, key, e.key)
    && e.counts.total >= 1
    && Consistent(e.counts)
    && e.rate == Rate(e.counts)
    && 0.0 <= e.rate <= 1.0
  }

  /** A row built from consistent, non-empty counters carries the exact share of present and late records. */
  lemma RowRate<K>(k: K, c: Counts)
    requires Consistent(c) && c.total >= 1
    ensures MakeStats(k, c).rate == Rate(c)
    ensures 0.0 <= MakeStats(k, c).rate <= 1.0
  {
    RateIsShare(c);
  }

  /** The row for key `k` built from the table is exact whenever `k` occurs in the records. */
  lemma RowExact<K(!new)>(rs: seq<Record>, key: Record -> K, k: K)
    requires Occurs(rs, key, k)
    ensures k in Group(rs, key).entries
    ensures Exact(rs, key, MakeStats(k, Group(rs, key).entries[k]))
  {
    GroupCovers(rs, key, k);
    var c := Group(rs, key).entries[k];
    GroupIsExact(rs, key, k);
    ExpectedConsistent(rs, key, k);
    RowRate(k, c);
  }

  /** Every unsorted row is exact. */
  lemma TabulateExact<K(!new)>(rs: seq<Record>, key: Record -> K)
    ensures forall e :: e in Tabulate(rs, key) ==> Exact(rs, key, e)
  {
    var t := Group(rs, key);
    forall i | 0 <= i < |Tabulate(rs, key)| ensures Exact(rs, key, Tabulate(rs, key)[i]) {
      var k := t.keys[i];
      assert k in t.entries;
      GroupCovers(rs, key, k);
      RowExact(rs, key, k);
    }
  }

  /**
    The unsorted rows follow the dictionary's insertion order: a row's key
    occurs in the records before the key of any later row does.
   */
  lemma TabulateInFirstOccurrenceOrder<K(!new)>(rs: seq<Record>, key: Record -> K)
    ensures forall i :: 0 <= i < |Tabulate(rs, key)| ==> FirstIndex(rs, key, Tabulate(rs, key)[i].key) < |rs|
    ensures forall i, j :: 0 <= i < j < |Tabulate(rs, key)| ==>
      FirstIndex(rs, key, Tabulate(rs, key)[i].key) < FirstIndex(rs, key, Tabulate(rs, key)[j].key)
  {
    var t := Group(rs, key);
    GroupKeysInFirstOccurrenceOrder(rs, key);
    assert forall i :: 0 <= i < |Tabulate(rs, key)| ==> Tabulate(rs, key)[i].key == t.keys[i];
  }

  /** No two unsorted rows share a key. */
  lemma TabulateDistinct<K(!new)>(rs: seq<Record>, key: Record -> K)
    ensures DistinctBy(Tabulate(rs, key), KeyOf)
  {
    var t := Group(rs, key);
    var out := Entries(t.keys, t.entries);
    forall i, j | 0 <= i < j < |out| ensures KeyOf(out[i]) != KeyOf(out[j]) {
      assert KeyOf(out[i]) == t.keys[i] && KeyOf(out[j]) == t.keys[j];
    }
  }

  /** The rows of a valid table carry exactly the table's keys. */
  lemma EntriesCover<K(!new)>(t: Table<K>, k: K)
    requires Valid(t)
    ensures (exists i :: 0 <= i < |Entries(t.keys, t.entries)| && Entries(t.keys, t.entries)[i].key == k) <==> k in t.entries
  {
    var out := Entries(t.keys, t.entries);
    if k in t.entries {
      var i :| 0 <= i < |t.keys| && t.keys[i] == k;
      assert out[i].key == k;
    }
  }

  /** There is an unsorted row for key `k` exactly when some record has key `k`. */
  lemma TabulateCovers<K(!new)>(rs: seq<Record>, key: Record -> K, k: K)
    ensures (exists i :: 0 <= i < |Tabulate(rs, key)| && Tabulate(rs, key)[i].key == k) <==> Occurs(rs, key, k)
  {
    var t := Group(rs, key);
    assert Tabulate(rs, key) == Entries(t.keys, t.entries);
    EntriesCover(t, k);
    GroupCovers(rs, key, k);
  }

  /** `Entries` sums the totals the same way `SumTotals` does. */
  lemma {:induction false} EntriesSum<K(!new)>(keys: seq<K>, m: map<K, Counts>)
    requires forall k :: k in keys ==> k in m
    ensures SumBy(Entries(keys, m), TotalOf) == SumTotals(keys, m)
    decreases |keys|
  {
    if |keys| > 0 {
      var init := keys[..|keys| - 1];
      var last := keys[|keys| - 1];
      EntriesSum(init, m);
      assert Entries(keys, m) == Entries(init, m) + [MakeStats(last, m[last])];
      SumByAppend(Entries(init, m), [MakeStats(last, m[last])], TotalOf);
    }
  }

  /** The unsorted rows' totals add up to the number of records. */
  lemma TabulateTotal<K(!new)>(rs: seq<Record>, key: Record -> K)
    ensures SumBy(Tabulate(rs, key), TotalOf) == |rs|
  {
    var t := Group(rs, key);
    EntriesSum(t.keys, t.entries);
    GroupConservesTotal(rs, key);
  }

  // ---------------------------------------------------------------------------
  // The same properties after sorting, for either sort key.
  // ---------------------------------------------------------------------------

  /** The sorted rows are the unsorted rows, so each is still exact. */
  lemma SortedExact<K(!new), S>(rs: seq<Record>, key: Record -> K, sortKey: Stats<K> -> S, less: (S, S) -> bool)
    ensures forall e :: e in SortDesc(Tabulate(rs, key), sortKey, less) ==> Exact(rs, key, e)
  {
    var rows := Tabulate(rs, key);
    TabulateExact(rs, key);
    forall e | e in SortDesc(rows, sortKey, less) ensures Exact(rs, key, e) {
      assert e in multiset(SortDesc(rows, sortKey, less));
    }
  }

  /** Sorting keeps one row per key. */
  lemma SortedDistinct<K(!new), S>(rs: seq<Record>, key: Record -> K, sortKey: Stats<K> -> S, less: (S, S) -> bool)
    ensures DistinctBy(SortDesc(Tabulate(rs, key), sortKey, less), KeyOf)
  {
    TabulateDistinct(rs, key);
    SortKeepsDistinct(Tabulate(rs, key), sortKey, less, KeyOf);
  }

  /** After sorting there is still a row for exactly the keys that occur in the records. */
  lemma SortedCovers<K(!new), S>(rs: seq<Record>, key: Record -> K, sortKey: Stats<K> -> S, less: (S, S) -> bool, k: K)
    ensures (exists e :: e in SortDesc(Tabulate(rs, key), sortKey, less) && e.key == k) <==> Occurs(rs, key, k)
  {
    var rows := Tabulate(rs, key);
    var out := SortDesc(rows, sortKey, less);
    TabulateCovers(rs, key, k);
    if exists e :: e in out && e.key == k {
      var e :| e in out && e.key == k;
      assert e in multiset(out);
      var i :| 0 <= i < |rows| && rows[i] == e;
    }
    if Occurs(rs, key, k) {
      var i :| 0 <= i < |rows| && rows[i].key == k;
      assert rows[i] in multiset(rows);
      assert rows[i] in out;
    }
  }

  /** After sorting the totals still add up to the number of records. */
  lemma SortedTotal<K(!new), S>(rs: seq<Record>, key: Record -> K, sortKey: Stats<K> -> S, less: (S, S) -> bool)
    ensures SumBy(SortDesc(Tabulate(rs, key), sortKey, less), TotalOf) == |rs|
  {
    TabulateTotal(rs, key);
    SortKeepsSum(Tabulate(rs, key), sortKey, less, TotalOf);
  }

  // ---------------------------------------------------------------------------
  // The two aggregators.
  // ---------------------------------------------------------------------------

  /**
    Every row of `stats_by_subject` is exact for its subject: counts of that
    subject's records by category, at least one record, counts adding up to the
    total, and the rate the share of present and late records.
   */
  lemma SubjectRowsExact(rs: seq<Record>)
    ensures forall e :: e in StatsBySubject(rs) ==> Exact(rs, SubjectOf, e)
  {
    SortedExact(rs, SubjectOf, RateOf, RealLess);
  }

  /** `stats_by_subject` has exactly one row per distinct subject, and the totals add up to the record count. */
  lemma SubjectRowsCover(rs: seq<Record>)
    ensures DistinctBy(StatsBySubject(rs), KeyOf)
    ensures forall subject :: (exists e :: e in StatsBySubject(rs) && e.key == subject) <==> Occurs(rs, SubjectOf, subject)
    ensures SumBy(StatsBySubject(rs), TotalOf) == |rs|
  {
    SortedDistinct(rs, SubjectOf, RateOf, RealLess);
    SortedTotal(rs, SubjectOf, RateOf, RealLess);
    forall subject ensures (exists e :: e in StatsBySubject(rs) && e.key == subject) <==> Occurs(rs, SubjectOf, subject) {
      SortedCovers(rs, SubjectOf, RateOf, RealLess, subject);
    }
  }

  /**
    `stats_by_subject` is ordered by non-increasing rate, is a permutation of the
    per-subject rows in order of first occurrence, and rows with equal rates keep
    that order.
   */
  lemma SubjectRowsOrdered(rs: seq<Record>)
    ensures SortedDesc(StatsBySubject(rs), RateOf, RealLess)
    ensures forall i, j :: 0 <= i < j < |StatsBySubject(rs)| ==> StatsBySubject(rs)[i].rate >= StatsBySubject(rs)[j].rate
    ensures multiset(StatsBySubject(rs)) == multiset(Tabulate(rs, SubjectOf))
    ensures forall v :: WithKey(StatsBySubject(rs), RateOf, v) == WithKey(Tabulate(rs, SubjectOf), RateOf, v)
  {
    RealLessIsStrictWeakOrder();
    SortIsSorted(Tabulate(rs, SubjectOf), RateOf, RealLess);
    forall v ensures WithKey(StatsBySubject(rs), RateOf, v) == WithKey(Tabulate(rs, SubjectOf), RateOf, v) {
      SortIsStable(Tabulate(rs, SubjectOf), RateOf, RealLess, v);
    }
  }

  /**
    The subject order is the only one with those properties: any sequence of the
    per-subject rows in non-increasing rate order that keeps first-occurrence
    order among equal rates is `stats_by_subject`'s output.
   */
  lemma SubjectRowsUnique(rs: seq<Record>, out: seq<SubjectStats>)
    requires SortedDesc(out, RateOf, RealLess)
    requires forall v :: WithKey(out, RateOf, v) == WithKey(Tabulate(rs, SubjectOf), RateOf, v)
    ensures out == StatsBySubject(rs)
  {
    RealLessIsStrictWeakOrder();
    RealLessIsTrichotomous();
    forall v ensures WithKey(out, RateOf, v) == WithKey(Tabulate(rs, SubjectOf), RateOf, v) {
    }
    SortIsUnique(Tabulate(rs, SubjectOf), out, RateOf, RealLess);
  }

  /** Every row of `stats_by_student_subject` is exact for its (student, subject) pair. */
  lemma StudentSubjectRowsExact(rs: seq<Record>)
    ensures forall e :: e in StatsByStudentSubject(rs) ==> Exact(rs, StudentSubjectOf, e)
  {
    SortedExact(rs, StudentSubjectOf, SubjectRateOf, PairLess);
  }

  /** `stats_by_student_subject` has exactly one row per distinct pair, and the totals add up to the record count. */
  lemma StudentSubjectRowsCover(rs: seq<Record>)
    ensures DistinctBy(StatsByStudentSubject(rs), KeyOf)
    ensures forall pair :: (exists e :: e in StatsByStudentSubject(rs) && e.key == pair) <==> Occurs(rs, StudentSubjectOf, pair)
    ensures SumBy(StatsByStudentSubject(rs), TotalOf) == |rs|
  {
    SortedDistinct(rs, StudentSubjectOf, SubjectRateOf, PairLess);
    SortedTotal(rs, StudentSubjectOf, SubjectRateOf, PairLess);
    forall pair ensures (exists e :: e in StatsByStudentSubject(rs) && e.key == pair) <==> Occurs(rs, StudentSubjectOf, pair) {
      SortedCovers(rs, StudentSubjectOf, SubjectRateOf, PairLess, pair);
    }
  }

  /**
    `stats_by_student_subject` is ordered by non-increasing `(subject, rate)`, is
    a permutation of the per-pair rows, and rows with equal sort keys keep their
    order of first occurrence.
   */
  lemma StudentSubjectRowsOrdered(rs: seq<Record>)
    ensures SortedDesc(StatsByStudentSubject(rs), SubjectRateOf, PairLess)
    ensures multiset(StatsByStudentSubject(rs)) == multiset(Tabulate(rs, StudentSubjectOf))
    ensures forall v :: WithKey(StatsByStudentSubject(rs), SubjectRateOf, v) == WithKey(Tabulate(rs, StudentSubjectOf), SubjectRateOf, v)
  {
    PairLessIsStrictWeakOrder();
    SortIsSorted(Tabulate(rs, StudentSubjectOf), SubjectRateOf, PairLess);
    forall v ensures WithKey(StatsByStudentSubject(rs), SubjectRateOf, v) == WithKey(Tabulate(rs, StudentSubjectOf), SubjectRateOf, v) {
      SortIsStable(Tabulate(rs, StudentSubjectOf), SubjectRateOf, PairLess, v);
    }
  }

  /**
    Likewise the student-subject order is the only stable non-increasing order of
    the per-pair rows on `(subject, rate)`.
   */
  lemma StudentSubjectRowsUnique(rs: seq<Record>, out: seq<StudentSubjectStats>)
    requires SortedDesc(out, SubjectRateOf, PairLess)
    requires forall v :: WithKey(out, SubjectRateOf, v) == WithKey(Tabulate(rs, StudentSubjectOf), SubjectRateOf, v)
    ensures out == StatsByStudentSubject(rs)
  {
    PairLessIsStrictWeakOrder();
    PairLessIsTrichotomous();
    SortIsUnique(Tabulate(rs, StudentSubjectOf), out, SubjectRateOf, PairLess);
  }

  /**
    What the `(subject, rate)` order means for the student-subject rows: subjects
    appear in non-increasing string order, the rows of one subject are contiguous,
    and within a subject the rate does not increase.
   */
  lemma StudentSubjectGrouped(rs: seq<Record>)
    ensures var out := StatsByStudentSubject(rs);
      forall i, j :: 0 <= i < j < |out| ==> !StrLess(out[i].key.1, out[j].key.1)
    ensures var out := StatsByStudentSubject(rs);
      forall i, j :: 0 <= i < j < |out| && out[i].key.1 == out[j].key.1 ==> out[i].rate >= out[j].rate
    ensures var out := StatsByStudentSubject(rs);
      forall i, j, m :: 0 <= i < j < m < |out| && out[i].key.1 == out[m].key.1 ==> out[j].key.1 == out[i].key.1
  {
    var out := StatsByStudentSubject(rs);
    StudentSubjectRowsOrdered(rs);
    StrLessIsStrictTotalOrder();
    forall i, j | 0 <= i < j < |out| ensures !StrLess(out[i].key.1, out[j].key.1) {
      assert !PairLess(SubjectRateOf(out[i]), SubjectRateOf(out[j]));
    }
    forall i, j, m | 0 <= i < j < m < |out| && out[i].key.1 == out[m].key.1 ensures out[j].key.1 == out[i].key.1 {
      assert !StrLess(out[i].key.1, out[j].key.1);
      assert !StrLess(out[j].key.1, out[m].key.1);
    }
  }
}
