/**
  A worked example: one subject with one present, one absent and one late
  record is reported as a single row with counts 3/1/1/1/0 and rate 2/3.
 */
module Scenario {
  import opened Status
  import opened Rows
  import opened Counters
  import opened Grouping
  import opened Seqs
  import opened Aggregate

  const R0: Record := Record("S1", "Math", PRESENT)
  const R1: Record := Record("S1", "Math", ABSENT)
  const R2: Record := Record("S2", "Math", LATE)

  /** The three statuses fall into their own categories. */
  lemma StatusesClassified()
    ensures Classify(R0.status) == Present
    ensures Classify(R1.status) == Absent
    ensures Classify(R2.status) == Late
  {
  }

  /** All three records are selected for "Math". */
  lemma MathSelected()
    ensures Select([R0, R1, R2], SubjectOf, "Math") == [R0, R1, R2]
  {
    assert [R0][..0] == [];
    assert Select([R0], SubjectOf, "Math") == [R0];
    assert [R0, R1][..1] == [R0];
    assert Select([R0, R1], SubjectOf, "Math") == [R0, R1];
    assert [R0, R1, R2][..2] == [R0, R1];
  }

  /** One record in each of the categories present, absent and late. */
  lemma MathCategories()
    ensures CountCat([R0, R1, R2], Present) == 1
    ensures CountCat([R0, R1, R2], Late) == 1
    ensures CountCat([R0, R1, R2], Absent) == 1
    ensures CountCat([R0, R1, R2], Other) == 0
  {
    StatusesClassified();
    forall cat ensures CountCat([R0], cat) == if cat == Present then 1 else 0 {
      assert [R0][..0] == [];
      assert [R0][0] == R0;
    }
    forall cat ensures CountCat([R0, R1], cat) == if cat == Present || cat == Absent then 1 else 0 {
      assert [R0, R1][..1] == [R0];
      assert [R0, R1][1] == R1;
    }
    forall cat ensures CountCat([R0, R1, R2], cat) == if cat == Other then 0 else 1 {
      assert [R0, R1, R2][..2] == [R0, R1];
      assert [R0, R1, R2][2] == R2;
    }
  }

  /** The independent count for "Math" over the three records. */
  lemma MathCounts()
    ensures Expected([R0, R1, R2], SubjectOf, "Math") == Counts(3, 1, 1, 1, 0)
  {
    MathSelected();
    MathCategories();
  }

  /** When every record has the same subject, every output row is keyed by it. */
  lemma OnlySubjectKey(rs: seq<Record>, subject: string)
    requires forall i :: 0 <= i < |rs| ==> rs[i].subject == subject
    ensures forall e :: e in StatsBySubject(rs) ==> e.key == subject
  {
    SubjectRowsCover(rs);
    forall e | e in StatsBySubject(rs) ensures e.key == subject {
      assert exists e' :: e' in StatsBySubject(rs) && e'.key == e.key;
      assert Occurs(rs, SubjectOf, e.key);
      var i :| 0 <= i < |rs| && SubjectOf(rs[i]) == e.key;
    }
  }

  /** Records that all share one subject make a single row for that subject. */
  lemma SingleSubject(rs: seq<Record>, subject: string)
    requires |rs| > 0
    requires forall i :: 0 <= i < |rs| ==> rs[i].subject == subject
    ensures StatsBySubject(rs) == [MakeStats(subject, Expected(rs, SubjectOf, subject))]
  {
    var out := StatsBySubject(rs);
    OnlySubjectKey(rs, subject);
    assert |out| <= 1 by {
      SubjectRowsCover(rs);
      assert forall i :: 0 <= i < |out| ==> KeyOf(out[i]) == subject;
    }
    assert |out| >= 1 by {
      SubjectRowsCover(rs);
      assert Occurs(rs, SubjectOf, subject) by {
        assert SubjectOf(rs[0]) == subject;
      }
    }
    SubjectRowsExact(rs);
    assert out[0] in out;
    assert Exact(rs, SubjectOf, out[0]);
    assert out == [out[0]];
  }

  /** `stats_by_subject` on the three records is exactly one row: Math, 3/1/1/1/0, rate 2/3. */
  lemma MathReport()
    ensures StatsBySubject([R0, R1, R2]) == [Stats("Math", Counts(3, 1, 1, 1, 0), 2.0 / 3.0)]
  {
    MathCounts();
    SingleSubject([R0, R1, R2], "Math");
  }
}
