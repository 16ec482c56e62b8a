/**
  The selection logic of `write_report` and the pipeline of `main`, without the
  file handling: read the rows, aggregate twice, and pick the report's extremes.
 */
module Report {
  import opened Wrappers
  import opened Seqs
  import opened Rows
  import opened Counters
  import opened Sorting
  import opened Ordering
  import opened Aggregate

  /** How many subjects each of the report's two lists shows at most. */
  const LISTED: nat := 3

  function Min(a: int, b: int): int {
    if a <= b then a else b
  }

  /** Where Python's slice `s[start:]` begins in a sequence of length `n`, negative `start` counting from the end. */
  function SliceStart(n: nat, start: int): (i: nat)
    ensures i <= n
  {
    if start < 0 then (if n + start < 0 then 0 else n + start)
    else if start > n then n
    else start
  }

  function Reverse<T>(s: seq<T>): (r: seq<T>)
    ensures |r| == |s|
    ensures forall i :: 0 <= i < |s| ==> r[i] == s[|s| - 1 - i]
    decreases |s|
  {
    if |s| == 0 then [] else Reverse(s[1..]) + [s[0]]
  }

  /** `subject_rows[:3]`: the first three rows, or all of them when there are fewer. */
  function MostAttended<T>(rows: seq<T>): (r: seq<T>)
    ensures |r| == Min(LISTED, |rows|)
    ensures forall i :: 0 <= i < |r| ==> r[i] == rows[i]
  {
    rows[..Min(LISTED, |rows|)]
  }

  /** `reversed(subject_rows[-3:])`: the last three rows, last first, or all of them when there are fewer. */
  function LeastAttended<T>(rows: seq<T>): (r: seq<T>)
    ensures |r| == Min(LISTED, |rows|)
    ensures forall i :: 0 <= i < |r| ==> r[i] == rows[|rows| - 1 - i]
  {
    var tail := rows[SliceStart(|rows|, -(LISTED as int))..];
    assert forall i :: 0 <= i < |tail| ==> tail[i] == rows[|rows| - |tail| + i];
    Reverse(tail)
  }

  /** The content of `report.txt`: the record count and the two lists, before formatting. */
  datatype Summary = Summary(processed: nat, most: seq<SubjectStats>, least: seq<SubjectStats>)

  function WriteReport(totalRows: nat, subjectRows: seq<SubjectStats>): Summary {
    Summary(totalRows, MostAttended(subjectRows), LeastAttended(subjectRows))
  }

  /**
    On rows sorted by non-increasing rate, the "most attended" list is in
    non-increasing rate order and no row left out of it has a higher rate; the
    "least attended" list is in non-decreasing rate order (worst first) and no
    row left out of it has a lower rate.
   */
  lemma ReportPicksExtremes(subjectRows: seq<SubjectStats>)
    requires SortedDesc(subjectRows, RateOf, RealLess)
    ensures var most := MostAttended(subjectRows);
      && (forall i, j :: 0 <= i < j < |most| ==> most[i].rate >= most[j].rate)
      && (forall i, j :: 0 <= i < |most| && |most| <= j < |subjectRows| ==> most[i].rate >= subjectRows[j].rate)
    ensures var least := LeastAttended(subjectRows);
      && (forall i, j :: 0 <= i < j < |least| ==> least[i].rate <= least[j].rate)
      && (forall i, j :: 0 <= i < |least| && 0 <= j < |subjectRows| - |least| ==> least[i].rate <= subjectRows[j].rate)
  {
    var n := |subjectRows|;
    forall i, j | 0 <= i < j < n ensures subjectRows[i].rate >= subjectRows[j].rate {
      assert !RealLess(RateOf(subjectRows[i]), RateOf(subjectRows[j]));
    }
  }

  /** The outputs of one run: the two CSV tables and the report. */
  datatype Outputs = Outputs(bySubject: seq<SubjectStats>, byStudentSubject: seq<StudentSubjectStats>, report: Summary)

  /**
    `main` without directories, files and printing: read the parsed rows,
    aggregate them both ways, and build the report from the subject table.
    It fails, producing nothing, exactly when no row is usable.
   */
  method RunPipeline(rows: seq<RawRow>) returns (result: Result<Outputs, ReadError>)
    ensures result.Failure? <==> forall i :: 0 <= i < |rows| ==> !Usable(rows[i])
    ensures result.Success? ==> result.value.report.processed == |FilterRows(rows)| > 0
    ensures result.Success? ==>
      var records := FilterRows(rows);
      result.value == Outputs(StatsBySubject(records), StatsByStudentSubject(records), WriteReport(|records|, StatsBySubject(records)))
    ensures result.Success? ==> SumBy(result.value.bySubject, TotalOf) == result.value.report.processed
    ensures result.Success? ==> SumBy(result.value.byStudentSubject, TotalOf) == result.value.report.processed
    ensures result.Success? ==> |result.value.report.most| == Min(LISTED, |result.value.bySubject|)
    ensures result.Success? ==> |result.value.report.least| == Min(LISTED, |result.value.bySubject|)
  {
    var records :- ReadAttendanceRows(rows);
    var subjectRows := StatsBySubject(records);
    var pairRows := StatsByStudentSubject(records);
    SubjectRowsCover(records);
    StudentSubjectRowsCover(records);
    return Success(Outputs(subjectRows, pairRows, WriteReport(|records|, subjectRows)));
  }
}
