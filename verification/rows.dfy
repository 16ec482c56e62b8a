/**
  The pure part of the row reader (`read_attendance_rows`): already-parsed CSV
  cells are trimmed, the status is normalised, and rows missing any of the three
  required values are skipped.
 */
module Rows {
  import opened Wrappers
  import opened Text
  import opened Status
  import opened Seqs

  /**
    One parsed CSV row, reduced to the three columns the reader looks up.
    A cell is `None` when the column is absent from the header or the row is short.
   */
  datatype RawRow = RawRow(studentId: Option<string>, subject: Option<string>, status: Option<string>)

  /** An attendance record as the aggregators receive it. */
  datatype Record = Record(studentId: string, subject: string, status: string)

  /** The reader's error when no row survives filtering. */
  datatype ReadError = NoUsableRows

  /** A cell that carries a value: present and not all whitespace. */
  predicate Filled(cell: Option<string>) {
    cell.Some? && !AllSpace(cell.value)
  }

  /** `(row.get(column) or "").strip()`: a missing cell reads as the empty string. */
  function Field(cell: Option<string>): (r: string)
    ensures Stripped(r)
    ensures |r| == 0 <==> !Filled(cell)
  {
    StripEmpty(cell.GetOr(""));
    Strip(cell.GetOr(""))
  }

  /** A row the reader keeps: all three required cells carry a value. */
  predicate Usable(row: RawRow) {
    Filled(row.studentId) && Filled(row.subject) && Filled(row.status)
  }

  /** What every record the reader emits looks like. */
  predicate WellFormed(rec: Record) {
    && |rec.studentId| > 0 && Stripped(rec.studentId)
    && |rec.subject| > 0 && Stripped(rec.subject)
    && |rec.status| > 0 && Normalised(rec.status)
  }

  /**
    The per-row step of the reader: the trimmed id and subject and the normalised
    status, or nothing when any of the three comes out empty.
   */
  function Convert(row: RawRow): (r: Option<Record>)
    ensures r.Some? <==> Usable(row)
    ensures r.Some? ==> WellFormed(r.value)
    ensures r.Some? ==> r.value.status == NormStatus(row.status)
    ensures r.Some? ==> Strip(row.studentId.value) == r.value.studentId && Strip(row.subject.value) == r.value.subject
  {
    var sid := Field(row.studentId);
    var subject := Field(row.subject);
    var status := NormStatus(row.status);
    NormStatusEmpty(row.status);
    if |sid| == 0 || |subject| == 0 || |status| == 0 then None
    else Some(Record(sid, subject, status))
  }

  /** The records kept from `rows`, in input order. */
  function FilterRows(rows: seq<RawRow>): (r: seq<Record>)
    ensures |r| <= |rows|
  {
    FilterMap(rows, Convert)
  }

  /** Every kept record has a non-empty trimmed id and subject and a non-empty normalised status. */
  lemma FilterWellFormed(rows: seq<RawRow>)
    ensures forall k :: 0 <= k < |FilterRows(rows)| ==> WellFormed(FilterRows(rows)[k])
  {
    FilterMapAll(rows, Convert, WellFormed);
  }

  /** Whether a row is kept depends on that row alone, and kept records stay in input order. */
  lemma FilterAppend(a: seq<RawRow>, b: seq<RawRow>)
    ensures FilterRows(a + b) == FilterRows(a) + FilterRows(b)
  {
    FilterMapAppend(a, b, Convert);
  }

  /**
    The kept records are the converted usable rows in input order: `idx` lists the
    positions of the rows that survive, increasing, and every usable row is among them.
   */
  lemma FilterIsSubsequence(rows: seq<RawRow>) returns (idx: seq<nat>)
    ensures |idx| == |FilterRows(rows)|
    ensures forall k :: 0 <= k < |idx| ==> idx[k] < |rows| && Convert(rows[idx[k]]) == Some(FilterRows(rows)[k])
    ensures forall k, m :: 0 <= k < m < |idx| ==> idx[k] < idx[m]
    ensures forall i :: 0 <= i < |rows| && Usable(rows[i]) ==> i in idx
  {
    idx := FilterMapIsSubsequence(rows, Convert);
  }

  /** No record survives exactly when no row is usable. */
  lemma FilterEmpty(rows: seq<RawRow>)
    ensures |FilterRows(rows)| == 0 <==> forall i :: 0 <= i < |rows| ==> !Usable(rows[i])
  {
    FilterMapEmpty(rows, Convert);
  }

  /**
    `read_attendance_rows` after the file has been parsed: one pass over the rows,
    keeping each usable one, and an error if none was usable.
   */
  method ReadAttendanceRows(rows: seq<RawRow>) returns (result: Result<seq<Record>, ReadError>)
    ensures result.Failure? <==> forall i :: 0 <= i < |rows| ==> !Usable(rows[i])
    ensures result.Success? ==> result.value == FilterRows(rows) && |result.value| > 0
  {
    var out: seq<Record> := [];
    for i := 0 to |rows|
      invariant out == FilterRows(rows[..i])
    {
      var sid := Field(rows[i].studentId);
      var subject := Field(rows[i].subject);
      var status := NormStatus(rows[i].status);
      assert rows[..i + 1][..i] == rows[..i];
      if |sid| == 0 || |subject| == 0 || |status| == 0 {
        continue;
      }
      out := out + [Record(sid, subject, status)];
    }
    assert rows[..|rows|] == rows;
    FilterEmpty(rows);
    if |out| == 0 {
      return Failure(NoUsableRows);
    }
    return Success(out);
  }
}
