# Attendance aggregation in Dafny

A model of the aggregation core of a small attendance reporting script
(`main.py`). The script reads a CSV of attendance records and writes statistics.
The model covers everything between the parsed CSV cells and the formatted output:

- **Status normalisation** (`norm_status`): recognised statuses are accepted in any
  case, with surrounding whitespace, and in their one-letter forms. Anything else
  is returned trimmed and lower-cased. A missing cell becomes "".
- **The row reader's filter** (`read_attendance_rows`): the student id and subject
  are trimmed and the status is normalised. Rows missing any of the three are
  dropped. The reader fails when no row survives.
- **The two aggregators** (`stats_by_subject` and `stats_by_student_subject`):
  - Records are folded into an insertion-ordered dictionary of counters, keyed
    by subject or by (student, subject).
  - Each entry becomes a row whose `attendance_rate` is (present + late) / total.
  - The rows are stably sorted in descending order. The subject rows sort on
    the rate; the student-subject rows sort on the pair (subject, rate).
- **The report's selection** (`write_report`): the first three subject rows
  ("most attended") and the last three, reversed ("least attended").
- **`main` without files**: reading, both aggregations and the report.

Modules, in dependency order:

| file | module | contents |
|---|---|---|
| `wrappers.dfy` | `Wrappers` | `Option` and `Result` |
| `text.dfy` | `Text` | `str.strip()` and `str.lower()` on ASCII |
| `status.dfy` | `Status` | `norm_status` and the four-way classification |
| `seqs.dfy` | `Seqs` | filtering, summing, distinctness |
| `rows.dfy` | `Rows` | raw rows, records, the reader |
| `counters.dfy` | `Counters` | the counter record and the rate |
| `grouping.dfy` | `Grouping` | the insertion-ordered dictionary fold and an independent per-key count |
| `sorting.dfy` | `Sorting` | a stable descending insertion sort and its properties |
| `ordering.dfy` | `Ordering` | Python's `<` on reals, strings and `(str, float)` tuples |
| `aggregate.dfy` | `Aggregate` | both aggregators and their output properties |
| `report.dfy` | `Report` | the report's slices and the whole pipeline |
| `scenario.dfy` | `Scenario` | a worked example |

The dictionary is modelled as a key list in first-insertion order plus a map.
Every statement about the fold is checked against an independent definition:
`Grouping.Expected` counts, for one key, the records carrying it, by category.

Python's `list.sort(reverse=True)` is modelled as `Sorting.SortDesc`. It is a
stable sort into non-increasing order: it never places x before y when x < y,
and equal keys keep their input order. `Sorting.SortIsUnique` proves that this
ordering is unique, so every such sort produces the same result.

## Model

| member | source | states |
|---|---|---|
| Status.NormStatus | main.py:11-22 | A missing cell gives "". The result is "present", "absent" or "late" exactly when the stripped, lower-cased cell is one of that status's two spellings. Otherwise the result is the stripped, lower-cased cell. Every result is trimmed and lower-case. |
| Status.NormStatusEmpty | main.py:12-14 | The result is empty exactly when the cell is missing or holds only whitespace. |
| Status.NormStatusIdempotent | main.py:11-22 | Normalising an already normalised status returns it unchanged. |
| Status.ClassifyNormStatus | main.py:60-67 | A raw cell is counted as present, late or absent exactly when it spells that status. |
| Status.Classify | main.py:60-67 | Each counter branch is taken exactly for its canonical status. Every other string falls to `other`. |
| Text.StripIsInfix | main.py:14 | The stripped string is a contiguous slice of the input. Only whitespace was removed on either side. |
| Text.StripEmpty | main.py:33-34 | A cell strips to "" exactly when it is all whitespace. |
| Text.LowerOfLower | main.py:14 | A string with no upper-case letter is left unchanged by lower-casing. Since the result of lower-casing has no upper-case letter, lower-casing twice equals lower-casing once. |
| Rows.Convert | main.py:33-41 | A row yields a record exactly when all three cells carry a value. The record holds the trimmed id, the trimmed subject and the normalised status. |
| Rows.FilterIsSubsequence | main.py:32-41 | The kept records are the converted usable rows, in input order, with none left out. |
| Rows.FilterAppend | main.py:32-41 | Filtering distributes over concatenation. Whether a row is kept depends on that row alone. |
| Rows.FilterWellFormed | main.py:38-41 | Every kept record has a non-empty trimmed id and subject. Its status is non-empty and normalised. |
| Rows.FilterEmpty | main.py:43-44 | No record survives exactly when no row is usable. |
| Rows.ReadAttendanceRows | main.py:29-46 | The reader fails exactly when no row is usable. Otherwise it returns the non-empty filtered records in input order. |
| Counters.Tally | main.py:58-67 | Counting one record raises the total and that record's category counter by one, and nothing else. The counters keep summing to the total. |
| Counters.RateIsShare | main.py:73 | On a non-empty group: rate × total = present + late, and the rate is in [0, 1]. The rate is 1 exactly when nobody was absent or other, and 0 exactly when nobody was present or late. |
| Grouping.Add | main.py:57-67 | Counting into the dictionary creates a zero counter for a new key and appends the key to the key order. Existing keys keep their position, and other entries are unchanged. |
| Grouping.GroupIsExact | main.py:52-67 | After the fold, a key has an entry exactly when some record carries it. That entry equals the independent per-key count. |
| Grouping.GroupCovers | main.py:52-67 | A key is in the dictionary exactly when it occurs among the records. |
| Grouping.GroupConservesTotal | main.py:52-67 | The totals over all dictionary entries add up to the number of records. |
| Grouping.GroupKeysInFirstOccurrenceOrder | main.py:52-57 | The dictionary lists its keys in order of first occurrence. Every listed key occurs among the records, and an earlier key first occurs before a later one. |
| Grouping.ExpectedConsistent | main.py:58-67 | In the independent count, present + late + absent + other = total. |
| Grouping.SelectNonEmpty | main.py:57 | A key's group is non-empty exactly when the key occurs, so no empty group is ever created. |
| Aggregate.TabulateInFirstOccurrenceOrder | main.py:69-74 | Before sorting, the rows follow the dictionary's insertion order. A row's key first occurs among the records before the key of any later row. |
| Aggregate.SubjectRowsExact | main.py:50-77 | Every subject row holds exactly its subject's counts, with total ≥ 1. Its rate is (present + late) / total, in [0, 1]. The 0.0 fallback is never taken. |
| Aggregate.SubjectRowsCover | main.py:52-74 | There is one row per distinct subject: no subject twice, none missing, none invented. The row totals add up to the record count. |
| Aggregate.SubjectRowsOrdered | main.py:76 | Subject rows are in non-increasing rate order. They are a permutation of the unsorted per-subject rows. Rows with equal rates keep the unsorted order, which is first-occurrence order (`Aggregate.TabulateInFirstOccurrenceOrder`). |
| Aggregate.SubjectRowsUnique | main.py:76 | Any permutation with these properties equals the subject output. |
| Aggregate.StudentSubjectRowsExact | main.py:81-119 | Every student-subject row holds exactly its pair's counts, with total ≥ 1. Its rate is (present + late) / total, in [0, 1]. |
| Aggregate.StudentSubjectRowsCover | main.py:83-115 | There is one row per distinct (student, subject) pair. The totals add up to the record count. |
| Aggregate.StudentSubjectRowsOrdered | main.py:118 | Rows are in non-increasing (subject, rate) order, compared as Python compares tuples. They are a permutation of the per-pair rows. Rows with equal keys keep the unsorted order, which is first-occurrence order. |
| Aggregate.StudentSubjectRowsUnique | main.py:118 | Any permutation with these properties equals the student-subject output. |
| Aggregate.StudentSubjectGrouped | main.py:117-118 | Subjects appear in non-increasing string order, and each subject's rows are contiguous. Within a subject, the rate does not increase. |
| Sorting.SortIsSorted | main.py:76 | The descending sort leaves no element before a strictly greater one. |
| Sorting.SortIsStable | main.py:76 | For every key value, the elements with that key appear in input order. |
| Sorting.SortIsUnique | main.py:76 | A non-increasing sequence that keeps input order within each key value is the sort's result. |
| Sorting.SortKeepsSum | main.py:76 | Sorting does not change the sum of any per-element quantity. |
| Sorting.SortKeepsDistinct | main.py:76 | Sorting does not create duplicate keys. |
| Ordering.StrLessIsStrictTotalOrder | main.py:118 | Python's string `<` is asymmetric, transitive and total. |
| Ordering.PairLessIsStrictWeakOrder | main.py:118 | Tuple `<` on (subject, rate) is a strict weak order. |
| Report.MostAttended | main.py:138 | The "most attended" list has min(3, n) entries: the first entries of the subject rows. |
| Report.LeastAttended | main.py:142 | The "least attended" list has min(3, n) entries: the last entries of the subject rows, last first. |
| Report.ReportPicksExtremes | main.py:137-143 | On rate-sorted rows, "most attended" is in non-increasing rate order and no row outside it has a higher rate. "Least attended" is in non-decreasing rate order and no row outside it has a lower rate. |
| Report.RunPipeline | main.py:149-168 | The run fails exactly when no row is usable. Otherwise the subject table is the subject aggregator applied to the kept records, and the student-subject table is the student-subject aggregator applied to them. The report is built from the number of kept records (at least one) and the subject table. Both tables' totals add up to that count, and each report list has min(3, number of subjects) entries. |
| Scenario.OnlySubjectKey | main.py:52-57 | When every record has the same subject, every subject row is keyed by that subject. |
| Scenario.SingleSubject | main.py:50-77 | When every record has the same subject, the subject output is one row: that subject with its exact counts and rate. |
| Scenario.MathReport | main.py:50-77 | Three Math records, one each present, absent and late, give the single row Math with total 3, present 1, late 1, absent 1, other 0 and rate 2/3. |

## Left out

- File handling is not modelled, because it is I/O. This covers the existence
  check and `FileNotFoundError` (main.py:26-27), opening the file with its
  encoding, and CSV parsing (main.py:30-31). The reader takes already-parsed
  rows, with `None` for a missing cell.
- `write_csv` and the text and file output of `write_report` (main.py:123-146)
  are not modelled, because they are formatting and I/O. That includes the
  three-decimal rendering of the rate. Only the two lists the report selects are
  modelled.
- Directory creation and the console messages of `main` (main.py:150, 170-174)
  are I/O and are left out.
- Rate: the source divides in double-precision floating point. The model uses
  exact reals, so rounding is not modelled. Sorting on the rate also uses exact
  comparisons. Two groups whose exact rates differ but round to the same double
  would compare equal in the source and are ordered by the model.
- Text.Strip: only ASCII whitespace (and the separators 0x1C-0x1F) is removed.
  Python's `str.strip()` also removes Unicode whitespace such as U+0085 and U+00A0.
- Text.Lower: only A-Z are lower-cased. Python's `str.lower()` covers all of
  Unicode, including mappings that change a string's length.
- `str(s)` in `norm_status` (main.py:14) is the identity on strings. Cells are
  always strings or missing, so no other conversion is modelled.
- The source's dictionaries carry the key fields (`subject`, `student_id`) next
  to the counters. The model keeps them once, in the row's key.
- The rows of both aggregators are mutable dictionaries shared with the report.
  The model returns immutable values. Nothing mutates them after sorting, so
  nothing is lost.
