/** The status normaliser (`norm_status`) and the four-way classification the aggregators apply to its output. */
module Status {
  import opened Wrappers
  import opened Text

  /** The canonical spellings `norm_status` returns for the three recognised statuses. */
  const PRESENT: string := "present"
  const ABSENT: string := "absent"
  const LATE: string := "late"

  /** The stripped, lower-cased form of a cell that `norm_status` matches against. */
  function Canonical(raw: string): string {
    Lower(Strip(raw))
  }

  /** The lower-case spellings accepted for each recognised status. */
  predicate SpellsPresent(t: string) { t == "present" || t == "p" }
  predicate SpellsAbsent(t: string) { t == "absent" || t == "a" }
  predicate SpellsLate(t: string) { t == "late" || t == "l" }

  /** A string `norm_status` may return: no surrounding whitespace and no upper-case letters. */
  predicate Normalised(s: string) {
    Stripped(s) && IsLower(s)
  }

  /** The three canonical spellings are themselves normalised and non-empty. */
  lemma SpellingsNormalised()
    ensures Normalised(PRESENT) && Normalised(ABSENT) && Normalised(LATE)
    ensures |PRESENT| > 0 && |ABSENT| > 0 && |LATE| > 0
  {
    assert PRESENT[0] == 'p' && PRESENT[|PRESENT| - 1] == 't';
    assert ABSENT[0] == 'a' && ABSENT[|ABSENT| - 1] == 't';
    assert LATE[0] == 'l' && LATE[|LATE| - 1] == 'e';
  }

  /** The canonical form is normalised, and empty exactly when the cell is blank. */
  lemma CanonicalFacts(s: string)
    ensures Normalised(Canonical(s))
    ensures |Canonical(s)| == 0 <==> AllSpace(s)
  {
    LowerIsLower(Strip(s));
    LowerKeepsStripped(Strip(s));
    StripEmpty(s);
  }

  /**
    Maps a raw status cell to "present", "absent" or "late", accepting any case,
    surrounding whitespace and the one-letter forms p, a and l; any other text comes
    back stripped and lower-cased, and a missing cell becomes "".
   */
  function NormStatus(raw: Option<string>): (r: string)
    ensures raw.None? ==> r == ""
    ensures r == PRESENT <==> raw.Some? && SpellsPresent(Canonical(raw.value))
    ensures r == ABSENT <==> raw.Some? && SpellsAbsent(Canonical(raw.value))
    ensures r == LATE <==> raw.Some? && SpellsLate(Canonical(raw.value))
    ensures raw.Some? && r != PRESENT && r != ABSENT && r != LATE ==> r == Canonical(raw.value)
    ensures Normalised(r)
  {
    match raw
    case None => ""
    case Some(s) =>
      var t := Canonical(s);
      CanonicalFacts(s);
      SpellingsNormalised();
      if SpellsPresent(t) then PRESENT
      else if SpellsAbsent(t) then ABSENT
      else if SpellsLate(t) then LATE
      else t
  }

  /** The normaliser yields "" exactly for a missing cell or one holding only whitespace. */
  lemma NormStatusEmpty(raw: Option<string>)
    ensures NormStatus(raw) == "" <==> raw.None? || AllSpace(raw.value)
  {
    if raw.Some? {
      CanonicalFacts(raw.value);
      SpellingsNormalised();
    }
  }

  /** Normalising an already normalised string changes nothing. */
  lemma NormalisedIsCanonical(s: string)
    requires Normalised(s)
    ensures Canonical(s) == s
  {
    StripStripped(s);
    LowerOfLower(s);
  }

  /** `norm_status` is idempotent: feeding its result back in returns the same result. */
  lemma NormStatusIdempotent(raw: Option<string>)
    ensures NormStatus(Some(NormStatus(raw))) == NormStatus(raw)
  {
    NormalisedIsCanonical(NormStatus(raw));
  }

  /** The closed classification the aggregators count by. */
  datatype Category = Present | Late | Absent | Other

  /** Which counter a normalised status increments; anything unrecognised is `Other`. */
  function Classify(status: string): (c: Category)
    ensures c == Present <==> status == PRESENT
    ensures c == Late <==> status == LATE
    ensures c == Absent <==> status == ABSENT
  {
    if status == PRESENT then Present
    else if status == LATE then Late
    else if status == ABSENT then Absent
    else Other
  }

  /** Every raw spelling of a recognised status is classified as that status. */
  lemma ClassifyNormStatus(raw: string)
    ensures SpellsPresent(Canonical(raw)) <==> Classify(NormStatus(Some(raw))) == Present
    ensures SpellsLate(Canonical(raw)) <==> Classify(NormStatus(Some(raw))) == Late
    ensures SpellsAbsent(Canonical(raw)) <==> Classify(NormStatus(Some(raw))) == Absent
  {
  }
}
