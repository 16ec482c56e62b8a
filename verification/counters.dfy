/** The per-group counter record of both aggregators, and the attendance rate computed from it. */
module Counters {
  import opened Status

  /** The counters `setdefault` creates for a new key: `total`, `present`, `late`, `absent`, `other`. */
  datatype Counts = Counts(total: nat, present: nat, late: nat, absent: nat, other: nat)

  const Zero: Counts := Counts(0, 0, 0, 0, 0)

  /** The counter a category is recorded in. */
  function Get(c: Counts, cat: Category): nat {
    match cat
    case Present => c.present
    case Late => c.late
    case Absent => c.absent
    case Other => c.other
  }

  /** The four status counters account for every counted record. */
  predicate Consistent(c: Counts) {
    c.present + c.late + c.absent + c.other == c.total
  }

  /**
    Counts one more record of category `cat`: the total and the matching counter
    go up by one, every other counter stays.
   */
  function Tally(c: Counts, cat: Category): (r: Counts)
    ensures r.total == c.total + 1
    ensures forall x: Category :: Get(r, x) == if x == cat then Get(c, x) + 1 else Get(c, x)
    ensures Consistent(c) ==> Consistent(r)
  {
    match cat
    case Present => c.(total := c.total + 1, present := c.present + 1)
    case Late => c.(total := c.total + 1, late := c.late + 1)
    case Absent => c.(total := c.total + 1, absent := c.absent + 1)
    case Other => c.(total := c.total + 1, other := c.other + 1)
  }

  /**
    `attendance_rate`: the share of records that are present or late, or 0 when
    nothing was counted. The source computes it in floating point; here it is exact.
   */
  function Rate(c: Counts): real {
    if c.total == 0 then 0.0 else (c.present + c.late) as real / c.total as real
  }

  /** A share `n / d` of a positive whole `d` with `0 <= n <= d`. */
  lemma ShareBounds(n: real, d: real)
    requires 0.0 <= n <= d && d > 0.0
    ensures n / d * d == n
    ensures 0.0 <= n / d <= 1.0
    ensures n / d == 1.0 <==> n == d
    ensures n / d == 0.0 <==> n == 0.0
  {
  }

  /**
    For a consistent, non-empty counter the rate is exactly (present + late) / total,
    so it lies between 0 and 1.
   */
  lemma RateIsShare(c: Counts)
    requires Consistent(c) && c.total >= 1
    ensures Rate(c) * c.total as real == (c.present + c.late) as real
    ensures 0.0 <= Rate(c) <= 1.0
    ensures Rate(c) == 1.0 <==> c.absent + c.other == 0
    ensures Rate(c) == 0.0 <==> c.present + c.late == 0
  {
    ShareBounds((c.present + c.late) as real, c.total as real);
  }
}
