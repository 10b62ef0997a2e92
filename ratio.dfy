/**
 * Percentages as the core computes them, `(part / whole) * 100`, over exact reals.
 */
module Ratio {

  function Percent(part: nat, whole: nat): (p: real)
    requires whole > 0
  {
    (part as real / whole as real) * 100.0
  }

  /** A part of a whole is between 0 and 100 percent of it, 0 exactly for no part and 100 exactly for all of it. */
  lemma {:induction false} PercentBounds(part: nat, whole: nat)
    requires 0 < whole && part <= whole
    ensures 0.0 <= Percent(part, whole) <= 100.0
    ensures Percent(part, whole) * whole as real == 100.0 * part as real
    ensures Percent(part, whole) == 0.0 <==> part == 0
    ensures Percent(part, whole) == 100.0 <==> part == whole
  {
    var q := part as real / whole as real;
    assert q * whole as real == part as real;
    assert q <= 1.0;
    if q == 1.0 {
      assert part as real == whole as real;
    }
  }

  /** A mean (`sum / count`) times the count gives the sum back, and lies between any bounds of the values. */
  lemma {:induction false} MeanBounds(total: real, count: nat, lo: real, hi: real)
    requires count > 0
    requires count as real * lo <= total <= count as real * hi
    ensures (total / count as real) * count as real == total
    ensures lo <= total / count as real <= hi
  {
    var n := count as real;
    var m := total / n;
    assert m * n == total;
    assert n * lo <= n * m <= n * hi;
  }

  /** The same for an integer sum and integer bounds. */
  lemma {:induction false} MeanBoundsInt(total: int, count: nat, lo: int, hi: int)
    requires count > 0
    requires count * lo <= total <= count * hi
    ensures lo as real <= total as real / count as real <= hi as real
  {
    assert (count * lo) as real == count as real * lo as real;
    assert (count * hi) as real == count as real * hi as real;
    MeanBounds(total as real, count, lo as real, hi as real);
  }
}
