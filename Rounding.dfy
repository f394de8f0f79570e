/** Exact model of `Math.round(part / whole * 100)` on naturals.
    `Math.round` rounds to the nearest integer and sends halves upwards, so the
    value rendered is the integer r with r <= 100 * part / whole + 1/2 < r + 1. */
module Rounding {

  /** The percentage `part / whole`, rounded half up to a whole number. */
  function RoundedPercent(part: nat, whole: nat): (r: nat)
    requires whole > 0
    ensures 2 * whole * r <= 200 * part + whole < 2 * whole * (r + 1)
  {
    var r := (200 * part + whole) / (2 * whole);
    DivBounds(200 * part + whole, 2 * whole);
    assert 2 * whole * r == r * (2 * whole);
    r
  }

  lemma DivBounds(x: nat, d: nat)
    requires d > 0
    ensures (x / d) * d <= x < (x / d) * d + d
  {
  }

  /** The two inequalities of RoundedPercent pick out a single integer. */
  lemma RoundedPercentUnique(part: nat, whole: nat, r: nat)
    requires whole > 0
    requires 2 * whole * r <= 200 * part + whole < 2 * whole * (r + 1)
    ensures r == RoundedPercent(part, whole)
  {
    var q := RoundedPercent(part, whole);
    if r < q {
      MulMonotone(2 * whole, r + 1, q);
    } else if q < r {
      MulMonotone(2 * whole, q + 1, r);
    }
  }

  lemma MulMonotone(k: nat, a: nat, b: nat)
    requires a <= b
    ensures k * a <= k * b
  {
  }

  /** A part no larger than the whole never shows more than 100 %. */
  lemma RoundedPercentAtMost100(part: nat, whole: nat)
    requires 0 < whole && part <= whole
    ensures RoundedPercent(part, whole) <= 100
  {
    var r := RoundedPercent(part, whole);
    if r > 100 {
      MulMonotone(2 * whole, 101, r);
      assert false;
    }
  }

  /** The whole shows exactly 100 %. */
  lemma RoundedPercentOfWhole(whole: nat)
    requires whole > 0
    ensures RoundedPercent(whole, whole) == 100
  {
    RoundedPercentUnique(whole, whole, 100);
  }

  /** Nothing shows 0 %. */
  lemma RoundedPercentOfNothing(whole: nat)
    requires whole > 0
    ensures RoundedPercent(0, whole) == 0
  {
    RoundedPercentUnique(0, whole, 0);
  }

  /** For a fixed whole, a larger part never shows a smaller percentage. */
  lemma RoundedPercentMonotone(part1: nat, part2: nat, whole: nat)
    requires whole > 0 && part1 <= part2
    ensures RoundedPercent(part1, whole) <= RoundedPercent(part2, whole)
  {
    var r1, r2 := RoundedPercent(part1, whole), RoundedPercent(part2, whole);
    if r2 < r1 {
      MulMonotone(2 * whole, r2 + 1, r1);
      assert false;
    }
  }
}
