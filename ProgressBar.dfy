/** The progress indicator: the filled percentage of the bar and the
    "current of total" counter below it. */
module ProgressBar {
  import Rounding

  /** The JavaScript number `Math.round(current / total * 100)` evaluates to:
      a whole number, or, when `total` is 0, `Infinity` or `NaN`. */
  datatype Shown = Number(value: nat) | Infinity | NaN

  /** The width of the filled bar, in percent. */
  function Percentage(current: nat, total: nat): (r: Shown)
    ensures total > 0 ==>
      r.Number? && 2 * total * r.value <= 200 * current + total < 2 * total * (r.value + 1)
    ensures total == 0 ==> r == (if current > 0 then Infinity else NaN)
  {
    if total > 0 then Number(Rounding.RoundedPercent(current, total))
    else if current > 0 then Infinity
    else NaN
  }

  /** A digit's character. */
  function DigitChar(d: nat): (c: char)
    requires d < 10
    ensures '0' <= c <= '9'
  {
    (48 + d) as char
  }

  predicate IsDigits(s: string)
  {
    forall i :: 0 <= i < |s| ==> '0' <= s[i] <= '9'
  }

  /** The decimal numeral JavaScript renders for an integer `n` below 10^21
      (from there on it switches to exponent form): digits only, and no
      leading zero unless the number is 0 itself. */
  function Decimal(n: nat): (s: string)
    ensures |s| > 0 && IsDigits(s)
    ensures s[0] == '0' ==> n == 0
    decreases n
  {
    if n < 10 then [DigitChar(n)] else Decimal(n / 10) + [DigitChar(n % 10)]
  }

  /** The number a string of digits denotes. */
  function DecimalValue(s: string): (r: nat)
    requires IsDigits(s)
    decreases |s|
  {
    if s == [] then 0 else 10 * DecimalValue(s[..|s| - 1]) + (s[|s| - 1] as int - 48)
  }

  /** The counter text under the bar: the numeral of `current`, then " of ",
      then the numeral of `total`. */
  function Counter(current: nat, total: nat): (r: string)
    ensures |r| == |Decimal(current)| + 4 + |Decimal(total)|
    ensures r[..|Decimal(current)|] == Decimal(current)
    ensures r[|Decimal(current)|..|Decimal(current)| + 4] == " of "
    ensures r[|Decimal(current)| + 4..] == Decimal(total)
  {
    Decimal(current) + " of " + Decimal(total)
  }

  // ----- properties -----

  /** The numeral reads back as the number it was made from. */
  lemma {:induction false} DecimalRoundTrip(n: nat)
    ensures DecimalValue(Decimal(n)) == n
    decreases n
  {
    if n >= 10 {
      var s := Decimal(n);
      assert s[..|s| - 1] == Decimal(n / 10);
      DecimalRoundTrip(n / 10);
    }
  }

  /** The two numbers in the counter read back as the numbers shown. */
  lemma CounterReadsBack(current: nat, total: nat)
    ensures DecimalValue(Counter(current, total)[..|Decimal(current)|]) == current
    ensures DecimalValue(Counter(current, total)[|Decimal(current)| + 4..]) == total
  {
    DecimalRoundTrip(current);
    DecimalRoundTrip(total);
  }

  /** On positions 1 .. total the bar stays within 0 .. 100 %. */
  lemma PercentageInRange(current: nat, total: nat)
    requires 0 < current <= total
    ensures Percentage(current, total).Number?
    ensures Percentage(current, total).value <= 100
  {
    Rounding.RoundedPercentAtMost100(current, total);
  }

  /** The last position fills the bar. Before it the bar is short of full as
      long as the deck has fewer than 200 cards; from 200 cards on, the second
      to last position already rounds up to 100 %. */
  lemma PercentageFullAtLast(current: nat, total: nat)
    requires 0 < current <= total
    ensures current == total ==> Percentage(current, total) == Number(100)
    ensures current < total && total < 200 ==> Percentage(current, total).value < 100
    ensures current == total - 1 && 200 <= total ==> Percentage(current, total) == Number(100)
  {
    if current == total {
      Rounding.RoundedPercentOfWhole(total);
    } else {
      var r := Percentage(current, total).value;
      if total < 200 && r >= 100 {
        Rounding.MulMonotone(2 * total, 100, r);
        assert false;
      }
      if current == total - 1 && 200 <= total {
        Rounding.RoundedPercentUnique(current, total, 100);
      }
    }
  }

  /** Moving forward never shrinks the bar. */
  lemma PercentageMonotone(current1: nat, current2: nat, total: nat)
    requires 0 < total && current1 <= current2
    ensures Percentage(current1, total).value <= Percentage(current2, total).value
  {
    Rounding.RoundedPercentMonotone(current1, current2, total);
  }

  /** The first card of a ten-card deck shows 10 % and "1 of 10". */
  lemma FirstOfTen()
    ensures Percentage(1, 10) == Number(10)
    ensures Counter(1, 10) == "1 of 10"
  {
    Rounding.RoundedPercentUnique(1, 10, 10);
    assert Decimal(10) == Decimal(1) + [DigitChar(0)];
  }
}
