/** `round(x, 1)`, the rounding the rate tracker applies to every Mbps figure.
    Python rounds a binary float to the nearest tenth with ties to even; here
    the same rule is applied to an exact real. */
module Rounding {

  /** Nearest integer to `y`; a tie goes to the even neighbour. */
  function RoundHalfEven(y: real): (n: int)
    ensures y - 0.5 <= n as real <= y + 0.5
  {
    var f := y.Floor;
    var frac := y - f as real;
    if frac < 0.5 then f
    else if frac > 0.5 then f + 1
    else if f % 2 == 0 then f
    else f + 1
  }

  /** `round(x, 1)`: the nearest multiple of 0.1, ties to even. */
  function Round1(x: real): (r: real)
    ensures x - 0.05 <= r <= x + 0.05
  {
    RoundHalfEven(x * 10.0) as real / 10.0
  }

  lemma RoundHalfEvenMonotone(a: real, b: real)
    requires a <= b
    ensures RoundHalfEven(a) <= RoundHalfEven(b)
  {
    var fa, fb := a.Floor, b.Floor;
    assert fa <= fb;
    if fa < fb {
      assert RoundHalfEven(a) <= fa + 1 <= fb <= RoundHalfEven(b);
    } else {
      assert a - fa as real <= b - fb as real;
    }
  }

  /** Rounding never reverses the order of two rates. */
  lemma Round1Monotone(x: real, y: real)
    requires x <= y
    ensures Round1(x) <= Round1(y)
  {
    RoundHalfEvenMonotone(x * 10.0, y * 10.0);
  }

  /** Rounding keeps zero, and so keeps every non-negative rate non-negative. */
  lemma Round1NonNegative(x: real)
    requires x >= 0.0
    ensures Round1(x) >= 0.0
    ensures x == 0.0 ==> Round1(x) == 0.0
  {
    Round1Monotone(0.0, x);
  }

  /** A figure already rounded to a tenth is left alone. */
  lemma Round1Idempotent(x: real)
    ensures Round1(Round1(x)) == Round1(x)
  {
    var n := RoundHalfEven(x * 10.0);
    assert Round1(x) * 10.0 == n as real;
    assert RoundHalfEven(n as real) == n;
  }
}
