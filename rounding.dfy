/**
 * PHP's `round($x, 2)` on exact reals: rounds to the nearest hundredth,
 * halves away from zero.
 */
module Rounding {

  function Round2(x: real): (r: real)
    ensures x - 0.005 <= r <= x + 0.005
    ensures x >= 0.0 ==> r >= 0.0
    ensures (r * 100.0).Floor as real == r * 100.0
  {
    WholeHundredths((x * 100.0 + 0.5).Floor);
    WholeHundredths(-(((-x) * 100.0 + 0.5).Floor));
    if x >= 0.0 then ((x * 100.0 + 0.5).Floor as real) / 100.0
    else -((((-x) * 100.0 + 0.5).Floor as real) / 100.0)
  }

  /** A whole number of hundredths, scaled by 100, is a whole number. */
  lemma WholeHundredths(n: int)
    ensures ((n as real / 100.0) * 100.0).Floor as real == (n as real / 100.0) * 100.0
    ensures (-(n as real / 100.0)) == (-n) as real / 100.0
  {
  }

  /** A value that already has at most two decimals is left as it is. */
  lemma Round2Exact(n: int)
    ensures Round2(n as real / 100.0) == n as real / 100.0
  {
    var x := n as real / 100.0;
    if n >= 0 {
      assert x * 100.0 + 0.5 == n as real + 0.5;
      assert (n as real + 0.5).Floor == n;
    } else {
      assert (-x) * 100.0 + 0.5 == (-n) as real + 0.5;
      assert ((-n) as real + 0.5).Floor == -n;
    }
  }

  lemma Round2Monotone(x: real, y: real)
    requires 0.0 <= x <= y
    ensures Round2(x) <= Round2(y)
  {
    var a, b := x * 100.0 + 0.5, y * 100.0 + 0.5;
    assert a <= b;
    assert a.Floor as real <= a && b < b.Floor as real + 1.0;
    assert a.Floor <= b.Floor;
  }

  /** Rounding keeps a percentage within [0, 100]. */
  lemma Round2Percentage(x: real)
    requires 0.0 <= x <= 100.0
    ensures 0.0 <= Round2(x) <= 100.0
  {
    Round2Monotone(x, 100.0);
    Round2Exact(10000);
  }
}
