/** Python's `round(x, 2)` on a similarity percentage, taken on exact reals:
    the nearest multiple of 0.01, with an exact tie going to the even
    multiple (round half to even). */
module PyRound {

  /** `x` is a whole number of hundredths. */
  predicate IsHundredths(x: real) {
    (x * 100.0).Floor as real == x * 100.0
  }

  function Round2(x: real): (r: real)
    ensures IsHundredths(r)
    ensures -0.005 <= r - x <= 0.005
    ensures (r - x == 0.005 || x - r == 0.005) ==> (r * 100.0).Floor % 2 == 0
  {
    var y := x * 100.0;
    var f := y.Floor;
    var d := y - f as real;
    var n := if d > 0.5 then f + 1 else if d < 0.5 then f else if f % 2 == 0 then f else f + 1;
    assert (n as real / 100.0) * 100.0 == n as real;
    n as real / 100.0
  }

  /** Rounding never reverses the order of two values. */
  lemma Round2Monotone(x: real, y: real)
    requires x <= y
    ensures Round2(x) <= Round2(y)
  {
    var fx, fy := (x * 100.0).Floor, (y * 100.0).Floor;
    assert fx <= fy;
    var rx, ry := Round2(x) * 100.0, Round2(y) * 100.0;
    assert rx == fx as real || rx == (fx + 1) as real;
    assert ry == fy as real || ry == (fy + 1) as real;
    if fx == fy {
      assert x * 100.0 - fx as real <= y * 100.0 - fy as real;
    }
  }

  /** A value that already is a whole number of hundredths is left unchanged. */
  lemma Round2Exact(x: real)
    requires IsHundredths(x)
    ensures Round2(x) == x
  {
  }

  /** A percentage in [0, 100] stays in [0, 100] after rounding. */
  lemma Round2Bounds(x: real)
    requires 0.0 <= x <= 100.0
    ensures 0.0 <= Round2(x) <= 100.0
  {
    Round2Exact(0.0);
    Round2Exact(100.0);
    Round2Monotone(0.0, x);
    Round2Monotone(x, 100.0);
  }
}
