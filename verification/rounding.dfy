/** JavaScript's `Math.round` over exact rationals and the "round to k places" idiom
    `Math.round(x * scale) / scale` used throughout the grade arithmetic. */
module Rounding {

  /** `Math.round`: the nearest integer, with halves going toward +infinity. */
  function Round(x: real): (n: int)
    ensures n as real - 0.5 <= x < n as real + 0.5
  {
    (x + 0.5).Floor
  }

  /** Exactly one integer is within half a unit of `x` in the half-open sense above. */
  lemma RoundUnique(x: real, m: int)
    requires m as real - 0.5 <= x < m as real + 0.5
    ensures Round(x) == m
  {
    var n := Round(x);
    assert n as real - 0.5 <= x < n as real + 0.5;
    assert -1.0 < (n - m) as real < 1.0;
  }

  /** `r * scale` is a whole number: `r` is a multiple of `1 / scale`. */
  predicate OnGrid(r: real, scale: real)
  {
    (r * scale).Floor as real == r * scale
  }

  /** `r` is what rounding `x` to the grid of step `1 / scale` gives: on the grid, and within half a
      step of `x`, halves rounding up. */
  predicate RoundsTo(x: real, scale: real, r: real)
  {
    OnGrid(r, scale) && r * scale - 0.5 <= x * scale < r * scale + 0.5
  }

  function RoundTo(x: real, scale: real): (r: real)
    requires scale > 0.0
    ensures RoundsTo(x, scale, r)
  {
    var n := Round(x * scale);
    var r := n as real / scale;
    assert r * scale == n as real;
    assert (n as real).Floor == n;
    assert OnGrid(r, scale);
    assert n as real - 0.5 <= x * scale < n as real + 0.5;
    r
  }

  /** Rounding to a grid is a function of the value: the grid point within half a step is unique. */
  lemma RoundsToUnique(x: real, scale: real, r: real)
    requires scale > 0.0
    requires RoundsTo(x, scale, r)
    ensures RoundTo(x, scale) == r
  {
    var n := (r * scale).Floor;
    RoundUnique(x * scale, n);
    var q := RoundTo(x, scale);
    assert q * scale == r * scale;
  }

  /** A tenth is also a hundredth, so rounding it to hundredths leaves it alone. */
  lemma TenthsAreHundredths(x: real)
    requires OnGrid(x, 10.0)
    ensures RoundTo(x, 100.0) == x
  {
    var n := (x * 10.0).Floor;
    assert x * 100.0 == (10 * n) as real;
    assert ((10 * n) as real).Floor == 10 * n;
    RoundsToUnique(x, 100.0, x);
  }

  /** A value at most a grid point rounds to at most that grid point. */
  lemma RoundToAtMost(x: real, scale: real, b: real)
    requires scale > 0.0
    requires OnGrid(b, scale)
    requires x <= b
    ensures RoundTo(x, scale) <= b
  {
    var r := RoundTo(x, scale);
    ScaleMonotone(x, b, scale);
    GridPointsOrdered(r, b, scale);
  }

  /** A non-negative value rounds to a non-negative grid point. */
  lemma RoundToNonNegative(x: real, scale: real)
    requires scale > 0.0
    requires 0.0 <= x
    ensures 0.0 <= RoundTo(x, scale)
  {
    var r := RoundTo(x, scale);
    ScaleMonotone(0.0, x, scale);
    assert OnGrid(0.0, scale);
    GridPointsOrdered(0.0, r, scale);
  }

  /** Two grid points less than one step apart in the wrong direction are in order. */
  lemma GridPointsOrdered(a: real, b: real, scale: real)
    requires scale > 0.0
    requires OnGrid(a, scale) && OnGrid(b, scale)
    requires a * scale < b * scale + 1.0
    ensures a <= b
  {
    var n := (a * scale).Floor;
    var k := (b * scale).Floor;
    assert n <= k;
    if a > b {
      ScaleStrict(b, a, scale);
    }
  }

  lemma ScaleMonotone(x: real, y: real, scale: real)
    requires scale > 0.0
    requires x <= y
    ensures x * scale <= y * scale
  {
    assert (y - x) * scale >= 0.0;
  }

  lemma ScaleStrict(x: real, y: real, scale: real)
    requires scale > 0.0
    requires x < y
    ensures x * scale < y * scale
  {
    assert (y - x) * scale > 0.0;
  }
}
