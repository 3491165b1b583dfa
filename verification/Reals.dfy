/** Signs and quotients of real products, and rounding to integers. */
module Reals {

  lemma SignOfProduct(x: real, k: real)
    requires k > 0.0
    ensures x * k >= 0.0 <==> x >= 0.0
    ensures x * k <= 0.0 <==> x <= 0.0
  {
    if x < 0.0 { assert (-x) * k > 0.0; }
    if x > 0.0 { assert x * k > 0.0; }
  }

  /** The fall to one non-negative value is relatively larger from a higher one. */
  lemma FallGrowsWithHigh(high: real, higher: real, low: real)
    requires 0.0 < high <= higher && 0.0 <= low
    ensures (high - low) / high <= (higher - low) / higher
  {
    var x, y := (high - low) / high, (higher - low) / higher;
    assert x * high == high - low && y * higher == higher - low;
    assert (1.0 - x) * high == low && (1.0 - y) * higher == low;
    SignOfProduct(1.0 - x, high);
    assert (1.0 - x) * high <= (1.0 - x) * higher;
    assert (y - x) * higher == (1.0 - x) * higher - (1.0 - y) * higher;
    SignOfProduct(y - x, higher);
  }

  /** The fall to a negative value is relatively smaller from a higher one. */
  lemma FallShrinksWithHigh(high: real, higher: real, low: real)
    requires 0.0 < high < higher && low < 0.0
    ensures (higher - low) / higher < (high - low) / high
  {
    var x, y := (high - low) / high, (higher - low) / higher;
    assert x * high == high - low && y * higher == higher - low;
    SignOfProduct(x - 1.0, high);
    assert (x - 1.0) * higher > (x - 1.0) * high;
    assert (y - x) * higher == (y - 1.0) * higher - (x - 1.0) * higher;
    SignOfProduct(y - x, higher);
  }

  /** The nearest integer, ties to even. */
  function Nearest(x: real): (n: int)
    ensures x - 0.5 <= n as real <= x + 0.5
  {
    var n := x.Floor;
    var rest := x - n as real;
    if rest < 0.5 || (rest == 0.5 && n % 2 == 0) then n else n + 1
  }

  lemma NearestIs(x: real, n: int)
    requires n as real - 0.5 < x < n as real + 0.5
    ensures Nearest(x) == n
  {
  }

  lemma NearestAtLeast(x: real, n: int)
    requires x >= n as real
    ensures Nearest(x) >= n
  {
  }
}
