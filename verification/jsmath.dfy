/**
  JavaScript's `Math.round` on exact rationals: the nearest integer, with
  halves rounded toward positive infinity (so `Math.round(-2.5) == -2`).
  Every rate and price in the calculator goes through this one rounding.
 */
module JsMath {

  /** `Math.round(x)`. The contract is the defining property: `n` is the
      unique integer in the half-open window `[x - 1/2, x + 1/2)`. */
  function Round(x: real): (n: int)
    ensures n as real - 0.5 <= x < n as real + 0.5
  {
    (x + 0.5).Floor
  }

  /** Rounding an integer gives it back. */
  lemma RoundOfInteger(n: int)
    ensures Round(n as real) == n
  {
  }

  /** `Math.round` never reverses an order. */
  lemma RoundMonotonic(x: real, y: real)
    requires x <= y
    ensures Round(x) <= Round(y)
  {
  }

  /** `Math.round(x * 100) / 100`: the amount rounded to whole cents. */
  function RoundCents(x: real): (r: real)
    ensures IsCents(r)
    ensures r - 0.005 <= x < r + 0.005
  {
    Round(x * 100.0) as real / 100.0
  }

  /** `r` is a whole number of hundredths. */
  predicate IsCents(r: real)
  {
    (r * 100.0).Floor as real == r * 100.0
  }

  /** Two whole-cent amounts within half a cent (halves upward) of the same
      value are the same amount: cent rounding has one answer. */
  lemma CentsWindowUnique(x: real, r1: real, r2: real)
    requires IsCents(r1) && r1 - 0.005 <= x < r1 + 0.005
    requires IsCents(r2) && r2 - 0.005 <= x < r2 + 0.005
    ensures r1 == r2
  {
    var n1 := (r1 * 100.0).Floor;
    var n2 := (r2 * 100.0).Floor;
    assert n1 as real - 0.5 <= x * 100.0 < n1 as real + 0.5;
    assert n2 as real - 0.5 <= x * 100.0 < n2 as real + 0.5;
    assert n1 == n2;
  }

  function Abs(x: real): (a: real)
    ensures a >= 0.0 && (a == x || a == -x)
  {
    if x < 0.0 then -x else x
  }
}
