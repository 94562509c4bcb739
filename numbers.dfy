/**
 * Rounding as each side of the system does it. Prices are modelled as reals;
 * a missing or NaN price is an absent value and never reaches these functions.
 */
module Numbers {

  /** JavaScript's Math.round: the nearest integer, halves rounded up. */
  function JsRound(x: real): (n: int)
    ensures x - 0.5 < n as real <= x + 0.5
  {
    (x + 0.5).Floor
  }

  /** Python's round(x) with no digits: the nearest integer, halves rounded to the even one. */
  function PyRound(x: real): (n: int)
    ensures x - 0.5 <= n as real <= x + 0.5
    ensures (n as real == x - 0.5 || n as real == x + 0.5) ==> n % 2 == 0
  {
    var f := x.Floor;
    var d := x - f as real;
    if d < 0.5 then f
    else if d > 0.5 then f + 1
    else if f % 2 == 0 then f
    else f + 1
  }

  /** Away from halves, the two roundings agree. */
  lemma RoundingsAgreeOffHalves(x: real)
    requires x - x.Floor as real != 0.5
    ensures JsRound(x) == PyRound(x)
  {
  }

  /** At a half they can differ: the client and the backend round 2.5 differently. */
  lemma RoundingsDifferAtHalves()
    ensures JsRound(2.5) == 3 && PyRound(2.5) == 2
  {
    assert (2.5).Floor == 2;
    assert (3.0).Floor == 3;
  }
}
