/** The lesser and the greater of two reals, and a law of division. */
module Reals {

  function Min(x: real, y: real): (r: real)
    ensures r <= x && r <= y && (r == x || r == y)
  {
    if x <= y then x else y
  }

  function Max(x: real, y: real): (r: real)
    ensures r >= x && r >= y && (r == x || r == y)
  {
    if x >= y then x else y
  }

  lemma QuotientScales(x: real, y: real)
    requires y != 0.0
    ensures x / y == 1.0 / y * x
  {
  }
}
