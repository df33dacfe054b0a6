/** Integer facts the row-major board layouts need: products are
    monotone, and a cell index splits into a unique row and column. */
module Arith {
  lemma MulMono(a: int, b: int, x: int)
    requires a <= b && 0 <= x
    ensures a * x <= b * x
  {
    assert b * x - a * x == (b - a) * x;
  }

  lemma DivModUnique(k: int, x: int, a: int, c: int)
    requires 0 <= c < x && k == a * x + c
    ensures k / x == a && k % x == c
  {
    var q, r := k / x, k % x;
    assert k == q * x + r && 0 <= r < x;
    assert (a - q) * x == r - c;
    if a - q >= 1 {
      MulMono(1, a - q, x);
    } else if a - q <= -1 {
      MulMono(a - q, -1, x);
    }
  }
}
