/** Multiplication and division where the solver needs a hand. */
module Arith {

  lemma MulGrows(d: int, x: int)
    requires d > 0
    ensures x >= 1 ==> d * x >= d
    ensures x <= -1 ==> d * x <= -d
    ensures x == 0 ==> d * x == 0
  {}

  lemma MulMinus(d: int, x: int, y: int)
    ensures d * (x - y) == d * x - d * y
    ensures d * (x + y) == d * x + d * y
  {}

  lemma MulMonotone(d: int, x: int, y: int)
    requires d >= 0 && x <= y
    ensures d * x <= d * y
  {}

  lemma DivParts(n: int, d: int)
    requires d > 0
    ensures n == d * (n / d) + n % d && 0 <= n % d < d
  {}

  lemma QuotientUnique(n: int, d: int, q: int, r: int, q': int, r': int)
    requires 0 <= r < d && n == d * q + r
    requires 0 <= r' < d && n == d * q' + r'
    ensures q == q' && r == r'
  {
    MulGrows(d, q - q');
    MulMinus(d, q, q');
  }

  lemma QuotientIs(n: int, d: int, q: int, r: int)
    requires 0 <= r < d && n == d * q + r
    ensures n / d == q && n % d == r
  {
    DivParts(n, d);
    QuotientUnique(n, d, q, r, n / d, n % d);
  }
}
