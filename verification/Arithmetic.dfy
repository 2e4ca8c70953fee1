/** Division facts that more than one part needs. */
module Arithmetic {
  /** Comparing with a quotient is comparing the product. */
  lemma DivisionTest(max: nat, n: nat, q: int, r: int, x: nat)
    requires n > 0 && max == q * n + r && 0 <= r < n
    ensures x > q <==> x * n > max
  {
    assert (x - q) * n == x * n - q * n;
    assert x - q >= 1 ==> (x - q) * n >= n;
    assert x - q <= 0 ==> (x - q) * n <= 0;
  }

  /** Quotient and remainder are unique. */
  lemma Quotient(n: int, p: nat, q: int, r: nat)
    requires p > 0 && n == q * p + r && r < p
    ensures n / p == q && n % p == r
  {
    var d, m := n / p, n % p;
    assert (d - q) * p == r - m;
    assert d - q >= 1 ==> (d - q) * p >= p;
    assert d - q <= -1 ==> (d - q) * p + p <= 0;
  }
}
