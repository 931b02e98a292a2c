/**
 Facts about products, quotients and remainders.
 */
module Arithmetic {

  lemma Multiple(k: int, m: int)
    requires m > 0
    ensures k >= 1 ==> k * m >= m
    ensures k <= -1 ==> k * m <= -m
  {
    if k >= 1 {
      assert (k - 1) * m >= 0;
    } else if k <= -1 {
      assert (-k - 1) * m >= 0;
    }
  }

  lemma {:induction false} QuotientUnique(n: nat, m: nat, q: nat, r: nat)
    requires r < m && n == q * m + r
    ensures n / m == q && n % m == r
  {
    var k := q - n / m;
    assert k * m == q * m - (n / m) * m == n % m - r;
    Multiple(k, m);
  }

  lemma TwiceAtMost(q: nat, m: int)
    requires m >= 2
    ensures 2 * q <= q * m
  {
    assert q * (m - 2) >= 0;
  }
}
