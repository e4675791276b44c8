/** Nonlinear facts about floor division that the codecs share. */
module Arithmetic {

  lemma MulMonotonic(a: int, b: int, p: nat)
    requires a <= b
    ensures a * p <= b * p
  {
  }

  lemma MulAtLeast(d: int, p: int)
    requires p > 0
    ensures d >= 1 ==> d * p >= p
    ensures d <= -1 ==> d * p <= -p
  {
  }

  /** Quotient and remainder are unique. */
  lemma DivUnique(n: int, q: int, r: int, p: int)
    requires p > 0 && 0 <= r < p && n == q * p + r
    ensures n / p == q && n % p == r
  {
    var d := n / p - q;
    assert n == (n / p) * p + n % p;
    assert d * p == r - n % p;
    MulAtLeast(d, p);
  }

  lemma DivExact(q: int, p: int)
    requires p > 0
    ensures (q * p) / p == q
  {
    DivUnique(q * p, q, 0, p);
  }

  lemma ModShift(a: int, q: int, p: int)
    requires p > 0
    ensures (a + q * p) % p == a % p
    ensures (a + q * p) / p == a / p + q
  {
    assert a + q * p == (a / p + q) * p + a % p;
    DivUnique(a + q * p, a / p + q, a % p, p);
  }

  lemma Halving(y: nat, p: nat, x: nat)
    requires y * p <= x < (y + 1) * p
    ensures (y / 2) * (2 * p) <= x < (y / 2 + 1) * (2 * p)
  {
    assert (y / 2) * (2 * p) == (2 * (y / 2)) * p;
    assert (y / 2 + 1) * (2 * p) == (2 * (y / 2) + 2) * p;
    MulMonotonic(2 * (y / 2), y, p);
    MulMonotonic(y + 1, 2 * (y / 2) + 2, p);
  }
}
