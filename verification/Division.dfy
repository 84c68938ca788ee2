/** Quotients and remainders of natural numbers. */
module Division {

  /** A quotient that is known to be natural. */
  function Over(x: nat, p: nat): (q: nat)
    requires p > 0
    ensures q == x / p && q <= x
  {
    ShrinksOver(x, p);
    x / p
  }

  lemma ShrinksOver(x: nat, p: nat)
    requires p > 0
    ensures 0 <= x / p <= x
  {
    var q := x / p;
    assert x == q * p + x % p;
    SameSign(q, p - 1);
    SameSign(q + 1, p);
    assert q * p == q * (p - 1) + q && (q + 1) * p == q * p + p;
  }

  lemma QuotientAndRemainder(x: nat, y: nat, n: nat)
    requires n > 0
    ensures x == y <==> x % n == y % n && x / n == y / n
  {
    assert x == n * (x / n) + x % n && y == n * (y / n) + y % n;
  }

  lemma HalveRemainder(x: nat, p: nat)
    requires p > 0
    ensures x % (2 * p) == x % 2 + 2 * ((x / 2) % p)
  {
    var q := (x / 2) / p;
    HalveFirst(x, p);
    assert x / 2 == q * p + (x / 2) % p && x == (2 * p) * q + x % (2 * p);
    assert (2 * p) * q == 2 * (q * p);
  }

  lemma QuotientIs(x: int, d: int, q: int)
    requires d > 0 && q * d <= x < q * d + d
    ensures x / d == q
  {
    var p := x / d;
    assert x == p * d + x % d;
    SameSign(q - p - 1, d);
    SameSign(p - q - 1, d);
    assert (q - p - 1) * d == q * d - p * d - d && (p - q - 1) * d == p * d - q * d - d;
  }

  lemma SameSign(q: int, p: nat)
    ensures q >= 0 ==> q * p >= 0
    ensures q <= 0 ==> q * p <= 0
  {
  }

  lemma HalveFirst(x: nat, p: nat)
    requires p > 0
    ensures x / (2 * p) == (x / 2) / p
  {
    var q := (x / 2) / p;
    assert x / 2 == q * p + (x / 2) % p;
    assert q * (2 * p) == 2 * (q * p);
    QuotientIs(x, 2 * p, q);
  }
}
