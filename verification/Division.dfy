/** Integer functions, and the floor-division facts of the clock search, the pattern writer and the timers. */
module Division {
  function Abs(a: int): nat { if a < 0 then -a else a }

  function Min(a: nat, b: nat): nat { if a < b then a else b }

  function Max(a: int, b: int): int { if a < b then b else a }

  lemma Scale(a: int, b: int, d: nat)
    ensures a <= b ==> a * d <= b * d
  {
  }

  lemma QuotientAndRest(x: nat, d: nat)
    requires 0 < d
    ensures x / d * d + x % d == x && 0 <= x % d < d
  {
  }

  /** A quotient is fixed by the two multiples of the divisor that enclose the dividend. */
  lemma QuotientUnique(x: nat, d: nat, q: nat)
    requires 0 < d && q * d <= x < (q + 1) * d
    ensures x / d == q
    ensures x % d == x - q * d
  {
    var k := x / d;
    assert k * d <= x < (k + 1) * d;
    Scale(k + 1, q, d);
    Scale(q + 1, k, d);
  }

  lemma Regroup(q: nat, p: nat, m: nat)
    ensures q * (p * m) == q * p * m
  {
  }

  /** Dividing by a product is dividing twice, flooring each time. */
  lemma NestedQuotient(x: nat, m: nat, p: nat)
    requires 0 < m && 0 < p
    ensures 0 < p * m && x / (p * m) == x / m / p
  {
    var a := x / m;
    var q := a / p;
    QuotientAndRest(x, m);
    QuotientAndRest(a, p);
    Multiples(x, m, p, a, q);
    QuotientUnique(x, p * m, q);
  }

  lemma Multiples(x: nat, m: nat, p: nat, a: nat, q: nat)
    requires 0 < m && 0 < p
    requires a * m <= x < a * m + m && q * p <= a < q * p + p
    ensures 0 < p * m && q * (p * m) <= x < (q + 1) * (p * m)
  {
    Scale(q * p, a, m);
    Scale(a + 1, q * p + p, m);
    Scale(1, p, m);
    Regroup(q, p, m);
    assert (a + 1) * m == a * m + m;
    assert (q * p + p) * m == q * p * m + p * m;
    assert (q + 1) * (p * m) == q * (p * m) + p * m;
  }

  /** A quotient is at most b exactly when the dividend lies below b + 1 divisors. */
  lemma QuotientAtMost(x: nat, d: nat, b: int)
    requires 0 < d
    ensures x / d <= b <==> x < (b + 1) * d
  {
    var k := x / d;
    assert k * d <= x < (k + 1) * d;
    Scale(k + 1, b + 1, d);
    Scale(b + 1, k, d);
  }

  /** A larger divisor never gives a larger quotient. */
  lemma QuotientAntitone(x: nat, d: nat, e: nat)
    requires 0 < d <= e
    ensures x / e <= x / d
  {
    var k := x / e;
    assert k * e <= x;
    Scale(d, e, k);
    QuotientAtMost(x, d, k - 1);
  }
}
