/** Facts about products and quotients of whole numbers. */
module Arithmetic {

  lemma MulMonoStrict(a: int, b: int, d: nat)
    ensures a < b ==> d * a + d <= d * b
  {
    if a < b {
      assert d * b == d * (a + 1) + d * (b - a - 1);
    }
  }

  lemma ScaleNat(a: nat, b: nat, c: nat)
    requires a <= b
    ensures a * c <= b * c && c * a <= c * b
  {
  }

  lemma MulRegroup(a: nat, b: nat, c: nat)
    ensures a * (b * c) == a * b * c
  {
  }

  lemma DivModUnique(n: nat, d: nat, q: nat, r: nat)
    requires d > 0 && n == d * q + r && r < d
    ensures n / d == q && n % d == r
  {
    assert n == d * (n / d) + n % d;
    MulMonoStrict(n / d, q, d);
    MulMonoStrict(q, n / d, d);
  }

  lemma QuotientAtLeast(a: nat, d: nat, k: nat)
    requires d > 0 && a >= d * k
    ensures a / d >= k
  {
    assert a == d * (a / d) + a % d;
    MulMonoStrict(a / d, k, d);
  }

  lemma AtMostQuotient(a: nat, c: nat, total: nat)
    requires c > 0 && a * c <= total
    ensures a <= total / c
  {
    MulMonoStrict(total / c, a, c);
    assert total == c * (total / c) + total % c;
  }

  /** Counting up by one goes round modulo p. */
  lemma NextModulo(a: nat, p: nat)
    requires p > 0
    ensures (a + 1) % p == if a % p + 1 == p then 0 else a % p + 1
    ensures (a + 1) / p == a / p + if a % p + 1 == p then 1 else 0
  {
    var q, r := a / p, a % p;
    assert a == p * q + r;
    if r + 1 < p {
      DivModUnique(a + 1, p, q, r + 1);
    } else {
      assert p * (q + 1) == p * q + p;
      DivModUnique(a + 1, p, q + 1, 0);
    }
  }
}
