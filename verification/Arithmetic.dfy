/** The few facts about products and floor quotients that the proofs need. */
module Arithmetic {
  lemma ProductMonotone(a: int, b: int, c: nat)
    requires a <= b
    ensures a * c <= b * c
  {
    assert (b - a) * c >= 0;
  }

  /** Rust divides unsigned integers by dropping the remainder. */
  lemma Quotient(n: int, d: int)
    requires d >= 1
    ensures n / d * d <= n < n / d * d + d
  {
    assert n == n / d * d + n % d;
  }

  lemma QuotientAtMost(n: int, d: int, bound: int)
    requires d >= 1 && n < (bound + 1) * d
    ensures n / d <= bound
  {
    Quotient(n, d);
    if n / d >= bound + 1 {
      ProductMonotone(bound + 1, n / d, d);
    }
  }

  lemma QuotientAtLeast(n: int, d: int, bound: int)
    requires d >= 1 && bound * d <= n
    ensures bound <= n / d
  {
    Quotient(n, d);
    var q := n / d;
    assert (q + 1) * d == q * d + d;
    if q + 1 <= bound {
      ProductMonotone(q + 1, bound, d);
    }
  }

  lemma QuotientIs(n: int, d: int, q: int)
    requires d >= 1 && q * d <= n < (q + 1) * d
    ensures n / d == q
  {
    QuotientAtMost(n, d, q);
    QuotientAtLeast(n, d, q);
  }

  lemma QuotientMonotone(a: int, b: int, d: int)
    requires d >= 1 && a <= b
    ensures a / d <= b / d
  {
    Quotient(a, d);
    QuotientAtLeast(b, d, a / d);
  }

  lemma MultipleHasNoRemainder(k: int, d: int)
    requires d >= 1
    ensures k * d % d == 0 && k * d / d == k
  {
    assert (k + 1) * d == k * d + d;
    QuotientIs(k * d, d, k);
    assert k * d == k * d / d * d + k * d % d;
  }
}
