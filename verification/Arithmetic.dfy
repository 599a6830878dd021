/** Facts about multiplication and division that the solver does not find by itself. */
module Arithmetic {

  lemma MulPositive(a: nat, b: nat)
    requires a > 0 && b > 0
    ensures a * b > 0
  {
  }

  lemma MulMonotone(a: nat, b: nat, c: nat)
    requires a <= b
    ensures a * c <= b * c
  {
    assert b * c == a * c + (b - a) * c;
  }

  lemma MulSuccessor(a: nat, c: nat)
    ensures (a + 1) * c == a * c + c
  {
  }

  lemma QuotientUnique(a: nat, w: nat, p: nat, r: nat, q: nat)
    requires a == p * w + r && r < w && q * w <= a < q * w + w
    ensures p == q
  {
    MulSuccessor(q, w);
    MulSuccessor(p, w);
    if p < q {
      MulMonotone(p + 1, q, w);
    } else if q < p {
      MulMonotone(q + 1, p, w);
    }
  }

  lemma DivDefinition(a: nat, w: nat)
    requires w > 0
    ensures a == (a / w) * w + a % w && 0 <= a % w < w
  {
  }

  lemma DivUnique(a: nat, w: nat, q: nat)
    requires w > 0 && q * w <= a < q * w + w
    ensures a / w == q && a % w == a - q * w
  {
    DivDefinition(a, w);
    QuotientUnique(a, w, a / w, a % w, q);
  }

  /** A quotient is at least n when n whole divisors fit. */
  lemma DivLower(a: nat, w: nat, n: nat)
    requires w > 0 && n * w <= a
    ensures n <= a / w
  {
    DivDefinition(a, w);
    QuotientAtLeast(a, w, a / w, a % w, n);
  }

  lemma QuotientAtLeast(a: nat, w: nat, p: nat, r: nat, n: nat)
    requires a == p * w + r && r < w && n * w <= a
    ensures n <= p
  {
    MulSuccessor(p, w);
    if p < n {
      MulMonotone(p + 1, n, w);
    }
  }

  /** A quotient is below n when n whole divisors do not fit. */
  lemma DivUpper(a: nat, w: nat, n: nat)
    requires w > 0 && a < n * w
    ensures a / w < n
  {
    DivDefinition(a, w);
    QuotientBelow(a, w, a / w, a % w, n);
  }

  lemma QuotientBelow(a: nat, w: nat, p: nat, r: nat, n: nat)
    requires a == p * w + r && r < w && a < n * w
    ensures p < n
  {
    if n <= p {
      MulMonotone(n, p, w);
    }
  }

  lemma ModAdd(h: nat, d: nat, m: nat)
    requires m > 0 && h % m + d < m
    ensures (h + d) % m == h % m + d
  {
    DivDefinition(h, m);
    DivUnique(h + d, m, h / m);
  }
}
