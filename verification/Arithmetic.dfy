/** Facts about products and quotients of integers that the solver needs spelled out. */
module Arithmetic {

  lemma {:induction false} MulMono(a: int, b: int, c: int)
    requires 0 <= a && b <= c
    ensures a * b <= a * c
  {
  }

  lemma {:induction false} MulBounds(a: int, b: int, x: int, y: int)
    requires 0 <= a <= x && 0 <= b <= y
    ensures 0 <= a * b <= x * y
  {
    MulMono(a, b, y);
    MulMono(y, a, x);
  }

  /** The quotient and remainder are the only ones of their kind. */
  lemma {:induction false} DivUnique(n: int, d: int, q: int, r: int)
    requires d > 0 && n == q * d + r && 0 <= r < d
    ensures n / d == q && n % d == r
  {
    var q', r' := n / d, n % d;
    assert n == q' * d + r';
    if q' > q {
      MulMono(d, q + 1, q');
    } else if q' < q {
      MulMono(d, q' + 1, q);
    }
  }

  lemma {:induction false} DivBounds(n: int, d: int, q: int)
    requires d > 0 && q * d <= n < q * d + d
    ensures n / d == q
  {
    DivUnique(n, d, q, n - q * d);
  }

  lemma {:induction false} MulCancel(a: int, b: int, c: int)
    requires a > 0 && a * b < a * c
    ensures b < c
  {
    if c <= b { MulMono(a, c, b); }
  }

  lemma {:induction false} MulCancelLe(a: int, b: int, c: int)
    requires a > 0 && a * b <= a * c
    ensures b <= c
  {
    if c < b { MulMono(a, c + 1, b); }
  }

  /** Dividing twice is dividing by the product. */
  lemma {:induction false} DivDiv(y: int, a: int, b: int)
    requires 0 <= y && a > 0 && b > 0
    ensures a * b > 0 && (y / a) / b == y / (a * b)
  {
    var q, r := y / a, y % a;
    var s, t := q / b, q % b;
    assert y == q * a + r && q == s * b + t;
    assert y == s * (a * b) + (t * a + r) by {
      assert (s * b + t) * a == s * (a * b) + t * a;
    }
    MulMono(a, t, b - 1);
    assert a * (b - 1) == a * b - a;
    DivUnique(y, a * b, s, t * a + r);
  }

  lemma {:induction false} QuotRem(n: int, d: int)
    requires d > 0
    ensures n == (n / d) * d + n % d && 0 <= n % d < d
  {
  }

  lemma {:induction false} ExactQuotient(m: int, g: int)
    requires g > 0 && m % g == 0
    ensures m == (m / g) * g
  {
  }

  lemma {:induction false} MulAssoc(a: int, b: int, c: int)
    ensures a * (b * c) == (a * b) * c
  {
  }

  lemma {:induction false} DivMultiple(q: int, d: int)
    requires d > 0
    ensures (q * d) / d == q && (q * d) % d == 0
  {
    DivUnique(q * d, d, q, 0);
  }

  /** k is at most the quotient exactly when k divisors fit into the dividend. */
  lemma {:induction false} QuotientAtLeast(n: nat, d: nat, k: int)
    requires d > 0
    ensures k <= n / d <==> k * d <= n
  {
    var q := n / d;
    assert n == q * d + n % d;
    if k <= q { MulMono(d, k, q); } else { MulMono(d, q + 1, k); }
  }

  lemma {:induction false} DivNonNegative(n: int, d: int)
    requires 0 <= n && d > 0
    ensures 0 <= n / d <= n
  {
    QuotientAtLeast(n, d, 0);
    QuotientAtLeast(n, d, n + 1);
    MulMono(n + 1, 1, d);
  }
}
