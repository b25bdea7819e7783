/**
 Why multiplying by a rounded reciprocal divides exactly.  Throughout, `b` is the
 divisor, `p` a power of two with p <= b < 2p, and P = p * 2^64.
 */
module Reciprocal {
  import opened Arithmetic
  import opened Powers
  import opened Words

  const MAX: int := 0xffff_ffff_ffff_ffff

  /** `b` is not a power of two. */
  predicate HasOddPart(b: nat) {
    b > 0 && OddPart(b) > 1
  }

  lemma {:induction false} OddPartDividesNoPow2(b: nat, q: nat, k: nat)
    requires HasOddPart(b)
    ensures b * q != Pow2(k)
  {
    var o, g := OddPart(b), LowBit(b);
    LowBitFactor(b);
    MulAssoc(o, g, q);
    if b * q == Pow2(k) {
      OddDividesPow2(o, g * q, k);
    }
  }

  lemma {:induction false} NotDividingW64(b: nat, q: nat)
    requires HasOddPart(b)
    ensures b * q != W64
  {
    Pow2Words();
    OddPartDividesNoPow2(b, q, 64);
  }

  lemma {:induction false} ScaledPow2(l: nat)
    ensures Pow2(l) * W64 == Pow2(l + 64)
  {
    Pow2Words();
    Pow2Add(l, 64);
  }

  // ------------------------------------------------------------- the two reciprocals

  /** 2^64 is not a 64-bit number, so P / b is put together from 2^64 - 1 = q * b + r. */
  lemma {:induction false} PutTogether(b: nat, p: nat, c: int)
    requires 0 < b
    ensures ((MAX / b) * p + c) * b == p * W64 - (MAX % b + 1) * p + c * b
  {
    var q, r := MAX / b, MAX % b;
    assert W64 == q * b + (r + 1);
    assert p * (q * b + (r + 1)) == q * p * b + (r + 1) * p;
    assert (q * p + c) * b == q * p * b + c * b;
  }

  /** m = P / b rounded up, computed without exceeding 64 bits. */
  lemma {:induction false} RoundedUp(b: nat, p: nat) returns (m: nat, e: nat)
    requires 0 < b
    ensures m == (MAX / b) * p + ((MAX % b + 1) * p + b - 1) / b
    ensures m * b == p * W64 + e && e < b
  {
    var s := (MAX % b + 1) * p;
    var c := (s + b - 1) / b;
    m := (MAX / b) * p + c;
    e := b - 1 - (s + b - 1) % b;
    PutTogether(b, p, c);
    QuotRem(s + b - 1, b);
  }

  /** m = P / b rounded down. */
  lemma {:induction false} RoundedDown(b: nat, p: nat) returns (m: nat, f: nat)
    requires 0 < b
    ensures m == (MAX / b) * p + ((MAX % b + 1) * p) / b
    ensures m * b + f == p * W64 && f < b
  {
    var s := (MAX % b + 1) * p;
    var c := s / b;
    m := (MAX / b) * p + c;
    f := s % b;
    PutTogether(b, p, c);
    assert s == c * b + f;
  }

  // ------------------------------------------------------------- rounding up, no bias

  /** The dividend tested: one less than the largest multiple of b. */
  function TestPoint(b: nat): int
    requires b > 0
  {
    MAX / b * b - 1
  }

  /** y / P is q when b * y exceeds b * (P * q) by less than b * P. */
  lemma {:induction false} QuotientByCross(y: int, P: int, b: int, q: int, s: int)
    requires b > 0 && P > 0 && b * y == b * (P * q) + s
    ensures 0 <= s < b * P ==> y / P == q
    ensures b * P <= s ==> y / P > q
  {
    assert b * (P * q + P) == b * (P * q) + b * P;
    if 0 <= s < b * P {
      MulCancelLe(b, P * q, y);
      MulCancel(b, y, P * q + P);
      DivBounds(y, P, q);
    } else if b * P <= s {
      MulCancelLe(b, P * q + P, y);
      DivAbove(y, P, q);
    }
  }

  lemma {:induction false} DivAbove(y: int, P: int, q: int)
    requires P > 0 && P * q + P <= y
    ensures y / P > q
  {
    if y / P <= q { MulMono(P, y / P, q); }
  }

  /** Multiplying m * n / P and n / b through by b. */
  lemma {:induction false} CrossMultiply(m: int, b: int, e: int, P: int, q: int, r: int)
    requires m * b == P + e
    ensures b * (m * (q * b + r)) == b * (P * q) + (P * r + e * (q * b + r))
  {
    var n := q * b + r;
    assert b * (m * n) == (m * b) * n;
    assert (P + e) * n == P * n + e * n;
    assert P * (q * b + r) == b * (P * q) + P * r;
  }

  /** m * n / P is the quotient exactly when the rounding error times n stays small. */
  lemma {:induction false} UpExact(m: nat, b: nat, e: nat, P: nat, n: nat)
    requires b > 0 && P > 0 && m * b == P + e
    ensures (m * n) / P == n / b <==> e * n < P * (b - n % b)
  {
    var q, r := n / b, n % b;
    CrossMultiply(m, b, e, P, q, r);
    assert n == q * b + r;
    MulBounds(P, r, P, r);
    MulBounds(e, n, e, n);
    assert P * (b - r) == b * P - P * r;
    QuotientByCross(m * n, P, b, q, P * r + e * n);
  }

  // ------------------------------------------------------------- what one test proves

  lemma {:induction false} TestPointFacts(b: u32)
    requires b > 0
    ensures 0 <= TestPoint(b) < MAX && TestPoint(b) / b == MAX / b - 1 && TestPoint(b) % b == b - 1
  {
    var q := MAX / b;
    assert q * b - 1 == (q - 1) * b + (b - 1);
    DivUnique(q * b - 1, b, q - 1, b - 1);
    assert q >= 1;
    MulMono(b, 1, q);
  }

  lemma {:induction false} NextMultiple(n: nat, b: nat)
    requires b > 0 && n % b == b - 1
    ensures b * (n / b + 1) == n + 1
  {
  }

  lemma {:induction false} MaxRemainder(b: u32)
    requires HasOddPart(b)
    ensures MAX % b <= b - 2
  {
    if MAX % b == b - 1 {
      NextMultiple(MAX, b);
      NotDividingW64(b, MAX / b + 1);
    }
  }

  /** The few dividends beyond the tested point leave a remainder below b - 1. */
  lemma {:induction false} BeyondTestPoint(b: u32, n: u64)
    requires HasOddPart(b) && n > TestPoint(b)
    ensures n % b <= b - 2 && n - TestPoint(b) <= b - 1
  {
    MaxRemainder(b);
    var q := MAX / b;
    var t := n - q * b;
    assert MAX == q * b + MAX % b;
    DivUnique(n, b, q, t);
  }

  lemma {:induction false} ErrorStaysSmall(P: int, e: nat, b: nat, x: int, n: nat, d: int)
    requires e * x < P && 0 <= e < b && b * b <= P && 0 <= x
    requires (n <= x && 1 <= d) || (x < n <= x + b - 1 && 2 <= d)
    ensures e * n < P * d
  {
    if n <= x {
      MulMono(e, n, x);
      MulMono(P, 1, d);
    } else {
      MulMono(P, 2, d);
      assert e * n == e * x + e * (n - x);
      MulBounds(e, n - x, b, b);
    }
  }

  /** What the outcome of the test says about the rounding error. */
  lemma {:induction false} TestMeaning(b: u32, P: nat, m: nat, e: nat)
    requires b > 0 && P > 0 && m * b == P + e
    ensures m * TestPoint(b) / P == TestPoint(b) / b <==> e * TestPoint(b) < P
  {
    TestPointFacts(b);
    UpExact(m, b, e, P, TestPoint(b));
    assert P * 1 == P;
  }

  lemma {:induction false} ErrorAnywhere(b: u32, P: nat, e: nat, n: u64)
    requires HasOddPart(b) && W64 <= P && e < b && e * TestPoint(b) < P
    ensures e * n < P * (b - n % b)
  {
    TestPointFacts(b);
    MulBounds(b, b, W32, W32);
    if n > TestPoint(b) {
      BeyondTestPoint(b, n);
    }
    ErrorStaysSmall(P, e, b, TestPoint(b), n, b - n % b);
  }

  /** The test at one point certifies every 64-bit dividend. */
  lemma {:induction false} TestCertifies(b: u32, P: nat, m: nat, e: nat, n: u64)
    requires HasOddPart(b) && W64 <= P && m * b == P + e && e < b
    requires m * TestPoint(b) / P == TestPoint(b) / b
    ensures m * n / P == n / b
  {
    TestMeaning(b, P, m, e);
    ErrorAnywhere(b, P, e, n);
    UpExact(m, b, e, P, n);
  }

  // ------------------------------------------------------------- when the test fails

  /** A failed test means a rounding error above p, hence one below p on the other side. */
  lemma {:induction false} FailedTest(b: u32, p: u32, m: nat, e: nat)
    requires b > 0 && 0 < p <= b < 2 * p && m * b == p * W64 + e && e < b
    requires m * TestPoint(b) / (p * W64) != TestPoint(b) / b
    ensures p < e
  {
    TestPointFacts(b);
    TestMeaning(b, p * W64, m, e);
    if e <= p {
      MulBounds(e, TestPoint(b), p, MAX);
    }
  }

  lemma {:induction false} BiasError(p: int, f: int, n: int, r: int, b: int)
    requires 0 < f < p && 0 <= n < W64 && 0 <= r < b
    ensures 0 <= p * W64 * (r + 1) - f * (n + 1) < b * (p * W64)
  {
    MulBounds(f, n + 1, p - 1, W64);
    MulMono(p * W64, 1, r + 1);
    MulMono(p * W64, r + 1, b);
    MulBounds(1, n + 1, f, n + 1);
  }

  /** With the reciprocal rounded down, the biased product is exact if the error is below p. */
  lemma {:induction false} BiasExact(b: nat, p: nat, m: nat, f: nat, n: u64)
    requires b > 0 && 0 < f < p && m * b + f == p * W64
    ensures (m * n + m) / (p * W64) == n / b
  {
    var P, q, r := p * W64, n / b, n % b;
    assert n == q * b + r;
    CrossMultiply(m, b, 0 - f, P, q, r + 1);
    BiasError(p, f, n, r, b);
    assert m * (n + 1) == m * n + m;
    QuotientByCross(m * n + m, P, b, q, P * (r + 1) - f * (n + 1));
  }

  // ------------------------------------------------------------- divisors whose odd part divides 2^64 - 1

  /** m = (2^64 - 1) / o is the reciprocal of o, and again the bias makes up for the rounding. */
  lemma {:induction false} OddPartExact(o: nat, m: nat, k: u64)
    requires o > 0 && m * o == MAX
    ensures (m * k + m) / W64 == k / o
  {
    var q, r := k / o, k % o;
    assert k == q * o + r;
    CrossMultiply(m, o, -1, W64, q, r + 1);
    MulMono(W64, r + 1, o);
    assert m * (k + 1) == m * k + m;
    QuotientByCross(m * k + m, W64, o, q, W64 * (r + 1) - (k + 1));
  }
}
