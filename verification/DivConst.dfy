/**
 Division of a 64-bit number by a 32-bit constant, as include/div64.h does it on
 32-bit machines: multiplication by a precomputed reciprocal.
 */
module DivConst {
  import opened Arithmetic
  import opened Powers
  import opened Words
  import opened Reciprocal
  import opened Xprod

  // ------------------------------------------------------------- shrinking m and p

  lemma {:induction false} Pow2Divides(s: nat, k: nat)
    requires s <= k
    ensures Pow2(k) % Pow2(s) == 0 && Pow2(k) / Pow2(s) == Pow2(k - s)
  {
    Pow2Add(k - s, s);
    DivMultiple(Pow2(k - s), Pow2(s));
  }

  /** Every power of two up to the lowest set bit divides a number. */
  lemma {:induction false} LowBitDivides(m: nat, s: nat)
    requires m > 0 && s <= TrailingZeros(m)
    ensures m % Pow2(s) == 0
  {
    var k := TrailingZeros(m);
    var q := OddPart(m);
    LowBitFactor(m);
    Pow2Add(k - s, s);
    MulAssoc(q, Pow2(k - s), Pow2(s));
    DivMultiple(q * Pow2(k - s), Pow2(s));
  }

  /** Shrinking m and p by the same power of two changes no quotient. */
  lemma {:induction false} ShrinkingKeeps(m: nat, p: nat, g: nat, n: nat)
    requires g > 0 && p > 0 && m % g == 0 && p % g == 0
    ensures p / g > 0
    ensures ((m / g) * n / W64) / (p / g) == (m * n / W64) / p
  {
    var m', p' := m / g, p / g;
    assert m == g * m' && p == g * p';
    assert p' > 0 by {
      if p' == 0 { assert p == g * 0; }
    }
    MulBounds(m', n, m', n);
    DivDiv(m' * n, W64, p');
    DivDiv(m * n, W64, p);
    var y := m' * n;
    assert m * n == y * g;
    DivDiv(y * g, g, W64 * p');
    DivMultiple(y, g);
    assert g * (W64 * p') == W64 * p;
  }

  lemma {:induction false} OrFits(a: u32, b: u32)
    ensures BitOr(a, b) < W32
  {
    Pow2Words();
    BitOrBound(a, b, 32);
  }

  /** The candidate shifts, one bit each: zero bits of the upper half of m below its lowest set bit. */
  function Candidates(low: int, high: u32): (bits: u32)
    requires 0 < low <= 0x8000_0000
    ensures bits < 2 * low
  {
    var neg: u32 := Wrap32(0 - low);
    assert neg == W32 - low;
    OrFits(neg, high);
    var bits: u32 := BitOr(neg, high);
    Wrap32((0xffff_ffff - bits) * 2)
  }

  lemma {:induction false} SameRatio(m: nat, p: nat, g: nat)
    requires g > 0 && m % g == 0 && p % g == 0 && p > 0
    ensures p / g > 0 && (m / g) * p == m * (p / g)
  {
    ExactQuotient(m, g);
    ExactQuotient(p, g);
    QuotientAtLeast(p, g, 1);
    var a, b := m / g, p / g;
    assert a * (b * g) == (a * g) * b;
    if b <= 0 { MulMono(g, b, 0); }
  }

  /** The reduction chosen by the macro. */
  method Shrink(m: u64, p: u32, ghost l: nat) returns (m': u64, p': u32, ghost g: nat)
    requires m > 0 && p == Pow2(l) && LowBit(m) <= p <= 0x8000_0000
    ensures g > 0 && m % g == 0 && p % g == 0 && m' == m / g && p' == p / g
    ensures p' > 0 && m' * p == m * p'
  {
    ghost var k := TrailingZeros(m);
    KeepsBelow(k, l);
    var bits := Candidates(LowBit(m), High(m));
    ghost var s := if bits == 0 then k else ILog2(bits);
    Pow2Below(s, k + 1);
    LowBitDivides(m, s);
    Pow2Divides(s, l);
    g := Pow2(s);
    DivNonNegative(m, g);
    DivNonNegative(p, g);
    if bits == 0 {
      p' := p / LowBit(m);
      m' := m / LowBit(m);
    } else {
      p' := p / Pow2(ILog2(bits));
      m' := m / Pow2(ILog2(bits));
    }
    SameRatio(m, p, g);
  }

  lemma {:induction false} KeepsBelow(k: nat, l: nat)
    requires Pow2(k) <= Pow2(l)
    ensures k <= l
  {
    if l < k { Pow2Mono(l + 1, k); }
  }

  // ------------------------------------------------------------- the rounding errors

  lemma {:induction false} ErrorsPositive(b: nat, l: nat, m: nat, e: int)
    requires HasOddPart(b) && m * b == Pow2(l) * W64 + e
    ensures e != 0
  {
    ScaledPow2(l);
    OddPartDividesNoPow2(b, m, l + 64);
  }

  /** Rounding up and rounding down leave errors that add up to b. */
  lemma {:induction false} ErrorsAddUp(b: int, P: int, m: int, e: int, m': int, f: int)
    requires m * b == P + e && m' * b + f == P && 0 < e < b && 0 < f < b
    ensures e + f == b && m' < m
  {
    var d := m - m';
    assert d * b == e + f;
    if d >= 2 { MulMono(b, 2, d); }
    if d <= 0 { MulMono(b, d, 0); }
  }

  /** A common divisor of two terms of a positive difference is at most the difference. */
  lemma {:induction false} DivisorBelow(g: int, x: int, t: int, e: int)
    requires g > 0 && g * x == g * t + e && e > 0
    ensures g <= e
  {
    assert g * (x - t) == e;
    if x - t <= 0 { MulMono(g, x - t, 0); }
    MulMono(g, 1, x - t);
  }

  lemma {:induction false} LowBitPosition(m: u64)
    requires m > 0
    ensures TrailingZeros(m) < 64
  {
    LowBitFactor(m);
    Pow2Words();
    Pow2Below(TrailingZeros(m), 64);
  }

  /** The lowest set bit of m divides its rounding error ... */
  lemma {:induction false} LowBitBelowError(b: nat, l: nat, m: u64, e: nat)
    requires m > 0 && m * b == Pow2(l + 64) + e && 0 < e
    ensures LowBit(m) <= e
  {
    LowBitPosition(m);
    var g, q, t := LowBit(m), OddPart(m), Pow2(l + 64 - TrailingZeros(m));
    assert g * t == Pow2(l + 64) by {
      Pow2Add(TrailingZeros(m), l + 64 - TrailingZeros(m));
    }
    assert g * (q * b) == m * b by {
      LowBitFactor(m);
      MulAssoc(g, q, b);
    }
    DivisorBelow(g, q * b, t, e);
  }

  /** ... so p can be divided by it. */
  lemma {:induction false} LowBitBelowP(b: nat, l: nat, m: u64, e: nat)
    requires m > 0 && m * b == Pow2(l) * W64 + e && 0 < e < b < 2 * Pow2(l)
    ensures LowBit(m) <= Pow2(l)
  {
    ScaledPow2(l);
    LowBitBelowError(b, l, m, e);
    Pow2Below(TrailingZeros(m), l + 1);
    Pow2Mono(TrailingZeros(m), l);
  }

  /** m fits in 64 bits, and so does the partial sum it is computed from. */
  lemma {:induction false} ReciprocalFits(b: int, p: int, m: int, e: int)
    requires 0 < p < b && m * b == p * W64 + e && e < b < W64
    ensures m < W64
  {
    if m >= W64 {
      MulMono(b, W64, m);
      MulMono(W64, p + 1, b);
    }
  }

  // ------------------------------------------------------------- the three cases

  /** b with the power of two p below it, and the reciprocal m rounded up with error e. */
  ghost predicate Setup(b: u32, l: nat, m: u64, e: nat) {
    && HasOddPart(b) && Pow2(l) < b < 2 * Pow2(l)
    && m * b == Pow2(l) * W64 + e && 0 < e < b
  }

  lemma {:induction false} SetUp(b: u32) returns (m: u64, e: nat)
    requires HasOddPart(b)
    ensures m == (MAX / b) * Pow2(ILog2(b)) + ((MAX % b + 1) * Pow2(ILog2(b)) + b - 1) / b
    ensures Setup(b, ILog2(b), m, e)
  {
    var l := ILog2(b);
    if Pow2(l) == b {
      OddPartDividesNoPow2(b, 1, l);
    }
    var m', e' := RoundedUp(b, Pow2(l));
    ErrorsPositive(b, l, m', e');
    ReciprocalFits(b, Pow2(l), m', e');
    m, e := m', e';
  }

  /** Odd part dividing 2^64 - 1. */
  lemma {:induction false} SpecialCase(b: u32, n: u64)
    requires b > 0 && MAX % OddPart(b) == 0
    ensures var (m, k) := (MAX / OddPart(b), n / LowBit(b)); (m + m * k) / W64 == n / b
    ensures 0 <= n / LowBit(b) < W64 && 0 <= MAX / OddPart(b) < W64
  {
    var o, g := OddPart(b), LowBit(b);
    LowBitFactor(b);
    ExactQuotient(MAX, o);
    DivNonNegative(n, g);
    DivNonNegative(MAX, o);
    OddPartExact(o, MAX / o, n / g);
    DivDiv(n, g, o);
    assert g * o == b;
  }

  lemma {:induction false} FailedMeans(b: u32, l: nat, m: u64, e: nat)
    requires Setup(b, l, m, e) && Pow2(l) < W32
    requires (m * TestPoint(b) / W64) / Pow2(l) != TestPoint(b) / b
    ensures Pow2(l) < e
  {
    TestPointFacts(b);
    NestedDivision(m, TestPoint(b), 0, Pow2(l));
    FailedTest(b, Pow2(l), m, e);
  }

  /** The reciprocal rounded down, next to the one rounded up. */
  lemma {:induction false} DownNextToUp(b: u32, l: nat, m: u64, e: nat) returns (d: u64, f: nat)
    requires Setup(b, l, m, e)
    ensures d == (MAX / b) * Pow2(l) + ((MAX % b + 1) * Pow2(l)) / b
    ensures d * b + f == Pow2(l) * W64 && 0 < f && e + f == b
  {
    var d', f' := RoundedDown(b, Pow2(l));
    assert f' != 0 by {
      if f' == 0 { ErrorsPositive(b, l, d', 0); }
    }
    ErrorsAddUp(b, Pow2(l) * W64, m, e, d', f');
    d, f := d', f';
  }

  /** The test failed: rounding down with a bias is exact. */
  lemma {:induction false} BiasCase(b: u32, l: nat, m: u64, e: nat, n: u64) returns (d: u64)
    requires Setup(b, l, m, e) && Pow2(l) < W32
    requires (m * TestPoint(b) / W64) / Pow2(l) != TestPoint(b) / b
    ensures d == (MAX / b) * Pow2(l) + ((MAX % b + 1) * Pow2(l)) / b
    ensures ((d + d * n) / W64) / Pow2(l) == n / b
  {
    FailedMeans(b, l, m, e);
    var f: nat;
    d, f := DownNextToUp(b, l, m, e);
    BiasExact(b, Pow2(l), d, f, n);
    NestedDivision(d, n, d, Pow2(l));
  }

  lemma {:induction false} NestedDivision(m: nat, n: nat, c: nat, p: nat)
    requires p > 0
    ensures ((c + m * n) / W64) / p == (m * n + c) / (p * W64)
  {
    MulBounds(m, n, m, n);
    DivDiv(c + m * n, W64, p);
    assert W64 * p == p * W64;
  }

  /** The test succeeded: m is exact for every dividend, and remains so when it shrinks. */
  lemma {:induction false} CertifiedCase(b: u32, l: nat, m: u64, e: nat, g: nat, n: u64)
    requires Setup(b, l, m, e)
    requires (m * TestPoint(b) / W64) / Pow2(l) == TestPoint(b) / b
    requires g > 0 && m % g == 0 && Pow2(l) % g == 0
    ensures Pow2(l) / g > 0 && ((m / g) * n / W64) / (Pow2(l) / g) == n / b
  {
    var p := Pow2(l);
    TestPointFacts(b);
    NestedDivision(m, TestPoint(b), 0, p);
    MulMono(W64, 1, p);
    TestCertifies(b, p * W64, m, e, n);
    NestedDivision(m, n, 0, p);
    ShrinkingKeeps(m, p, g, n);
  }

  // ------------------------------------------------------------- the macro

  method CarryingSum(ll: u64, lh: u64, hl: u64) returns (res: u64)
    requires lh <= PMAX
    ensures res == (ll / W32 + lh + hl) / W32
  {
    res := ll / W32;
    res := res + lh;
    var t: u64 := res;
    res := Wrap64(res + hl);
    t := if res < t then W32 else 0;
    res := res / W32 + t;
  }

  /** The product test, written out in the macro on 32-bit halves. */
  method TestProduct(m: u64, x: u64) returns (res: u64)
    ensures res == m * x / W64
  {
    var ml: int, mh: int, xl: int, xh: int := Low(m), High(m), Low(x), High(x);
    HalvesBounds(m, xl);
    HalvesBounds(m, xh);
    var ll: u64, lh: u64, hl: u64, hh: u64 := ml * xl, ml * xh, mh * xl, mh * xh;
    res := CarryingSum(ll, lh, hl);
    ProductOfHalves(mh, ml, xh, xl);
    NestedShift(ll, lh + hl, hh);
    UpperHalfFits(m, x, 0);
    res := res + hh;
  }

  lemma {:induction false} TermsFit(b: u32, p: u32)
    requires 0 < p <= b
    ensures 0 <= (MAX / b) * p < W64 && 0 <= (MAX % b + 1) * p
  {
    MulMono(MAX / b, p, b);
  }

  lemma {:induction false} NoWrap(x: u64)
    ensures Wrap64(x) == x
  {
  }

  /** p and m = (p * 2^64 + b - 1) / b. */
  method UpReciprocal(b: u32) returns (p: u32, m: u64, ghost e: nat)
    requires b > 0
    ensures p == Pow2(ILog2(b)) && p <= 0x8000_0000
    ensures HasOddPart(b) ==> Setup(b, ILog2(b), m, e)
  {
    e := 0;
    p := Pow2(ILog2(b));
    TopPower(b);
    TermsFit(b, p);
    var first: u64 := (MAX / b) * p;
    var second := ((MAX % b + 1) * p + b - 1) / b;
    if HasOddPart(b) {
      ghost var up;
      up, e := SetUp(b);
      assert up == first + second;
      NoWrap(up);
    }
    m := Wrap64(first + second);
  }

  lemma {:induction false} TopPower(b: u32)
    requires b > 0
    ensures Pow2(ILog2(b)) <= 0x8000_0000
  {
    Pow2Words();
    Pow2Below(ILog2(b), 32);
    Pow2Mono(ILog2(b), 31);
  }

  /** The test of m at one less than the dividend with the highest quotient. */
  method TestReciprocal(b: u32, p: u32, m: u64) returns (exact: bool)
    requires b > 0 && p > 0
    ensures exact <==> (m * TestPoint(b) / W64) / p == TestPoint(b) / b
  {
    TestPointFacts(b);
    var x: u64 := MAX / b * b - 1;
    var res := TestProduct(m, x);
    DivNonNegative(res, p);
    res := res / p;
    exact := res == x / b;
  }

  /** What to divide n by first, multiply it by and divide it by give n / b. */
  ghost predicate Divides(b: u32, scale: nat, m: u64, p: u32, bias: bool, n: u64)
    requires b > 0 && scale > 0 && p > 0
  {
    (((if bias then m else 0) + m * (n / scale)) / W64) / p == n / b
  }

  /** m = p * 2^64 / b, to be used with a bias. */
  method DownReciprocal(b: u32, p: u32, ghost up: u64, ghost e: nat) returns (m: u64)
    requires b > 0 && Setup(b, ILog2(b), up, e) && p == Pow2(ILog2(b))
    requires (up * TestPoint(b) / W64) / p != TestPoint(b) / b
    ensures forall n: u64 :: Divides(b, 1, m, p, true, n)
  {
    ghost var d, f := DownNextToUp(b, ILog2(b), up, e);
    TermsFit(b, p);
    m := (MAX / b) * p;
    m := m + ((MAX % b + 1) * p) / b;
    forall n: u64 ensures Divides(b, 1, m, p, true, n) {
      var d' := BiasCase(b, ILog2(b), up, e, n);
    }
  }

  /** The odd part of b divides 2^64 - 1. */
  method OddReciprocal(b: u32) returns (scale: u64, m: u64)
    requires b > 0 && MAX % OddPart(b) == 0 && b / LowBit(b) == OddPart(b) && LowBit(b) <= b
    ensures scale > 0 && forall n: u64 :: Divides(b, scale, m, 1, true, n)
  {
    SpecialCase(b, 0);
    scale := LowBit(b);
    m := MAX / (b / LowBit(b));
    forall n: u64 ensures Divides(b, scale, m, 1, true, n) { SpecialCase(b, n); }
  }

  /** The reciprocal that passed the test, shrunk. */
  method ShrunkReciprocal(b: u32, p0: u32, m0: u64, ghost e: nat) returns (m: u64, p: u32)
    requires b > 0 && Setup(b, ILog2(b), m0, e) && p0 == Pow2(ILog2(b)) && p0 <= 0x8000_0000
    requires (m0 * TestPoint(b) / W64) / p0 == TestPoint(b) / b
    ensures p > 0 && forall n: u64 :: Divides(b, 1, m, p, false, n)
  {
    LowBitBelowP(b, ILog2(b), m0, e);
    ghost var g;
    m, p, g := Shrink(m0, p0, ILog2(b));
    forall n: u64 ensures Divides(b, 1, m, p, false, n) { CertifiedCase(b, ILog2(b), m0, e, g, n); }
  }

  /** The part of the macro that the compiler evaluates; its constants serve every 64-bit dividend. */
  method Precompute(b: u32) returns (scale: u64, m: u64, p: u32, bias: bool)
    requires b > 0
    ensures scale > 0 && p > 0 && forall n: u64 :: Divides(b, scale, m, p, bias, n)
  {
    LowBitQuotient(b);
    LowBitFactor(b);
    ghost var e;
    p, m, e := UpReciprocal(b);
    var exact := TestReciprocal(b, p, m);
    scale, bias := 1, true;
    if MAX % (b / LowBit(b)) == 0 {
      scale, m := OddReciprocal(b);
      p := 1;
    } else if !exact {
      m := DownReciprocal(b, p, m, e);
    } else {
      m, p := ShrunkReciprocal(b, p, m, e);
      bias := false;
    }
  }

  /** n / b by one 64x64-bit multiplication. */
  method Div64Const32(n: u64, b: u32) returns (res: u64)
    requires b > 0
    ensures res == n / b
  {
    var scale, m, p, bias := Precompute(b);
    assert Divides(b, scale, m, p, bias, n);
    DivNonNegative(n, scale);
    res := Xprod64(m, n / scale, bias);
    DivNonNegative(res, p);
    res := res / p;
  }
}
