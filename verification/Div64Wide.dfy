/**
 64-bit by 64-bit division (lib/div64.c): a quotient estimated from the leading bits
 and corrected once.  The estimate drops one bit more than it should when the divisor
 lies in [2^32, 2^34), so one correction does not always suffice there.
 */
module Div64Wide {
  import opened Arithmetic
  import opened Powers
  import opened Words
  import opened Div64

  /** How far both operands are shifted: 1 + fls(high half of the divisor). */
  function Shift(divisor: u64): (k: nat)
    requires divisor >= W32
  {
    1 + (ILog2(divisor / W32) + 1)
  }

  lemma {:induction false} ShiftedDivisor(divisor: u64)
    requires divisor >= W32
    ensures var a, s := Pow2(ILog2(divisor / W32)), Pow2(Shift(divisor));
      && s == 4 * a && a * W32 <= divisor < 2 * a * W32
      && 0x4000_0000 <= divisor / s < 0x8000_0000
  {
    var a, s := Pow2(ILog2(divisor / W32)), Pow2(Shift(divisor));
    var l := ILog2(divisor / W32);
    assert Pow2(l + 1) == 2 * a && Pow2(l + 2) == 2 * Pow2(l + 1);
    assert 0x4000_0000 * s == a * W32 && 0x8000_0000 * s == 2 * a * W32;
    QuotientAtLeast(divisor, s, 0x4000_0000);
    QuotientAtLeast(divisor, s, 0x8000_0000);
  }

  /** The quotient of the shifted operands. */
  function Estimate(dividend: u64, divisor: u64): (q: nat)
    requires divisor >= W32
  {
    var s := Pow2(Shift(divisor));
    ShiftedDivisor(divisor);
    DivNonNegative(dividend, s);
    DivNonNegative(dividend / s, divisor / s);
    (dividend / s) / (divisor / s)
  }

  /** The subtraction that checks the corrected estimate does not wrap. */
  predicate Fits(dividend: u64, divisor: u64)
    requires divisor > 0
  {
    divisor < W32 || Estimate(dividend, divisor) == 0 ||
    (Estimate(dividend, divisor) - 1) * divisor <= dividend
  }

  // ------------------------------------------------------------- how good the estimate is

  lemma {:induction false} ShiftedAtLeast(n: nat, d: nat, s: nat, k: int)
    requires s > 0 && d / s > 0
    ensures k <= (n / s) / (d / s) <==> k * (d - d % s) <= n
  {
    DivNonNegative(n, s);
    QuotientAtLeast(n / s, d / s, k);
    QuotientAtLeast(n, s, k * (d / s));
    MulAssoc(k, d / s, s);
    assert d - d % s == (d / s) * s;
  }

  /** k is at most the estimate exactly when k divisors without their dropped bits fit. */
  lemma {:induction false} EstimateAtLeast(dividend: u64, divisor: u64, k: int)
    requires divisor >= W32
    ensures k <= Estimate(dividend, divisor) <==> k * (divisor - divisor % Pow2(Shift(divisor))) <= dividend
  {
    ShiftedDivisor(divisor);
    ShiftedAtLeast(dividend, divisor, Pow2(Shift(divisor)), k);
  }

  lemma {:induction false} EstimateNotBelow(dividend: u64, divisor: u64)
    requires divisor >= W32
    ensures dividend / divisor <= Estimate(dividend, divisor)
  {
    var q, c := dividend / divisor, divisor % Pow2(Shift(divisor));
    QuotientAtLeast(dividend, divisor, q);
    DivNonNegative(dividend, divisor);
    MulMono(q, divisor - c, divisor);
    EstimateAtLeast(dividend, divisor, q);
  }

  /** If the estimate exceeds the quotient by j, the dropped bits weigh at least j - 1 divisors. */
  lemma {:induction false} Excess(dividend: u64, divisor: u64, j: nat)
    requires divisor >= W32 && Estimate(dividend, divisor) >= dividend / divisor + j
    ensures (j - 1) * divisor < (divisor % Pow2(Shift(divisor))) * (dividend / divisor + j)
  {
    var q, c := dividend / divisor, divisor % Pow2(Shift(divisor));
    EstimateAtLeast(dividend, divisor, q + j);
    QuotientAtLeast(dividend, divisor, q + 1);
    ExcessWeight(dividend, divisor, q, c, j);
  }

  lemma {:induction false} ExcessWeight(n: int, d: int, q: int, c: int, j: int)
    requires (q + j) * (d - c) <= n < (q + 1) * d
    ensures (j - 1) * d < c * (q + j)
  {
    assert (q + j) * (d - c) == (q + 1) * d + (j - 1) * d - c * (q + j);
  }

  lemma {:induction false} QuotientBound(dividend: u64, divisor: u64)
    requires divisor >= W32
    ensures var a := Pow2(ILog2(divisor / W32)); (dividend / divisor) * a < W32
  {
    var q, a := dividend / divisor, Pow2(ILog2(divisor / W32));
    ShiftedDivisor(divisor);
    QuotientAtLeast(dividend, divisor, q);
    DivNonNegative(dividend, divisor);
    MulMono(q, a * W32, divisor);
    MulAssoc(q, a, W32);
  }

  /** From 2^34 on, the estimate is at most one too large. */
  lemma {:induction false} EstimateClose(dividend: u64, divisor: u64)
    requires divisor >= 0x4_0000_0000
    ensures Estimate(dividend, divisor) <= dividend / divisor + 1
  {
    if Estimate(dividend, divisor) >= dividend / divisor + 2 {
      var q, a := dividend / divisor, Pow2(ILog2(divisor / W32));
      ShiftedDivisor(divisor);
      QuotientBound(dividend, divisor);
      DivNonNegative(dividend, divisor);
      Excess(dividend, divisor, 2);
      PowerSteps(ILog2(divisor / W32));
      DroppedBits(q, a, divisor % Pow2(Shift(divisor)), divisor);
    }
  }

  lemma {:induction false} PowerSteps(l: nat)
    ensures Pow2(l) in {1, 2, 4} || Pow2(l) >= 8
  {
    assert Pow2(0) == 1 && Pow2(1) == 2 && Pow2(2) == 4 && Pow2(3) == 8;
    if l >= 3 { Pow2Mono(3, l); }
  }

  lemma {:induction false} DroppedBits(q: nat, a: nat, c: int, d: int)
    requires a * W32 <= d && q * a < W32 && 0 <= c < 4 * a && (a == 4 || a >= 8)
    ensures c * (q + 2) <= d
  {
    MulBounds(c, q + 2, 4 * a - 1, q + 2);
    assert (4 * a - 1) * (q + 2) == 4 * (q * a) + 8 * a - q - 2;
  }

  /** Below 2^34 it is at most three too large. */
  lemma {:induction false} EstimateLoose(dividend: u64, divisor: u64)
    requires W32 <= divisor < 0x4_0000_0000
    ensures Estimate(dividend, divisor) <= dividend / divisor + 3
  {
    if Estimate(dividend, divisor) >= dividend / divisor + 4 {
      var q, a, c := dividend / divisor, Pow2(ILog2(divisor / W32)), divisor % Pow2(Shift(divisor));
      ShiftedDivisor(divisor);
      QuotientBound(dividend, divisor);
      DivNonNegative(dividend, divisor);
      Excess(dividend, divisor, 4);
      PowerSteps(ILog2(divisor / W32));
      QuotientAtLeast(dividend, divisor, q);
      FewBits(q, a, c, divisor, dividend);
    }
  }

  lemma {:induction false} FewBits(q: nat, a: nat, c: int, d: int, n: int)
    requires 0 <= c < 4 * a && q * a < W32 && q * d <= n < W64 && (a == 1 || a == 2)
    requires a * W32 <= d && (a == 1 ==> d % 4 == c)
    ensures c * (q + 4) <= 3 * d
  {
    if a == 1 && c == 3 {
      assert d >= W32 + 3;
      if q >= W32 - 2 { MulBounds(W32 - 2, W32 + 3, q, d); }
    } else if a == 1 {
      MulBounds(c, q + 4, 2, q + 4);
    } else {
      MulBounds(c, q + 4, 7, q + 4);
    }
  }

  // ------------------------------------------------------------- the divisions

  /** One correction suffices exactly when the estimate is at most one too large. */
  lemma {:induction false} FitsMeaning(dividend: u64, divisor: u64)
    requires divisor > 0
    ensures Fits(dividend, divisor) <==> divisor < W32 || Estimate(dividend, divisor) <= dividend / divisor + 1
  {
    DivNonNegative(dividend, divisor);
    if divisor >= W32 {
      QuotientAtLeast(dividend, divisor, Estimate(dividend, divisor) - 1);
    }
  }

  lemma {:induction false} FitsFromHere(dividend: u64, divisor: u64)
    requires 0 < divisor < W32 || 0x4_0000_0000 <= divisor
    ensures Fits(dividend, divisor)
  {
    FitsMeaning(dividend, divisor);
    if divisor >= W32 {
      EstimateClose(dividend, divisor);
    }
  }

  /** The same in the operands: the next multiple but one of what is left of the divisor exceeds the dividend. */
  lemma {:induction false} FitsOperands(dividend: u64, divisor: u64)
    requires divisor > 0
    ensures Fits(dividend, divisor) <==>
      divisor < W32 || dividend < (dividend / divisor + 2) * (divisor - divisor % Pow2(Shift(divisor)))
  {
    FitsMeaning(dividend, divisor);
    if divisor >= W32 { EstimateAtLeast(dividend, divisor, dividend / divisor + 2); }
  }

  /** The value that the code returns. */
  function Quotient(dividend: u64, divisor: u64): nat
    requires divisor > 0
  {
    DivNonNegative(dividend, divisor);
    if Fits(dividend, divisor) then dividend / divisor else Estimate(dividend, divisor)
  }

  /** It is the mathematical quotient exactly when `Fits` holds. */
  lemma {:induction false} ExactIffFits(dividend: u64, divisor: u64)
    requires divisor > 0
    ensures Quotient(dividend, divisor) == dividend / divisor <==> Fits(dividend, divisor)
  {
    FitsMeaning(dividend, divisor);
  }

  /** A dividend and a divisor for which it is not. */
  lemma {:induction false} InexactExample()
    ensures var n, d := 0xffff_ffff_ffff_ffff, 0x1_0000_0003;
      !Fits(n, d) && Quotient(n, d) == 0xffff_ffff && n / d == 0xffff_fffd
  {
    var d := 0x1_0000_0003;
    assert d / W32 == 1;
    assert ILog2(1) == 0;
    assert Pow2(2) == 4 by { assert Pow2(1) == 2; }
  }

  lemma {:induction false} EstimateFits(dividend: u64, divisor: u64)
    requires divisor >= W32
    ensures Estimate(dividend, divisor) < W64
  {
    ShiftedDivisor(divisor);
    DivNonNegative(dividend, Pow2(Shift(divisor)));
    DivNonNegative(dividend / Pow2(Shift(divisor)), divisor / Pow2(Shift(divisor)));
  }

  /** The estimate, one less if it is not zero, and the wrapped rest of the dividend. */
  method Guess(dividend: u64, divisor: u64) returns (quot: u64)
    requires divisor >= W32
    ensures quot == if Estimate(dividend, divisor) == 0 then 0 else Estimate(dividend, divisor) - 1
  {
    ShiftedDivisor(divisor);
    EstimateFits(dividend, divisor);
    var f := Fls(High(divisor));
    var n := 1 + f;
    DivNonNegative(dividend, Pow2(n));
    var dividend': u64, divisor': u32 := dividend / Pow2(n), Wrap32(divisor / Pow2(n));
    var rem;
    quot, rem := DivU64Rem(dividend', divisor');
    if quot != 0 {
      quot := quot - 1;
    }
  }

  /** The wrapped rest after subtracting est - 1 divisors, for a good estimate ... */
  lemma {:induction false} RestExact(n: u64, d: u64, q: nat, r: nat, est: nat, quot: nat)
    requires n == q * d + r && r < d && q <= est <= q + 1 && quot == if est == 0 then 0 else est - 1
    ensures var w := Wrap64(n - quot * d);
      q == (if w >= d then quot + 1 else quot) && r == if w >= d then w - d else w
  {
    assert (q - 1) * d == q * d - d;
    if quot == q {
      assert n - quot * d == r;
    } else {
      MulMono(d, 0, q - 1);
      assert n - quot * d == r + d;
    }
  }

  /** ... and for a bad one. */
  lemma {:induction false} RestWraps(n: u64, d: u64, q: nat, r: nat, quot: int)
    requires n == q * d + r && r < d < 0x4_0000_0000 && (quot == q + 1 || quot == q + 2)
    ensures Wrap64(n - quot * d) >= d
  {
    assert (q + 1) * d == q * d + d && (q + 2) * d == q * d + 2 * d;
  }

  lemma {:induction false} CorrectionFits(dividend: u64, divisor: u64, quot: u64)
    requires divisor >= W32 && Fits(dividend, divisor)
    requires quot == if Estimate(dividend, divisor) == 0 then 0 else Estimate(dividend, divisor) - 1
    ensures var r := Wrap64(dividend - quot * divisor);
      && dividend / divisor == (if r >= divisor then quot + 1 else quot)
      && dividend % divisor == if r >= divisor then r - divisor else r
  {
    var est := Estimate(dividend, divisor);
    DivNonNegative(dividend, divisor);
    EstimateNotBelow(dividend, divisor);
    FitsMeaning(dividend, divisor);
    assert dividend / divisor <= est <= dividend / divisor + 1;
    RestExact(dividend, divisor, dividend / divisor, dividend % divisor, est, quot);
  }

  lemma {:induction false} CorrectionMisses(dividend: u64, divisor: u64, quot: u64)
    requires divisor >= W32 && !Fits(dividend, divisor)
    requires quot == if Estimate(dividend, divisor) == 0 then 0 else Estimate(dividend, divisor) - 1
    ensures Wrap64(dividend - quot * divisor) >= divisor && quot + 1 == Estimate(dividend, divisor)
  {
    DivNonNegative(dividend, divisor);
    FitsMeaning(dividend, divisor);
    FitsFromHereNot(dividend, divisor);
    EstimateLoose(dividend, divisor);
    RestWraps(dividend, divisor, dividend / divisor, dividend % divisor, quot);
  }

  /** What the comparison of the wrapped rest with the divisor finds out. */
  lemma {:induction false} Correction(dividend: u64, divisor: u64, quot: u64)
    requires divisor >= W32
    requires quot == if Estimate(dividend, divisor) == 0 then 0 else Estimate(dividend, divisor) - 1
    ensures var r := Wrap64(dividend - quot * divisor);
      && Quotient(dividend, divisor) == (if r >= divisor then quot + 1 else quot) < W64
      && (Fits(dividend, divisor) ==> dividend % divisor == if r >= divisor then r - divisor else r)
  {
    DivNonNegative(dividend, divisor);
    EstimateFits(dividend, divisor);
    if Fits(dividend, divisor) {
      CorrectionFits(dividend, divisor, quot);
    } else {
      CorrectionMisses(dividend, divisor, quot);
    }
  }

  lemma {:induction false} FitsFromHereNot(dividend: u64, divisor: u64)
    requires divisor > 0 && !Fits(dividend, divisor)
    ensures W32 <= divisor < 0x4_0000_0000
  {
    if divisor < W32 || 0x4_0000_0000 <= divisor {
      FitsFromHere(dividend, divisor);
    }
  }

  method Div64U64(dividend: u64, divisor: u64) returns (quot: u64)
    requires divisor > 0
    ensures quot == Quotient(dividend, divisor)
  {
    if High(divisor) == 0 {
      var rem;
      quot, rem := DivU64Rem(dividend, divisor);
    } else {
      quot := Guess(dividend, divisor);
      Correction(dividend, divisor, quot);
      if Wrap64(dividend - quot * divisor) >= divisor {
        quot := quot + 1;
      }
    }
  }

  lemma {:induction false} WrapMinus(x: int, d: u64)
    requires Wrap64(x) >= d
    ensures Wrap64(x) - d == Wrap64(x - d)
  {
  }

  lemma {:induction false} OneMoreDivisor(n: int, q: int, d: int)
    ensures n - q * d - d == n - (q + 1) * d
  {
  }

  method Div64U64Rem(dividend: u64, divisor: u64) returns (quot: u64, remainder: u64)
    requires divisor > 0
    ensures quot == Quotient(dividend, divisor) && remainder == Wrap64(dividend - quot * divisor)
    ensures Fits(dividend, divisor) ==> remainder == dividend % divisor
  {
    if High(divisor) == 0 {
      quot, remainder := DivU64Rem(dividend, divisor);
      QuotRem(dividend, divisor);
    } else {
      quot := Guess(dividend, divisor);
      Correction(dividend, divisor, quot);
      remainder := Wrap64(dividend - quot * divisor);
      if remainder >= divisor {
        WrapMinus(dividend - quot * divisor, divisor);
        OneMoreDivisor(dividend, quot, divisor);
        quot := quot + 1;
        remainder := remainder - divisor;
      }
    }
  }
}
