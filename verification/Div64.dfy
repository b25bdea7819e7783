/**
 The 64-bit divisions of lib/div64.c and do_div of include/div64.h.
 */
module Div64 {
  import opened Arithmetic
  import opened Powers
  import opened Words
  import opened DivConst

  // ------------------------------------------------------------- shift and subtract

  /** Doubles until the multiple of base reaches r, or bit 63. */
  method ScaleUp(base: u32, r: u64) returns (b: u64, d: u64, ghost k: nat)
    requires base > 0
    ensures d == Pow2(k) && b == base * d && r < 2 * b
  {
    b, d, k := base, 1, 0;
    while b < W63 && b < r
      invariant d == Pow2(k) && b == base * d && 0 < b && d <= b
      decreases W64 - b
    {
      assert base * (d + d) == b + b;
      b := b + b;
      d := d + d;
      k := k + 1;
    }
  }

  /** Subtracts falling multiples of base. */
  method SubtractDown(base: u32, b0: u64, d0: u64, r0: u64, res0: u64, ghost k0: nat, ghost n: u64)
    returns (res: u64, r: u64)
    requires base > 0 && d0 == Pow2(k0) && b0 == base * d0 && r0 < 2 * b0 && res0 * base + r0 == n
    ensures res * base + r == n && r < base
  {
    var b: u64, d: u64 := b0, d0;
    ghost var k := k0;
    res, r := res0, r0;
    while true
      invariant d == Pow2(k) && b == base * d && r < 2 * b && res * base + r == n
      decreases k
    {
      if r >= b {
        StepFits(res, d, base, r, n);
        r := r - b;
        res := res + d;
      }
      assert k > 0 ==> base * d == 2 * (base * Pow2(k - 1));
      b := b / 2;
      d := d / 2;
      if d == 0 {
        break;
      }
      k := k - 1;
    }
  }

  /** Divides by trying base * 2^k for falling k. */
  method Div64By32(n: u64, base: u32) returns (res: u64, rem: u32)
    requires base > 0
    ensures res == n / base && rem == n % base
  {
    var r: u64 := n;
    res := 0;
    var high: u32 := High(n);
    if high >= base {
      TopDigit(n, base);
      high := high / base;
      res := high * W32;
      var product: u32 := high * base;
      r := r - product * W32;
    }
    var b, d, k := ScaleUp(base, r);
    res, r := SubtractDown(base, b, d, r, res, k, n);
    DivUnique(n, base, res, r);
    rem := r;
  }

  lemma {:induction false} TopDigit(n: u64, base: u32)
    requires base > 0
    ensures var h := High(n) / base;
      && 0 <= h * W32 < W64 && 0 <= h * base * W32 <= n && (h * W32) * base == h * base * W32
      && 0 <= h * base < W32
  {
    var h := High(n) / base;
    assert h * base <= High(n);
    assert (h * W32) * base == h * base * W32;
    MulMono(h, 1, base);
  }

  lemma {:induction false} StepFits(res: u64, d: u64, base: u32, r: u64, n: u64)
    requires base > 0 && res * base + r == n && r >= base * d
    ensures res + d < W64 && (res + d) * base + (r - base * d) == n
  {
    assert (res + d) * base == res * base + base * d;
    MulMono(res + d, 1, base);
  }

  // ------------------------------------------------------------- do_div

  predicate IsPowerOf2(b: u32) {
    b != 0 && BitAnd(b, b - 1) == 0
  }

  /** Replaces n by its quotient and returns the remainder.  `constant` says that the
      compiler knows the base, `reciprocals` that it is fit for reciprocal division. */
  method DoDiv(n: u64, base: u32, constant: bool, reciprocals: bool) returns (quotient: u64, rem: u32)
    requires base > 0
    ensures quotient == n / base && rem == n % base
  {
    if constant && IsPowerOf2(base) {
      SingleBit(base);
      AndMask(n, ILog2(base));
      rem := BitAnd(n, base - 1);
      DivNonNegative(n, base);
      quotient := n / Pow2(ILog2(base));
    } else if reciprocals && constant {
      var nLow: u32 := Low(n);
      quotient := Div64Const32(n, base);
      var resLow: u32 := Low(quotient);
      LowRemainder(n, base, quotient);
      rem := Wrap32(nLow - Wrap32(resLow * base));
    } else if High(n) == 0 {
      DivNonNegative(n, base);
      rem := n % base;
      quotient := n / base;
    } else {
      quotient, rem := Div64By32(n, base);
    }
  }

  /** The remainder can be computed with 32-bit registers. */
  lemma {:induction false} LowRemainder(n: u64, base: u32, q: u64)
    requires base > 0 && q == n / base
    ensures Wrap32(Low(n) - Wrap32(Low(q) * base)) == n % base
  {
    var qh, ql := q / W32, q % W32;
    var x := ql * base;
    assert n == q * base + n % base;
    assert (qh * W32 + ql) * base == (qh * base) * W32 + x;
    Congruent(n % base, Low(n) - Wrap32(x), High(n) - x / W32 - qh * base);
  }

  lemma {:induction false} Congruent(r: int, y: int, j: int)
    requires r == y + j * W32 && 0 <= r < W32
    ensures Wrap32(y) == r
  {
  }

  method DivU64Rem(dividend: u64, divisor: u32) returns (quotient: u64, rem: u32)
    requires divisor > 0
    ensures quotient == dividend / divisor && rem == dividend % divisor
  {
    quotient, rem := DoDiv(dividend, divisor, false, true);
  }

  // ------------------------------------------------------------- find last set

  /** One test of the chain: `y`, which is `x` shifted by 32 - r, moves up by `k` bits if these are free. */
  method MoveUp(y: u32, r: nat, k: nat, unit: nat, bound: nat, ghost x: nat) returns (y': u32, r': nat)
    requires k <= r <= 32 && y == x * Pow2(32 - r) && unit == Pow2(k) && (y < bound ==> y * unit < W32)
    ensures k <= r && r' == (if y < bound then r - k else r) && y' == if y < bound then y * unit else y
    ensures y' == x * Pow2(32 - r')
  {
    y', r' := y, r;
    if y < bound {
      Shifted(x, 32 - r, k);
      y', r' := y * unit, r - k;
    }
  }

  lemma {:induction false} SmallPowers()
    ensures Pow2(0) == 1 && Pow2(1) == 2 && Pow2(2) == 4 && Pow2(4) == 0x10 && Pow2(8) == 0x100 && Pow2(16) == 0x1_0000
  {
    assert Pow2(0) == 1 && Pow2(1) == 2 && Pow2(2) == 4;
    Pow2Square(4, 0x10);
    Pow2Square(8, 0x100);
  }

  /** 1 + the position of the most significant set bit, or 0. */
  method Fls(x: u32) returns (r: nat)
    ensures x == 0 ==> r == 0
    ensures x > 0 ==> r == ILog2(x) + 1 && r <= 32
  {
    if x == 0 {
      return 0;
    }
    SmallPowers();
    var y: u32 := x;
    r := 32;
    y, r := MoveUp(y, r, 16, 0x1_0000, 0x1_0000, x);
    y, r := MoveUp(y, r, 8, 0x100, 0x100_0000, x);
    y, r := MoveUp(y, r, 4, 0x10, 0x1000_0000, x);
    y, r := MoveUp(y, r, 2, 4, 0x4000_0000, x);
    y, r := MoveUp(y, r, 1, 2, 0x8000_0000, x);
    TopBit(x, r);
  }

  lemma {:induction false} Shifted(x: nat, a: nat, b: nat)
    ensures x * Pow2(a) * Pow2(b) == x * Pow2(a + b)
  {
    Pow2Add(a, b);
    MulAssoc(x, Pow2(a), Pow2(b));
  }

  lemma {:induction false} Sandwich(l: int, x: int, s: int)
    requires l <= x < 2 * l && s > 0
    ensures l * s <= x * s < 2 * (l * s)
  {
    MulMono(s, l, x);
    MulMono(s, x + 1, 2 * l);
  }

  lemma {:induction false} TopExponent(e: nat, y: int)
    requires Pow2(e) <= y < 2 * Pow2(e) && 0x8000_0000 <= y < W32
    ensures e == 31
  {
    Pow2Words();
    Pow2Below(e, 32);
    Pow2Below(31, e + 1);
  }

  lemma {:induction false} TopBit(x: u32, r: nat)
    requires x > 0 && r <= 32 && 0x8000_0000 <= x * Pow2(32 - r) < W32
    ensures r == ILog2(x) + 1
  {
    var l := ILog2(x);
    Sandwich(Pow2(l), x, Pow2(32 - r));
    Pow2Add(l, 32 - r);
    TopExponent(l + (32 - r), x * Pow2(32 - r));
  }

  // ------------------------------------------------------------- signed division

  type s32 = x: int | -0x8000_0000 <= x < 0x8000_0000
  type s64 = x: int | -0x8000_0000_0000_0000 <= x < 0x8000_0000_0000_0000

  /** The signed number with the same 64 bits. */
  function Signed64(x: u64): s64 {
    if x < 0x8000_0000_0000_0000 then x else x - W64
  }

  function Abs(x: int): nat {
    if x < 0 then -x else x
  }

  /** C's quotient, rounded towards zero. */
  function Truncated(x: int, y: int): int
    requires y != 0
  {
    if (x < 0) == (y < 0) then Abs(x) / Abs(y) else -(Abs(x) / Abs(y))
  }

  /** C's remainder, with the sign of the dividend. */
  function Remainder(x: int, y: int): int
    requires y != 0
  {
    if x < 0 then -(Abs(x) % Abs(y)) else Abs(x) % Abs(y)
  }

  lemma {:induction false} TruncatedLaw(x: int, y: int)
    requires y != 0
    ensures x == Truncated(x, y) * y + Remainder(x, y) && Abs(Remainder(x, y)) < Abs(y)
  {
    QuotRem(Abs(x), Abs(y));
    var q := Abs(x) / Abs(y);
    assert q * Abs(y) == Abs(y) * q;
    assert (-q) * y == -(q * y) && q * (-y) == -(q * y);
  }

  /** The quotient fits unless the smallest number is divided by -1. */
  lemma {:induction false} TruncatedFits(x: s64, y: s32)
    requires y != 0
    ensures Signed64(Wrap64(Truncated(x, y))) == Truncated(x, y) <==>
            !(x == -0x8000_0000_0000_0000 && y == -1)
  {
    var q, d := Abs(x) / Abs(y), Abs(y);
    DivNonNegative(Abs(x), d);
    QuotientAtLeast(Abs(x), d, 0x8000_0000_0000_0000);
  }

  /** The unsigned division of the two magnitudes. */
  method DivMagnitudes(dividend: s64, divisor: s32) returns (q: u64, r: u32)
    requires divisor != 0
    ensures q == Abs(dividend) / Abs(divisor) && r == Abs(dividend) % Abs(divisor) && r < 0x8000_0000
  {
    QuotRem(Abs(dividend), Abs(divisor));
    var magnitude: u64 := if dividend < 0 then Wrap64(0 - dividend) else dividend;
    q, r := DivU64Rem(magnitude, Abs(divisor));
  }

  /** Negating the magnitudes where the signs ask for it. */
  lemma {:induction false} SignsGiven(x: int, y: int, q: int, r: int)
    requires y != 0 && q == Abs(x) / Abs(y) && r == Abs(x) % Abs(y)
    ensures Truncated(x, y) == (if (x < 0) == (y < 0) then q else -q) && Remainder(x, y) == if x < 0 then -r else r
  {
  }

  lemma {:induction false} WrapNegated(q: u64)
    ensures Wrap64(Wrap64(0 - q)) == Wrap64(0 - q) && Wrap64(q) == q
  {
  }

  method DivS64Rem(dividend: s64, divisor: s32) returns (quotient: s64, remainder: s32)
    requires divisor != 0
    ensures quotient == Signed64(Wrap64(Truncated(dividend, divisor)))
    ensures remainder == Remainder(dividend, divisor)
  {
    var magnitude: u64, rest: u32 := DivMagnitudes(dividend, divisor);
    SignsGiven(dividend, divisor, magnitude, rest);
    WrapNegated(magnitude);
    var q: int, r: int := magnitude, rest;
    if dividend < 0 {
      r := 0 - r;
      if divisor > 0 { q := Wrap64(0 - q); }
    } else {
      if divisor < 0 { q := Wrap64(0 - q); }
    }
    quotient, remainder := Signed64(q), r;
  }
}
