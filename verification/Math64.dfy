/**
 Products of include/rosx/math64.h for machines without 128-bit integers, on the
 little-endian layout of the unions of a 64-bit word and its two halves.
 */
module Math64 {
  import opened Arithmetic
  import opened Powers
  import opened Words
  import opened Xprod
  import opened Div64

  /** A 64-bit word put together from its halves. */
  function Join(high: u32, low: u32): u64 {
    high * W32 + low
  }

  /** The 128-bit product, lower and upper word. */
  method Product(a: u64, b: u64) returns (rl: u64, rh: u64)
    ensures rh * W64 + rl == a * b
  {
    var al: int, ah: int, bl: int, bh: int := Low(a), High(a), Low(b), High(b);
    HalvesBounds(a, bl);
    HalvesBounds(a, bh);
    var ll: u64, lh: u64, hl: u64, hh: u64 := al * bl, al * bh, ah * bl, ah * bh;
    ProductOfHalves(ah, al, bh, bl);
    UpperHalfFits(a, b, 0);
    rl, rh := AddMiddle(ll, lh, hl, hh);
  }

  /** Adds the middle products with carries between the 32-bit columns. */
  method AddMiddle(rl0: u64, rm: u64, rn: u64, rh0: u64) returns (rl: u64, rh: u64)
    requires (rh0 * W64 + (rm + rn) * W32 + rl0) / W64 < W64
    ensures rh * W64 + rl == rh0 * W64 + (rm + rn) * W32 + rl0
  {
    var c: u64 := High(rl0) + Low(rm) + Low(rn);
    rl := Join(Low(c), Low(rl0));
    c := High(c) + High(rm) + High(rn) + Low(rh0);
    rh := Join(Wrap32(High(c) + High(rh0)), Low(c));
  }

  /** (a * b) >> shift, cut to 64 bits. */
  method MulU64U64Shr(a: u64, b: u64, shift: nat) returns (r: u64)
    requires shift < 128
    ensures r == Wrap64(a * b / Pow2(shift))
  {
    var rl, rh := Product(a, b);
    r := ShiftWords(rl, rh, shift);
  }

  method ShiftWords(rl: u64, rh: u64, shift: nat) returns (r: u64)
    requires shift < 128
    ensures r == Wrap64((rh * W64 + rl) / Pow2(shift))
  {
    if shift == 0 {
      return rl;
    }
    if shift < 64 {
      ShiftSmall(rl, rh, shift);
      r := BitOr(rl / Pow2(shift), Wrap64(rh * Pow2(64 - shift)));
    } else {
      ShiftLarge(rl, rh, shift);
      r := rh / Pow2(shift - 64);
    }
  }

  lemma {:induction false} Split64(k: nat)
    requires k <= 64
    ensures Pow2(k) * Pow2(64 - k) == W64
  {
    Pow2Words();
    Pow2Add(k, 64 - k);
  }

  /** A multiple of s is shifted exactly, and the rest on its own. */
  lemma {:induction false} DivSum(x: nat, s: nat, y: nat)
    requires s > 0
    ensures (y * s + x) / s == y + x / s
  {
    var q, r := x / s, x % s;
    assert x == q * s + r;
    assert y * s + x == (y + q) * s + r;
    DivUnique(y * s + x, s, y + q, r);
  }

  lemma {:induction false} WrapMultiple(h: nat, s: nat, t: nat)
    requires s * t == W64 && s > 0
    ensures Wrap64(h * t) == (h % s) * t && exists j :: h * t == (h % s) * t + j * W64
  {
    var q, r := h / s, h % s;
    assert h == q * s + r;
    assert (q * s + r) * t == q * (s * t) + r * t;
    MulBounds(r, t, s - 1, t);
    assert (s - 1) * t == s * t - t;
    DivUnique(h * t, W64, q, r * t);
    assert h * t == (h % s) * t + q * W64;
  }

  /** Shifting two words right by less than a word. */
  lemma {:induction false} JoinedShift(rl: u64, rh: u64, s: nat, t: nat)
    requires s > 0 && s * t == W64
    ensures 0 <= rl / s < t && 0 <= (rh % s) * t
    ensures (rh % s) * t + rl / s < W64
    ensures Wrap64((rh * W64 + rl) / s) == (rh % s) * t + rl / s
  {
    QuotientBelow(rl, s, t);
    WrapMultiple(rh, s, t);
    MulAssoc(rh, t, s);
    DivSum(rl, s, rh * t);
    var x, y := (rh % s) * t, rl / s;
    var j :| rh * t == x + j * W64;
    MulBounds(rh % s, t, s - 1, t);
    assert (s - 1) * t == W64 - t;
    DivUnique(rh * t + y, W64, j, x + y);
  }

  lemma {:induction false} ShiftSmall(rl: u64, rh: u64, k: nat)
    requires 0 < k < 64
    ensures var (x, y) := (rl / Pow2(k), Wrap64(rh * Pow2(64 - k)));
      0 <= x && BitOr(x, y) < W64 && BitOr(x, y) == Wrap64((rh * W64 + rl) / Pow2(k))
  {
    Split64(k);
    WrapMultiple(rh, Pow2(k), Pow2(64 - k));
    JoinedShift(rl, rh, Pow2(k), Pow2(64 - k));
    BitOrDisjoint(rl / Pow2(k), rh % Pow2(k), 64 - k);
  }

  lemma {:induction false} QuotientBelow(x: u64, s: nat, t: nat)
    requires s > 0 && s * t == W64
    ensures 0 <= x / s < t
  {
    DivNonNegative(x, s);
    QuotientAtLeast(x, s, t);
    assert t * s == s * t;
  }

  lemma {:induction false} ShiftLarge(rl: u64, rh: u64, k: nat)
    requires 64 <= k < 128
    ensures 0 <= rh / Pow2(k - 64) < W64 && rh / Pow2(k - 64) == Wrap64((rh * W64 + rl) / Pow2(k))
  {
    var s := Pow2(k - 64);
    Pow2Words();
    Pow2Add(64, k - 64);
    DivDiv(rh * W64 + rl, W64, s);
    DivSum(rl, W64, rh);
    Split64(k - 64);
    QuotientBelow(rh, s, Pow2(128 - k));
    MulBounds(1, Pow2(128 - k), s, Pow2(128 - k));
  }

  /** Long division of three 32-bit digits, the upper two in `rh0`. */
  method DivideDigits(rh0: u64, low: u32, divisor: u32) returns (r: u64)
    requires divisor > 0
    ensures r == Wrap64((rh0 * W32 + low) / divisor)
  {
    var rh, rem := DoDiv(rh0, divisor, false, true);
    var rl := Join(rem, low);
    var rl', rem' := DoDiv(rl, divisor, false, true);
    QuotRem(rh0, divisor);
    QuotRem(rl, divisor);
    TwoDigits(rh0 * W32 + low, divisor, rh0, low, rh, rem, rl', rem');
    r := Join(Low(rh), Low(rl'));
  }

  /** a * mul / divisor, cut to 64 bits. */
  method MulU64U32Div(a: u64, mul: u32, divisor: u32) returns (r: u64)
    requires divisor > 0
    ensures r == Wrap64(a * mul / divisor)
  {
    HalvesBounds(a, mul);
    var lower: int, upper: int := Low(a), High(a);
    var rl: u64 := lower * mul;
    var rh: u64 := upper * mul + High(rl);
    DigitsOfProduct(a, mul);
    r := DivideDigits(rh, Low(rl), divisor);
  }

  lemma {:induction false} DigitsOfProduct(a: u64, mul: u32)
    ensures var rl: int := Low(a) * mul; (High(a) * mul + rl / W32) * W32 + rl % W32 == a * mul
  {
    assert a * mul == (High(a) * W32 + Low(a)) * mul == High(a) * mul * W32 + Low(a) * mul;
  }

  lemma {:induction false} TwoDigits(x: nat, d: u32, h: u64, l: u32, q1: u64, r1: u32, q0: u64, r0: u32)
    requires d > 0 && x == h * W32 + l
    requires h == q1 * d + r1 && r1 < d && r1 * W32 + l == q0 * d + r0 && r0 < d
    ensures q0 < W32 && Wrap64(x / d) == Join(Low(q1), q0)
  {
    if q0 >= W32 { MulMono(d, W32, q0); }
    assert (q1 * d) * W32 == (q1 * W32) * d;
    assert (q1 * W32 + q0) * d == (q1 * W32) * d + q0 * d;
    DivUnique(x, d, q1 * W32 + q0, r0);
    JoinWraps(q1, q0);
  }

  lemma {:induction false} JoinWraps(h: u64, l: u32)
    ensures Wrap64(h * W32 + l) == Join(Low(h), l)
  {
  }

  /** The two partial products, shifted separately, add up to the shifted product. */
  lemma {:induction false} ShiftedParts(x: nat, y: nat, k: nat)
    requires k <= 32
    ensures 0 <= x / Pow2(k)
    ensures (y * W32 + x) / Pow2(k) == y * Pow2(32 - k) + x / Pow2(k)
  {
    Pow2Words();
    Pow2Add(32 - k, k);
    MulAssoc(y, Pow2(32 - k), Pow2(k));
    DivSum(x, Pow2(k), y * Pow2(32 - k));
    DivNonNegative(x, Pow2(k));
  }

  lemma {:induction false} PartialProducts(a: u64, mul: u32)
    ensures a * mul == (High(a) * mul) * W32 + Low(a) * mul
  {
    assert (High(a) * W32 + Low(a)) * mul == High(a) * mul * W32 + Low(a) * mul;
  }

  /** (a * mul) >> shift, cut to 64 bits, for shifts up to 32. */
  method MulU64U32Shr(a: u64, mul: u32, shift: nat) returns (r: u64)
    requires shift <= 32
    ensures r == Wrap64(a * mul / Pow2(shift))
  {
    HalvesBounds(a, mul);
    PartialProducts(a, mul);
    var al: int, ah: int := Low(a), High(a);
    r := ShiftAdd(al * mul, ah * mul, ah != 0, shift);
  }

  method ShiftAdd(x: u64, y: u64, nonzero: bool, shift: nat) returns (r: u64)
    requires shift <= 32 && (!nonzero ==> y == 0)
    ensures r == Wrap64((y * W32 + x) / Pow2(shift))
  {
    ShiftedParts(x, y, shift);
    DivNonNegative(x, Pow2(shift));
    r := x / Pow2(shift);
    WrapSum(r, y * Pow2(32 - shift));
    if nonzero {
      r := Wrap64(r + Wrap64(y * Pow2(32 - shift)));
    }
  }

  lemma {:induction false} WrapSum(x: int, y: int)
    ensures Wrap64(x + Wrap64(y)) == Wrap64(x + y)
  {
  }
}
