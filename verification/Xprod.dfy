/**
 The 64x64-bit multiplication of include/div64.h, which keeps the upper half of the
 128-bit product and is done on 32-bit halves.
 */
module Xprod {
  import opened Arithmetic
  import opened Words

  /** Bit 63 or bit 31 of m is set. */
  predicate MayCarry(m: u64) {
    (m / 0x8000_0000_0000_0000) % 2 == 1 || (m / 0x8000_0000) % 2 == 1
  }

  lemma {:induction false} ProductOfHalves(mh: int, ml: int, nh: int, nl: int)
    ensures (mh * W32 + ml) * (nh * W32 + nl) == mh * nh * W64 + (ml * nh + mh * nl) * W32 + ml * nl
  {
  }

  /** Dividing twice by 2^32 is dividing once by 2^64. */
  lemma {:induction false} NestedShift(x: int, y: int, z: int)
    requires 0 <= x
    ensures (z * W64 + y * W32 + x) / W64 == z + (x / W32 + y) / W32
  {
  }

  const PMAX: int := 0xffff_fffe_0000_0001   // (2^32 - 1)^2
  const PHALF: int := 0x7fff_fffe_8000_0001  // (2^31 - 1) * (2^32 - 1)

  /** The lower product `p` and the bias, with a carry only where one can occur. */
  method LowPart(m: u64, p: u64, bias: bool) returns (res: u64)
    requires p <= if MayCarry(m) then PMAX else PHALF
    ensures res == ((if bias then m else 0) + p) / W32
  {
    if !bias {
      res := p / W32;
    } else if !MayCarry(m) {
      res := m + p;
      res := res / W32;
    } else {
      res := Wrap64(m + p);
      var tmp: u64 := if res < m then W32 else 0;
      res := res / W32 + tmp;
    }
  }

  /** The two middle products, again with a carry only where one can occur. */
  method CrossPart(m: u64, r: u64, x: u64, y: u64) returns (res: u64)
    requires x <= PMAX && y <= PMAX && r <= 0x1_ffff_fffe
    requires !MayCarry(m) ==> x <= PHALF && y <= PHALF && r <= 0xffff_ffff
    ensures res == (r + x + y) / W32
  {
    if !MayCarry(m) {
      res := r + x;
      res := res + y;
      res := res / W32;
    } else {
      res := r + x;
      var tmp: u64 := res;
      res := Wrap64(res + y);
      tmp := if res < tmp then W32 else 0;
      res := res / W32 + tmp;
    }
  }

  lemma {:induction false} HalvesBounds(m: u64, k: u32)
    ensures 0 <= Low(m) * k <= PMAX && 0 <= High(m) * k <= PMAX
    ensures !MayCarry(m) ==> Low(m) * k <= PHALF && High(m) * k <= PHALF
  {
    MulBounds(Low(m), k, W32 - 1, W32 - 1);
    MulBounds(High(m), k, W32 - 1, W32 - 1);
    if !MayCarry(m) {
      MulBounds(Low(m), k, 0x7fff_ffff, W32 - 1);
      MulBounds(High(m), k, 0x7fff_ffff, W32 - 1);
    }
  }

  lemma {:induction false} UpperHalfFits(m: u64, n: u64, b: int)
    requires 0 <= b <= m
    ensures 0 <= (b + m * n) / W64 < W64
  {
    MulBounds(m, n, W64 - 1, W64 - 1);
  }

  method Xprod64(m: u64, n: u64, bias: bool) returns (res: u64)
    ensures res == ((if bias then m else 0) + m * n) / W64
  {
    var ml: int, mh: int, nl: int, nh: int := Low(m), High(m), Low(n), High(n);
    HalvesBounds(m, nl);
    HalvesBounds(m, nh);
    var ll: u64, lh: u64, hl: u64, hh: u64 := ml * nl, ml * nh, mh * nl, mh * nh;
    ghost var b := if bias then m else 0;
    res := LowPart(m, ll, bias);
    res := CrossPart(m, res, lh, hl);
    ProductOfHalves(mh, ml, nh, nl);
    NestedShift(b + ll, lh + hl, hh);
    UpperHalfFits(m, n, b);
    res := res + hh;
  }
}
