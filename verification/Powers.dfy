/** Powers of two and the bit-level functions that are defined by them. */
module Powers {
  import opened Arithmetic

  function Pow2(n: nat): (p: nat)
    ensures p > 0
  {
    if n == 0 then 1 else 2 * Pow2(n - 1)
  }

  lemma {:induction false} Pow2Add(a: nat, b: nat)
    ensures Pow2(a + b) == Pow2(a) * Pow2(b)
  {
    if a > 0 { Pow2Add(a - 1, b); }
  }

  lemma {:induction false} Pow2Mono(a: nat, b: nat)
    requires a <= b
    ensures Pow2(a) <= Pow2(b)
  {
    if a < b { Pow2Mono(a, b - 1); }
  }

  lemma {:induction false} Pow2Below(a: nat, b: nat)
    requires Pow2(a) < Pow2(b)
    ensures a < b
  {
    if b <= a { Pow2Mono(b, a); }
  }

  lemma {:induction false} Pow2Square(a: nat, x: nat)
    requires Pow2(a) == x
    ensures Pow2(2 * a) == x * x
  {
    Pow2Add(a, a);
  }

  lemma {:induction false} Pow2Words()
    ensures Pow2(32) == 0x1_0000_0000 && Pow2(64) == 0x1_0000_0000_0000_0000
  {
    Pow2Square(4, 0x10);
    Pow2Square(8, 0x100);
    Pow2Square(16, 0x1_0000);
    Pow2Square(32, 0x1_0000_0000);
  }

  /** The position of the most significant bit. */
  function ILog2(x: nat): (r: nat)
    requires x > 0
    ensures Pow2(r) <= x < 2 * Pow2(r)
  {
    if x == 1 then 0 else 1 + ILog2(x / 2)
  }

  /** The number of zero bits below the least significant set bit. */
  function TrailingZeros(x: nat): nat
    requires x > 0
  {
    if x % 2 == 1 then 0 else 1 + TrailingZeros(x / 2)
  }

  /** What is left of a number when its factors of two are taken out. */
  function OddPart(x: nat): (o: nat)
    requires x > 0
    ensures o % 2 == 1
  {
    if x % 2 == 1 then x else OddPart(x / 2)
  }

  /** The least significant set bit, which C code writes as x & -x. */
  function LowBit(x: nat): (r: nat)
    requires x > 0
    ensures r == Pow2(TrailingZeros(x))
  {
    if x % 2 == 1 then 1 else 2 * LowBit(x / 2)
  }

  lemma {:induction false} LowBitFactor(x: nat)
    requires x > 0
    ensures OddPart(x) * LowBit(x) == x && LowBit(x) <= x
  {
    if x % 2 == 0 {
      LowBitFactor(x / 2);
      assert OddPart(x) * (2 * LowBit(x / 2)) == 2 * (OddPart(x) * LowBit(x / 2));
    }
  }

  lemma {:induction false} LowBitQuotient(x: nat)
    requires x > 0
    ensures x / LowBit(x) == OddPart(x) && x % LowBit(x) == 0
  {
    LowBitFactor(x);
    DivMultiple(OddPart(x), LowBit(x));
  }

  /** Bitwise or. */
  function BitOr(a: nat, b: nat): (r: nat)
    ensures a <= r && b <= r <= a + b
  {
    if a == 0 then b
    else if b == 0 then a
    else 2 * BitOr(a / 2, b / 2) + (if a % 2 == 1 || b % 2 == 1 then 1 else 0)
  }

  lemma {:induction false} BitOrBound(a: nat, b: nat, k: nat)
    requires a < Pow2(k) && b < Pow2(k)
    ensures BitOr(a, b) < Pow2(k)
  {
    if a > 0 && b > 0 {
      BitOrBound(a / 2, b / 2, k - 1);
    }
  }

  /** Or-ing numbers whose bits do not overlap adds them. */
  lemma {:induction false} BitOrDisjoint(a: nat, b: nat, k: nat)
    requires a < Pow2(k)
    ensures BitOr(a, b * Pow2(k)) == a + b * Pow2(k)
  {
    if a > 0 && b * Pow2(k) > 0 {
      assert b * Pow2(k) == 2 * (b * Pow2(k - 1));
      BitOrDisjoint(a / 2, b, k - 1);
    }
  }

  /** Or-ing with a single bit sets it. */
  lemma {:induction false} SetBit(c: nat, k: nat)
    ensures BitOr(c, Pow2(k)) == if c / Pow2(k) % 2 == 1 then c else c + Pow2(k)
  {
    if c == 0 {
      DivMultiple(0, Pow2(k));
    } else if k > 0 {
      SetBit(c / 2, k - 1);
      DivDiv(c, 2, Pow2(k - 1));
    }
  }

  /** Bitwise and. */
  function BitAnd(a: nat, b: nat): (r: nat)
    ensures r <= a && r <= b
  {
    if a == 0 || b == 0 then 0
    else 2 * BitAnd(a / 2, b / 2) + (if a % 2 == 1 && b % 2 == 1 then 1 else 0)
  }

  lemma {:induction false} AndMaskStep(a: nat, h: nat)
    requires a > 0 && h > 0 && BitAnd(a / 2, h - 1) == (a / 2) % h
    ensures BitAnd(a, 2 * h - 1) == a % (2 * h)
  {
    assert (2 * h - 1) / 2 == h - 1 && (2 * h - 1) % 2 == 1;
    HalfModulus(a, h);
  }

  /** A mask of k ones keeps the k lowest bits. */
  lemma {:induction false} AndMask(a: nat, k: nat)
    ensures BitAnd(a, Pow2(k) - 1) == a % Pow2(k)
  {
    if a == 0 {
      DivMultiple(0, Pow2(k));
    } else if k > 0 {
      AndMask(a / 2, k - 1);
      AndMaskStep(a, Pow2(k - 1));
    }
  }

  lemma {:induction false} HalfModulus(a: nat, h: nat)
    requires h > 0
    ensures a % (2 * h) == 2 * ((a / 2) % h) + a % 2
  {
    var q, r := (a / 2) / h, (a / 2) % h;
    assert a / 2 == q * h + r;
    assert a == q * (2 * h) + (2 * r + a % 2);
    DivUnique(a, 2 * h, q, 2 * r + a % 2);
  }

  lemma {:induction false} AndSelf(a: nat)
    ensures BitAnd(a, a) == a
  {
    if a > 0 { AndSelf(a / 2); }
  }

  /** The usual test: a nonzero number has a single bit exactly when removing the lowest leaves none. */
  lemma {:induction false} SingleBit(b: nat)
    requires b > 0
    ensures BitAnd(b, b - 1) == 0 <==> b == Pow2(ILog2(b))
  {
    if b % 2 == 1 {
      if b > 1 {
        assert (b - 1) / 2 == b / 2;
        AndSelf(b / 2);
      }
    } else {
      assert (b - 1) / 2 == b / 2 - 1;
      SingleBit(b / 2);
    }
  }

  /** An odd number that divides a power of two is one. */
  lemma {:induction false} OddDividesPow2(o: nat, q: nat, k: nat)
    requires o % 2 == 1 && o * q == Pow2(k)
    ensures o == 1
  {
    if k == 0 {
      assert q > 0;
    } else {
      EvenFactor(o, q, Pow2(k - 1));
      OddDividesPow2(o, q / 2, k - 1);
    }
  }

  lemma {:induction false} OddTimesOdd(o: nat, q: nat)
    requires o % 2 == 1 && q % 2 == 1
    ensures (o * q) % 2 == 1
  {
    var i, j := o / 2, q / 2;
    assert o == 2 * i + 1 && q == 2 * j + 1;
    assert (2 * i + 1) * (2 * j + 1) == 2 * (2 * (i * j) + i + j) + 1;
  }

  lemma {:induction false} EvenFactor(o: nat, q: nat, h: nat)
    requires o % 2 == 1 && o * q == 2 * h
    ensures q % 2 == 0 && o * (q / 2) == h
  {
    if q % 2 == 1 {
      OddTimesOdd(o, q);
    }
    assert o * (2 * (q / 2)) == 2 * (o * (q / 2));
  }
}
