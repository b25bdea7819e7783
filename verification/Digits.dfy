/** Positional notation: the digits of a number, least significant first, and their value. */
module Digits {
  import opened Arithmetic

  function DigitsOf(n: nat, base: nat): (ds: seq<nat>)
    requires base >= 2
    ensures |ds| > 0
  {
    if n < base then [n]
    else
      Quotient(n, base);
      [n % base] + DigitsOf(n / base, base)
  }

  function Value(ds: seq<nat>, base: nat): nat {
    if ds == [] then 0 else Value(ds[1..], base) * base + ds[0]
  }

  /** Digits of the base without a leading zero, except for zero itself. */
  ghost predicate Canonical(ds: seq<nat>, base: nat) {
    && ds != [] && (forall i :: 0 <= i < |ds| ==> ds[i] < base)
    && (|ds| > 1 ==> ds[|ds| - 1] != 0)
  }

  lemma {:induction false} LastOf(d: nat, rest: seq<nat>)
    requires rest != []
    ensures ([d] + rest)[|rest|] == rest[|rest| - 1] && ([d] + rest)[1..] == rest
  {
  }

  lemma {:induction false} Quotient(n: nat, base: nat)
    requires 2 <= base <= n
    ensures 0 < n / base < n && n == n / base * base + n % base && n % base < base
  {
    QuotRem(n, base);
    QuotientAtLeast(n, base, 1);
    QuotientAtLeast(n, base, n);
    MulMono(n, 2, base);
  }

  lemma {:induction false} DigitsCanonical(n: nat, base: nat)
    requires base >= 2
    ensures Canonical(DigitsOf(n, base), base) && Value(DigitsOf(n, base), base) == n
    ensures n > 0 ==> DigitsOf(n, base)[|DigitsOf(n, base)| - 1] != 0
  {
    if n >= base {
      Quotient(n, base);
      DigitsCanonical(n / base, base);
      LastOf(n % base, DigitsOf(n / base, base));
      Prepend(n % base, DigitsOf(n / base, base), base);
      assert DigitsOf(n, base) == [n % base] + DigitsOf(n / base, base);
    } else {
      assert DigitsOf(n, base) == [n] && [n][1..] == [];
    }
  }

  lemma {:induction false} Prepend(d: nat, rest: seq<nat>, base: nat)
    requires d < base && Canonical(rest, base) && rest[|rest| - 1] != 0
    ensures Canonical([d] + rest, base) && Value([d] + rest, base) == Value(rest, base) * base + d
  {
    LastOf(d, rest);
  }

  /** There is one canonical notation only. */
  lemma {:induction false} CanonicalUnique(ds: seq<nat>, base: nat)
    requires base >= 2 && Canonical(ds, base)
    ensures ds == DigitsOf(Value(ds, base), base)
  {
    if |ds| == 1 {
      assert ds[1..] == [];
    } else {
      var rest := ds[1..];
      assert forall i :: 0 <= i < |rest| ==> rest[i] == ds[i + 1];
      CanonicalUnique(rest, base);
      var v := Value(rest, base);
      PositiveValue(rest, base);
      DivideOut(ds[0], v, base);
      assert ds == [ds[0]] + rest;
    }
  }

  lemma {:induction false} PositiveValue(ds: seq<nat>, base: nat)
    requires base >= 2 && ds != [] && ds[|ds| - 1] != 0
    ensures Value(ds, base) > 0
  {
    if |ds| > 1 {
      PositiveValue(ds[1..], base);
      MulMono(base, 1, Value(ds[1..], base));
    }
  }

  lemma {:induction false} DivideOut(d: nat, v: nat, base: nat)
    requires d < base && v > 0
    ensures v * base + d >= base && (v * base + d) % base == d && (v * base + d) / base == v
  {
    MulMono(base, 1, v);
    DivUnique(v * base + d, base, v, d);
  }

  // ------------------------------------------------------------- five decimal digits at a time

  function Five(n: nat): seq<nat> {
    [n % 10, n / 10 % 10, n / 100 % 10, n / 1000 % 10, n / 10000 % 10]
  }

  lemma {:induction false} FiveAtATime(n: nat)
    requires n >= 100000
    ensures DigitsOf(n, 10) == Five(n % 100000) + DigitsOf(n / 100000, 10)
  {
    var n1, n2, n3, n4 := n / 10, n / 100, n / 1000, n / 10000;
    assert n1 / 10 == n2 && n2 / 10 == n3 && n3 / 10 == n4 && n4 / 10 == n / 100000;
    assert DigitsOf(n, 10) == [n % 10] + DigitsOf(n1, 10);
    assert DigitsOf(n1, 10) == [n1 % 10] + DigitsOf(n2, 10);
    assert DigitsOf(n2, 10) == [n2 % 10] + DigitsOf(n3, 10);
    assert DigitsOf(n3, 10) == [n3 % 10] + DigitsOf(n4, 10);
    assert DigitsOf(n4, 10) == [n4 % 10] + DigitsOf(n4 / 10, 10);
    FiveOfRemainder(n);
  }

  lemma {:induction false} FiveOfRemainder(n: nat)
    ensures Five(n % 100000) == [n % 10, n / 10 % 10, n / 100 % 10, n / 1000 % 10, n / 10000 % 10]
  {
    var q, r := n / 100000, n % 100000;
    SameDigit(q, r, 1, 10000);
    SameDigit(q, r, 10, 1000);
    SameDigit(q, r, 100, 100);
    SameDigit(q, r, 1000, 10);
    SameDigit(q, r, 10000, 1);
  }

  lemma {:induction false} SameDigit(q: nat, r: nat, u: nat, v: nat)
    requires u > 0 && u * v == 10000
    ensures (q * 100000 + r) / u % 10 == r / u % 10
  {
    var d := r / u;
    assert q * 100000 + r == (q * (10 * v) + d) * u + r % u by {
      assert r == d * u + r % u;
      assert q * (10 * v) * u == q * 100000 by { assert (10 * v) * u == 10 * (u * v); MulAssoc(q, 10 * v, u); }
    }
    DivUnique(q * 100000 + r, u, q * (10 * v) + d, r % u);
    DivUnique(q * (10 * v) + d, 10, q * v + d / 10, d % 10);
  }

  /** A number below 100000 has as many digits as it needs. */
  lemma {:induction false} UpToFive(n: nat)
    requires n < 100000
    ensures DigitsOf(n, 10) ==
      if n < 10 then Five(n)[..1] else if n < 100 then Five(n)[..2] else if n < 1000 then Five(n)[..3]
      else if n < 10000 then Five(n)[..4] else Five(n)
  {
    var n1, n2, n3, n4 := n / 10, n / 100, n / 1000, n / 10000;
    assert n1 / 10 == n2 && n2 / 10 == n3 && n3 / 10 == n4 && n4 < 10;
    if n >= 10 {
      assert DigitsOf(n, 10) == [n % 10] + DigitsOf(n1, 10);
      if n >= 100 {
        assert DigitsOf(n1, 10) == [n1 % 10] + DigitsOf(n2, 10);
        if n >= 1000 {
          assert DigitsOf(n2, 10) == [n2 % 10] + DigitsOf(n3, 10);
          if n >= 10000 { assert DigitsOf(n3, 10) == [n3 % 10] + DigitsOf(n4, 10); }
        }
      }
    }
  }
}
