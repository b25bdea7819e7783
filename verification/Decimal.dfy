/**
 Decimal output by nibbles (put_dec_trunc, put_dec_full and put_dec of lib/vsprintf.c).
 Shifts and masks of these small unsigned values are written as division and remainder.
 */
module Decimal {
  import opened Words
  import opened Digits
  import Div64

  /** A text is a sequence of character codes. */
  type text = seq<int>

  function Glyph(d: nat): int {
    48 + d
  }

  function Glyphs(ds: seq<nat>): (s: text)
    ensures |s| == |ds| && forall i :: 0 <= i < |ds| ==> s[i] == Glyph(ds[i])
  {
    if ds == [] then [] else [Glyph(ds[0])] + Glyphs(ds[1..])
  }

  // ------------------------------------------------------------- dividing by ten

  lemma {:induction false} Tenth(x: nat)
    requires x < 1000
    ensures (x * 0xcd) / 2048 == x / 10
  {
    var a, b := x / 10, x % 10;
    assert x * 0xcd == 2048 * a + (2 * a + 0xcd * b);
  }

  lemma {:induction false} SmallTenth(x: nat)
    requires x < 69
    ensures (x * 0xd) / 128 == x / 10
  {
    var a, b := x / 10, x % 10;
    assert x * 0xd == 128 * a + (2 * a + 0xd * b);
  }

  /** The decimal digits of a number from its nibbles, with the carries between them. */
  lemma {:induction false} FirstDigit(q: nat, d1: nat, d2: nat, d3: nat, e: nat)
    requires d1 < 16 && d2 < 16 && d3 <= 24 && e < 16 && q == 4096 * d3 + 256 * d2 + 16 * d1 + e
    ensures var x0 := 6 * (d3 + d2 + d1) + e; var c := (x0 * 0xcd) / 2048; var x1 := c + 9 * d3 + 5 * d2 + d1;
      x0 - 10 * c == q % 10 && x1 <= 339 && q / 10 == 400 * d3 + 20 * d2 + x1 && c <= 33 && (x1 == 0 <==> q / 10 == 0)
  {
    var x0 := 6 * (d3 + d2 + d1) + e;
    Tenth(x0);
  }

  lemma {:induction false} Nibbles(q: nat)
    requires q < 100000
    ensures q == 4096 * (q / 4096) + 256 * (q / 256 % 16) + 16 * (q / 16 % 16) + q % 16 && q / 4096 <= 24
  {
    assert q / 16 == 16 * (q / 256) + q / 16 % 16 by { assert q / 16 / 16 == q / 256; }
    assert q / 256 == 16 * (q / 4096) + q / 256 % 16 by { assert q / 256 / 16 == q / 4096; }
  }

  lemma {:induction false} FirstOf(q: nat, d1: nat, d2: nat, d3: nat)
    requires q < 100000 && d1 == q / 16 % 16 && d2 == q / 256 % 16 && d3 == q / 4096
    ensures d1 < 16 && d2 < 16 && d3 <= 24
    ensures var x0 := 6 * (d3 + d2 + d1) + q % 16; var c := (x0 * 0xcd) / 2048; var x1 := c + 9 * d3 + 5 * d2 + d1;
      x0 - 10 * c == q % 10 && x1 <= 339 && q / 10 == 400 * d3 + 20 * d2 + x1 && (x1 == 0 <==> q / 10 == 0)
  {
    Nibbles(q);
    FirstDigit(q, d1, d2, d3, q % 16);
  }

  lemma {:induction false} SecondDigit(n: nat, x1: nat, d2: nat, d3: nat)
    requires d2 < 16 && d3 <= 24 && x1 <= 339 && n == 400 * d3 + 20 * d2 + x1
    ensures var c := (x1 * 0xcd) / 2048; var x2 := c + 2 * d2;
      x1 - 10 * c == n % 10 && x2 <= 63 && n / 10 == 40 * d3 + x2 && (x2 == 0 && d3 == 0 <==> n / 10 == 0)
  {
    Tenth(x1);
  }

  lemma {:induction false} ThirdDigit(n: nat, x2: nat, d3: nat)
    requires d3 <= 24 && x2 <= 63 && n == 40 * d3 + x2 && n < 1000
    ensures var c := (x2 * 0xd) / 128; var x3 := c + 4 * d3;
      x2 - 10 * c == n % 10 && n / 10 == x3 && x3 < 100
  {
    SmallTenth(x2);
  }

  lemma {:induction false} LastDigits(x3: nat)
    requires x3 < 100
    ensures var c := (x3 * 0xcd) / 2048; x3 - 10 * c == x3 % 10 && c == x3 / 10
  {
    Tenth(x3);
  }

  function FiveGlyphs(n: nat): (s: text)
    ensures |s| == 5
  {
    [Glyph(n % 10), Glyph(n / 10 % 10), Glyph(n / 100 % 10), Glyph(n / 1000 % 10), Glyph(n / 10000 % 10)]
  }

  function Length(n: nat): nat {
    if n < 10 then 1 else if n < 100 then 2 else if n < 1000 then 3 else if n < 10000 then 4 else 5
  }

  lemma {:induction false} SmallDigits(n: nat)
    requires n < 100000
    ensures Glyphs(DigitsOf(n, 10)) == FiveGlyphs(n)[..Length(n)]
  {
    UpToFive(n);
    assert DigitsOf(n, 10) == Five(n)[..Length(n)];
  }

  /** Writes a digit that is the next character of `goal`, of which `k` have been written behind `buf`. */
  method Emit(r: text, d: nat, ghost buf: text, ghost goal: text, ghost k: nat) returns (r': text)
    requires k < |goal| && r == buf + goal[..k] && Glyph(d) == goal[k]
    ensures r' == buf + goal[..k + 1]
  {
    r' := r + [Glyph(d)];
  }

  /** The quotients by 10, 100 and 1000 tell how many digits there are, and which. */
  lemma {:induction false} Stages(n: nat) returns (five: text, n1: nat, n2: nat, n3: nat)
    requires n < 100000
    ensures n1 == n / 10 && n2 == n1 / 10 && n3 == n2 / 10 && five == FiveGlyphs(n) && n2 < 1000
    ensures five[0] == Glyph(n % 10) && five[1] == Glyph(n1 % 10) && five[2] == Glyph(n2 % 10)
    ensures five[3] == Glyph(n3 % 10) && five[4] == Glyph(n3 / 10)
    ensures Length(n) == if n1 == 0 then 1 else if n2 == 0 then 2 else if n3 == 0 then 3 else if n3 < 10 then 4 else 5
  {
    five, n1, n2, n3 := FiveGlyphs(n), n / 10, n / 100, n / 1000;
    assert n1 / 10 == n2 && n2 / 10 == n3 && n3 / 10 == n / 10000 && n / 10000 < 10;
  }

  /** The lowest digit; `n1` is what remains, `d1` its own lowest part. */
  method PutFirst(buf: text, value: nat, ghost five: text, ghost n1: nat) returns (r: text, d1: nat, d2: nat, d3: nat)
    requires value < 100000 && |five| == 5 && five[0] == Glyph(value % 10) && n1 == value / 10
    ensures r == buf + five[..1] && d1 <= 339 && d2 < 16 && d3 <= 24
    ensures n1 == 400 * d3 + 20 * d2 + d1 && (d1 == 0 <==> n1 == 0)
  {
    d1, d2, d3 := value / 16 % 16, value / 256 % 16, value / 4096;
    FirstOf(value, d1, d2, d3);
    var d0 := 6 * (d3 + d2 + d1) + value % 16;
    var q := (d0 * 0xcd) / 2048;
    r := Emit(buf, d0 - 10 * q, buf, five, 0);
    d1 := q + 9 * d3 + 5 * d2 + d1;
  }

  method PutSecond(r: text, d1: nat, d: nat, d3: nat, ghost buf: text, ghost five: text, ghost n1: nat, ghost n2: nat)
    returns (r': text, d2: nat)
    requires |five| == 5 && r == buf + five[..1] && five[1] == Glyph(n1 % 10) && n2 == n1 / 10
    requires d1 <= 339 && d < 16 && d3 <= 24 && n1 == 400 * d3 + 20 * d + d1
    ensures r' == buf + five[..2] && d2 <= 63 && n2 == 40 * d3 + d2 && (d2 == 0 && d3 == 0 <==> n2 == 0)
  {
    SecondDigit(n1, d1, d, d3);
    var q := (d1 * 0xcd) / 2048;
    r' := Emit(r, d1 - 10 * q, buf, five, 1);
    d2 := q + 2 * d;
  }

  method PutThird(r: text, d2: nat, d: nat, ghost buf: text, ghost five: text, ghost n2: nat) returns (r': text, d3: nat)
    requires |five| == 5 && r == buf + five[..2] && five[2] == Glyph(n2 % 10) && n2 < 1000
    requires d2 <= 63 && d <= 24 && n2 == 40 * d + d2
    ensures r' == buf + five[..3] && d3 == n2 / 10 && d3 < 100
  {
    ThirdDigit(n2, d2, d);
    var q := (d2 * 0xd) / 128;
    r' := Emit(r, d2 - 10 * q, buf, five, 2);
    d3 := q + 4 * d;
  }

  /** The two highest digits, the second only if it is wanted or not zero. */
  method PutTop(r: text, d3: nat, full: bool, ghost buf: text, ghost five: text) returns (r': text)
    requires d3 < 100 && |five| == 5 && r == buf + five[..3] && five[3] == Glyph(d3 % 10) && five[4] == Glyph(d3 / 10)
    ensures r' == buf + five[..if d3 < 10 && !full then 4 else 5]
  {
    LastDigits(d3);
    var q := (d3 * 0xcd) / 2048;
    r' := Emit(r, d3 - 10 * q, buf, five, 3);
    if full || q != 0 { r' := Emit(r', q, buf, five, 4); }
  }

  /** One to five digits, the least significant first. */
  method PutDecTrunc(buf: text, value: nat) returns (r: text)
    requires value < 100000
    ensures r == buf + FiveGlyphs(value)[..Length(value)]
  {
    ghost var five, n1, n2, n3 := Stages(value);
    var d1, d2, d3;
    r, d1, d2, d3 := PutFirst(buf, value, five, n1);
    if d1 != 0 {
      r, d2 := PutSecond(r, d1, d2, d3, buf, five, n1, n2);
      if d2 != 0 || d3 != 0 {
        r, d3 := PutThird(r, d2, d3, buf, five, n2);
        if d3 != 0 { r := PutTop(r, d3, false, buf, five); }
      }
    }
  }

  /** Always five digits. */
  method PutDecFull(buf: text, value: nat) returns (r: text)
    requires value < 100000
    ensures r == buf + FiveGlyphs(value)
  {
    ghost var five, n1, n2, n3 := Stages(value);
    var d1, d2, d3;
    r, d1, d2, d3 := PutFirst(buf, value, five, n1);
    r, d2 := PutSecond(r, d1, d2, d3, buf, five, n1, n2);
    r, d3 := PutThird(r, d2, d3, buf, five, n2);
    r := PutTop(r, d3, true, buf, five);
  }

  lemma {:induction false} NextFive(n: nat)
    requires n >= 100000
    ensures Glyphs(DigitsOf(n, 10)) == FiveGlyphs(n % 100000) + Glyphs(DigitsOf(n / 100000, 10))
  {
    FiveAtATime(n);
  }

  function InFives(n: nat): text {
    if n < 100000 then FiveGlyphs(n)[..Length(n)] else FiveGlyphs(n % 100000) + InFives(n / 100000)
  }

  lemma {:induction false} InFivesIs(n: nat)
    ensures InFives(n) == Glyphs(DigitsOf(n, 10))
  {
    if n < 100000 {
      SmallDigits(n);
    } else {
      InFivesIs(n / 100000);
      NextFive(n);
    }
  }

  /** The decimal digits of any 64-bit number, the least significant first. */
  method PutDec(buf: text, value: u64) returns (r: text)
    ensures r == buf + Glyphs(DigitsOf(value, 10))
  {
    var num := value;
    r := buf;
    while num >= 100000
      invariant r + InFives(num) == buf + InFives(value)
    {
      var rem;
      num, rem := Div64.DoDiv(num, 100000, false, false);
      r := PutDecFull(r, rem);
    }
    r := PutDecTrunc(r, num);
    InFivesIs(value);
  }
}
