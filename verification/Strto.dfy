/** Parsing numbers (lib/strto.c), and the round trip with the text that number() writes. */
module Strto {
  import opened Words
  import Arithmetic
  import opened Digits
  import opened Decimal
  import opened Numerals

  // ------------------------------------------------------------- characters

  predicate IsDigit(c: int) { 48 <= c <= 57 }
  predicate IsLower(c: int) { 97 <= c <= 122 }
  predicate IsXDigit(c: int) { IsDigit(c) || 65 <= c <= 70 || 97 <= c <= 102 }

  function ToUpper(c: int): int { if IsLower(c) then c - 32 else c }
  function ToLower(c: int): int { if 65 <= c <= 90 then c + 32 else c }

  function Digit(c: int): (d: nat)
    requires IsXDigit(c)
    ensures d < 16
  {
    if IsDigit(c) then c - 48 else ToUpper(c) - 65 + 10
  }

  lemma {:induction false} DigitOfCode(d: nat, small: bool)
    requires d < 16
    ensures IsXDigit(Code(d, small)) && Digit(Code(d, small)) == d && ToLower(Code(d, small)) != 120
  {
  }

  // ------------------------------------------------------------- simple_strtoull

  /** A text that a C string can hold: it ends with its first zero. */
  ghost predicate Terminated(s: text) {
    s != [] && s[|s| - 1] == 0 && forall i :: 0 <= i < |s| - 1 ==> s[i] != 0
  }

  predicate Accepts(c: int, base: nat) {
    IsXDigit(c) && Digit(c) < base
  }

  /** The base that is meant, and how many characters of prefix there are. */
  function Radix(s: text, base: nat): (r: (nat, nat))
    requires Terminated(s)
  {
    var b := if base != 0 then base
             else if s[0] != 48 then 10
             else if ToLower(s[1]) == 120 && IsXDigit(s[2]) then 16 else 8;
    (b, if b == 16 && s[0] == 48 && ToLower(s[1]) == 120 then 2 else 0)
  }

  /** The end of the digits from position `i`. */
  function End(s: text, i: nat, base: nat): (r: nat)
    requires i <= |s|
    ensures i <= r <= |s| && (forall k :: i <= k < r ==> Accepts(s[k], base)) && (r < |s| ==> !Accepts(s[r], base))
    decreases |s| - i
  {
    if i < |s| && Accepts(s[i], base) then End(s, i + 1, base) else i
  }

  /** The number that the digits of `s` denote, most significant first. */
  function Horner(s: text, base: nat): nat
    requires forall i :: 0 <= i < |s| ==> IsXDigit(s[i])
  {
    if s == [] then 0 else Horner(s[..|s| - 1], base) * base + Digit(s[|s| - 1])
  }

  method FixupRadix(s: text, base: nat) returns (b: nat, start: nat)
    requires Terminated(s)
    ensures (b, start) == Radix(s, base) && start <= |s|
  {
    b, start := base, 0;
    if b == 0 {
      if s[0] == 48 {
        if ToLower(s[1]) == 120 && IsXDigit(s[2]) { b := 16; } else { b := 8; }
      } else {
        b := 10;
      }
    }
    if b == 16 && s[0] == 48 && ToLower(s[1]) == 120 { start := 2; }
  }

  lemma {:induction false} HornerNext(s: text, i: nat, j: nat, base: nat)
    requires i <= j < |s| && forall k :: i <= k <= j ==> IsXDigit(s[k])
    ensures Horner(s[i..j + 1], base) == Horner(s[i..j], base) * base + Digit(s[j])
  {
    assert s[i..j + 1][..|s[i..j + 1]| - 1] == s[i..j];
  }

  /** simple_strtoull: the value of the digits in 64-bit arithmetic, and where they end. */
  method Strtoull(s: text, base: nat) returns (result: u64, end: nat)
    requires Terminated(s)
    ensures var (b, start) := Radix(s, base);
      start <= |s| && end == End(s, start, b) && result == Horner(s[start..end], b) % W64
  {
    var b, start := FixupRadix(s, base);
    end, result := start, 0;
    while Accepts(s[end], b)
      invariant start <= end < |s| && (forall k :: start <= k < end ==> Accepts(s[k], b))
      invariant result == Horner(s[start..end], b) % W64
      decreases |s| - end
    {
      HornerNext(s, start, end, b);
      ReduceOnce(result, Horner(s[start..end], b), b, Digit(s[end]), W64);
      result := Wrap64(result * b + Digit(s[end]));
      end := end + 1;
    }
  }

  /** Reducing at each step is reducing once. */
  lemma {:induction false} ReduceOnce(r: int, v: int, b: int, d: int, m: int)
    requires m > 0 && r == v % m
    ensures (r * b + d) % m == (v * b + d) % m
  {
    var q := v / m;
    assert v * b + d == q * b * m + (r * b + d) by {
      assert (q * m + r) * b == q * b * m + r * b;
    }
    SameModulo(r * b + d, q * b, m);
  }

  lemma {:induction false} SameModulo(x: int, k: int, m: int)
    requires m > 0
    ensures (k * m + x) % m == x % m
  {
    Arithmetic.QuotRem(x, m);
    assert k * m + x == (k + x / m) * m + x % m;
    Arithmetic.DivUnique(k * m + x, m, k + x / m, x % m);
  }

  // ------------------------------------------------------------- the round trip

  /** Only digits below `base`; in particular no letter x. */
  ghost predicate Digital(s: text, base: nat) {
    forall i :: 0 <= i < |s| ==> Accepts(s[i], base) && s[i] != 0 && ToLower(s[i]) != 120
  }

  lemma {:induction false} HornerMore(r: text, c: int, base: nat)
    requires IsXDigit(c) && forall i :: 0 <= i < |r| ==> IsXDigit(r[i])
    ensures Horner(r + [c], base) == Horner(r, base) * base + Digit(c)
  {
    assert (r + [c])[..|r|] == r;
  }

  lemma {:induction false} CodesTail(ds: seq<nat>, small: bool)
    requires ds != []
    ensures Codes(ds, small) != [] && Codes(ds, small)[0] == Code(ds[0], small) && Codes(ds, small)[1..] == Codes(ds[1..], small)
    ensures Reversed(Codes(ds, small)) == Reversed(Codes(ds[1..], small)) + [Code(ds[0], small)]
  {
  }

  lemma {:induction false} ReversedDigital(ds: seq<nat>, small: bool, base: nat)
    requires base <= 16 && forall i :: 0 <= i < |ds| ==> ds[i] < base
    ensures Digital(Reversed(Codes(ds, small)), base)
  {
    if ds != [] {
      CodesTail(ds, small);
      ReversedDigital(ds[1..], small, base);
      DigitOfCode(ds[0], small);
    }
  }

  lemma {:induction false} SameStep(h: nat, v: nat, base: nat, d: nat, x: nat, y: nat)
    requires h == v && x == h * base + d && y == v * base + d
    ensures x == y
  {
  }

  lemma {:induction false} ReversedValue(ds: seq<nat>, small: bool, base: nat)
    requires base <= 16 && forall i :: 0 <= i < |ds| ==> ds[i] < base
    requires Digital(Reversed(Codes(ds, small)), base)
    ensures Horner(Reversed(Codes(ds, small)), base) == Value(ds, base)
  {
    if ds != [] {
      var r, rest := Reversed(Codes(ds[1..], small)), ds[1..];
      CodesTail(ds, small);
      ReversedDigital(rest, small, base);
      ReversedValue(rest, small, base);
      DigitOfCode(ds[0], small);
      HornerMore(r, Code(ds[0], small), base);
      SameStep(Horner(r, base), Value(rest, base), base, ds[0], Horner(r + [Code(ds[0], small)], base), Value(ds, base));
    }
  }

  lemma {:induction false} ReversedDigits(ds: seq<nat>, small: bool, base: nat)
    requires base <= 16 && forall i :: 0 <= i < |ds| ==> ds[i] < base
    ensures Digital(Reversed(Codes(ds, small)), base)
    ensures Horner(Reversed(Codes(ds, small)), base) == Value(ds, base)
  {
    ReversedDigital(ds, small, base);
    ReversedValue(ds, small, base);
  }

  lemma {:induction false} LeadingZeros(z: nat, t: text, base: nat)
    requires 2 <= base <= 16 && Digital(t, base)
    ensures Digital(Repeat(48, z) + t, base) && Horner(Repeat(48, z) + t, base) == Horner(t, base)
  {
    var s := Repeat(48, z) + t;
    if t != [] {
      assert s[..|s| - 1] == Repeat(48, z) + t[..|t| - 1];
      LeadingZeros(z, t[..|t| - 1], base);
    } else if z > 0 {
      assert s[..|s| - 1] == Repeat(48, z - 1) + [];
      LeadingZeros(z - 1, [], base);
    }
  }

  /** Digits followed by something else are read to their end. */
  lemma {:induction false} ReadDigits(p: text, body: text, tail: text, base: nat)
    requires Digital(body, base) && tail != [] && !Accepts(tail[0], base)
    ensures var s := p + body + tail; End(s, |p|, base) == |p| + |body| && s[|p|..|p| + |body|] == body
  {
    var s := p + body + tail;
    var e := End(s, |p|, base);
    assert s[|p| + |body|] == tail[0];
    assert forall k :: |p| <= k < |p| + |body| ==> s[k] == body[k - |p|];
  }

  /** Some zeros and the digits of a number. */
  function Body(num: nat, base: nat, z: nat, small: bool): text
    requires base >= 2
  {
    Repeat(48, z) + Reversed(Codes(DigitsOf(num, base), small))
  }

  lemma {:induction false} BodyIs(num: nat, base: nat, z: nat, small: bool)
    requires 2 <= base <= 16
    ensures Digital(Body(num, base, z, small), base) && Horner(Body(num, base, z, small), base) == num
    ensures Body(num, base, z, small) != []
  {
    var ds := DigitsOf(num, base);
    DigitsCanonical(num, base);
    ReversedDigits(ds, small, base);
    LeadingZeros(z, Reversed(Codes(ds, small)), base);
  }

  /** What the parser skips; the zero in front of an octal number is one of its digits. */
  function Skipped(base: nat, f: Flags): text {
    if base == 16 then Prefix(base, f) else []
  }

  lemma {:induction false} FrontParts(n: nat, base: nat, size: int, precision: int, f: Flags, z: nat)
    requires (base == 8 || base == 10 || base == 16) && Lead(n, base, size, precision, f) == 0
    requires z == Zeros(n, base, size, precision, f) + if base == 16 then 0 else |Prefix(base, f)|
    ensures Front(n, base, size, precision, f) == Skipped(base, f) + Repeat(48, z)
  {
    if base != 16 {
      var p := Prefix(base, f);
      assert p == Repeat(48, |p|);
      RepeatTwice([], 48, |p|, z - |p|);
    }
  }

  /** The text that number() writes and its terminator, if there are no blanks in front. */
  lemma {:induction false} LayoutParts(num: nat, base: nat, size: int, precision: int, f: Flags) returns (z: nat, tail: text)
    requires base == 8 || base == 10 || base == 16
    requires Lead(|DigitsOf(num, base)|, base, size, precision, f) == 0
    ensures Layout(num, base, size, precision, f) + [0] == Skipped(base, f) + Body(num, base, z, f.small) + tail
    ensures |tail| == Trail(|DigitsOf(num, base)|, base, size, precision, f) + 1 && tail[|tail| - 1] == 0
    ensures forall i :: 0 <= i < |tail| - 1 ==> tail[i] == 32
    ensures z >= |Prefix(base, f)| || base == 16
    ensures base == 10 ==> z == Zeros(|DigitsOf(num, base)|, base, size, precision, f)
  {
    var n := |DigitsOf(num, base)|;
    z := Zeros(n, base, size, precision, f) + if base == 16 then 0 else |Prefix(base, f)|;
    tail := Repeat(32, Trail(n, base, size, precision, f)) + [0];
    FrontParts(n, base, size, precision, f, z);
  }

  /** What simple_strtoull makes of `s`: the value `num`, and the position `end`. */
  ghost predicate Reads(s: text, base: nat, num: nat, end: nat)
    requires Terminated(s)
  {
    var (b, start) := Radix(s, base);
    start <= |s| && End(s, start, b) == end && Horner(s[start..end], b) % W64 == num
  }

  ghost predicate Blank(tail: text) {
    tail != [] && tail[|tail| - 1] == 0 && forall i :: 0 <= i < |tail| - 1 ==> tail[i] == 32
  }

  /** A text made of what is skipped, digits, blanks and a zero. */
  lemma {:induction false} Shape(p: text, body: text, tail: text, base: nat)
    requires (p == [] || p == [48, 120] || p == [48, 88]) && body != [] && Digital(body, base) && Blank(tail)
    ensures var s := p + body + tail; Terminated(s) && |s| >= 2
    ensures var s := p + body + tail; ToLower(s[1]) == 120 <==> p != []
    ensures var s := p + body + tail; p != [] ==> |s| > 2 && IsXDigit(s[2]) && s[0] == 48
    ensures !Accepts(tail[0], base)
  {
    var s := p + body + tail;
    assert s[|s| - 1] == tail[|tail| - 1];
    forall i | 0 <= i < |s| - 1 ensures s[i] != 0 {
      if |p| <= i < |p| + |body| { assert s[i] == body[i - |p|]; }
    }
    if p == [] { assert s[1] == if |body| > 1 then body[1] else tail[0]; } else { assert s[1] == p[1] && s[2] == body[0]; }
  }

  lemma {:induction false} ReadsBody(p: text, num: nat, base: nat, z: nat, small: bool, tail: text, parse: nat)
    requires (p == [] || p == [48, 120] || p == [48, 88]) && Blank(tail) && 2 <= base <= 16 && num < W64
    ensures var s := p + Body(num, base, z, small) + tail; Terminated(s)
    ensures var s := p + Body(num, base, z, small) + tail; Radix(s, parse) == (base, |p|) ==> Reads(s, parse, num, |s| - |tail|)
  {
    var body := Body(num, base, z, small);
    BodyIs(num, base, z, small);
    Shape(p, body, tail, base);
    ReadDigits(p, body, tail, base);
    assert num % W64 == num;
  }

  /**
   Whatever number() writes for a 64-bit value, with or without prefix and zeros, is read back
   in the same base up to the blanks or the terminator behind it.
   */
  lemma {:induction false} RoundTrip(num: u64, base: nat, size: int, precision: int, f: Flags)
    requires base == 8 || base == 10 || base == 16
    requires Lead(|DigitsOf(num, base)|, base, size, precision, f) == 0
    ensures var s := Layout(num, base, size, precision, f) + [0];
      Terminated(s) && Reads(s, base, num, |s| - 1 - Trail(|DigitsOf(num, base)|, base, size, precision, f))
  {
    var z, tail := LayoutParts(num, base, size, precision, f);
    var p := Skipped(base, f);
    BodyIs(num, base, z, f.small);
    Shape(p, Body(num, base, z, f.small), tail, base);
    ReadsBody(p, num, base, z, f.small, tail, base);
  }

  lemma {:induction false} ReadsPrefixed(p: text, num: nat, base: nat, z: nat, small: bool, tail: text)
    requires Blank(tail) && num < W64
    requires (base == 16 && (p == [48, 120] || p == [48, 88])) || (base == 8 && p == [] && z > 0)
    ensures var s := p + Body(num, base, z, small) + tail; Terminated(s) && Reads(s, 0, num, |s| - |tail|)
  {
    var body := Body(num, base, z, small);
    BodyIs(num, base, z, small);
    Shape(p, body, tail, base);
    if base == 8 { assert (p + body + tail)[0] == body[0] == 48; }
    ReadsBody(p, num, base, z, small, tail, 0);
  }

  /** With the prefix the base need not be known to read it back. */
  lemma {:induction false} RoundTripPrefixed(num: u64, base: nat, size: int, precision: int, f: Flags)
    requires (base == 8 || base == 16) && f.special
    requires Lead(|DigitsOf(num, base)|, base, size, precision, f) == 0
    ensures var s := Layout(num, base, size, precision, f) + [0];
      Terminated(s) && Reads(s, 0, num, |s| - 1 - Trail(|DigitsOf(num, base)|, base, size, precision, f))
  {
    var z, tail := LayoutParts(num, base, size, precision, f);
    ReadsPrefixed(Skipped(base, f), num, base, z, f.small, tail);
  }

  lemma {:induction false} ReversedFirst(t: text)
    requires t != []
    ensures Reversed(t)[0] == t[|t| - 1]
  {
    if |t| > 1 { ReversedFirst(t[1..]); }
  }

  lemma {:induction false} FirstDigitIs(num: nat, small: bool)
    ensures Body(num, 10, 0, small) != [] && (Body(num, 10, 0, small)[0] == 48 <==> num == 0)
  {
    var ds := DigitsOf(num, 10);
    DigitsCanonical(num, 10);
    ReversedFirst(Codes(ds, small));
    assert Body(num, 10, 0, small)[0] == Code(ds[|ds| - 1], small);
  }

  lemma {:induction false} ReadsDecimal(num: nat, small: bool, tail: text)
    requires Blank(tail) && 0 < num < W64
    ensures var s := [] + Body(num, 10, 0, small) + tail; Terminated(s) && Reads(s, 0, num, |s| - |tail|)
  {
    ReadsBody([], num, 10, 0, small, tail, 0);
    FirstDigitIs(num, small);
    var s := [] + Body(num, 10, 0, small) + tail;
    assert s[0] == Body(num, 10, 0, small)[0];
    assert Radix(s, 0) == (10, 0);
  }

  lemma {:induction false} ReadsZero(small: bool, tail: text)
    requires Blank(tail)
    ensures var s := [] + Body(0, 10, 0, small) + tail; Terminated(s) && Reads(s, 0, 0, |s| - |tail|)
  {
    assert Body(0, 10, 0, small) == [48] && Body(0, 8, 0, small) == [48];
    ReadsBody([], 0, 8, 0, small, tail, 0);
    BodyIs(0, 8, 0, small);
    Shape([], [48], tail, 8);
  }

  // ------------------------------------------------------------- what the prefixes mean

  /** The value and the end that simple_strtoull finds. */
  ghost function Parsed(s: text, base: nat): (r: (nat, nat))
    requires Terminated(s)
  {
    var (b, start) := Radix(s, base);
    (Horner(s[start..End(s, start, b)], b) % W64, End(s, start, b))
  }

  ghost predicate Prefixed(s: text)
    requires Terminated(s)
  {
    s[0] == 48 && ToLower(s[1]) == 120
  }

  lemma {:induction false} EndShifted(p: text, t: text, i: nat, base: nat)
    requires i <= |t|
    ensures End(p + t, |p| + i, base) == |p| + End(t, i, base)
    decreases |t| - i
  {
    if i < |t| && Accepts(t[i], base) {
      EndShifted(p, t, i + 1, base);
    }
  }

  lemma {:induction false} StillTerminated(p: text, t: text)
    requires Terminated(t) && forall i :: 0 <= i < |p| ==> p[i] != 0
    ensures Terminated(p + t)
  {
    assert (p + t)[|p + t| - 1] == t[|t| - 1];
  }

  /** The prefix 0x in front of a hexadecimal digit gives the base in base 0, and is skipped in base 16. */
  lemma {:induction false} HexPrefix(x: int, t: text)
    requires (x == 120 || x == 88) && Terminated(t) && IsXDigit(t[0]) && !Prefixed(t)
    ensures Terminated([48, x] + t)
    ensures Parsed([48, x] + t, 0) == Parsed([48, x] + t, 16) == (Parsed(t, 16).0, Parsed(t, 16).1 + 2)
  {
    var s, e := [48, x] + t, End(t, 0, 16);
    StillTerminated([48, x], t);
    assert s[2] == t[0];
    EndShifted([48, x], t, 0, 16);
    assert s[2..2 + e] == t[0..e];
  }

  /** If no hexadecimal digit follows, base 0 reads the zero only, and base 16 nothing behind the prefix. */
  lemma {:induction false} BarePrefix(x: int, t: text)
    requires (x == 120 || x == 88) && Terminated(t) && !IsXDigit(t[0])
    ensures Terminated([48, x] + t)
    ensures Parsed([48, x] + t, 0) == (0, 1) && Parsed([48, x] + t, 16) == (0, 2)
  {
    var s := [48, x] + t;
    StillTerminated([48, x], t);
    assert s[2] == t[0];
    assert End(s, 1, 8) == 1 && End(s, 0, 8) == 1 && End(s, 2, 16) == 2;
    assert s[0..1] == [48] && [48][..0] == [] && s[2..2] == [];
    assert Horner([48], 8) == 0;
  }

  lemma {:induction false} OneZero(u: text)
    requires Digital(u, 8)
    ensures (forall i :: 0 <= i < |[48] + u| ==> IsXDigit(([48] + u)[i])) && Horner([48] + u, 8) == Horner(u, 8)
  {
    assert Repeat(48, 1) == [48];
    LeadingZeros(1, u, 8);
  }

  /** Any other zero in front means octal in base 0. */
  lemma {:induction false} OctalPrefix(t: text)
    requires Terminated(t) && ToLower(t[0]) != 120
    ensures Terminated([48] + t) && Parsed([48] + t, 0) == (Parsed(t, 8).0, Parsed(t, 8).1 + 1)
  {
    var s, e := [48] + t, End(t, 0, 8);
    StillTerminated([48], t);
    assert s[1] == t[0];
    EndShifted([48], t, 0, 8);
    assert End(s, 0, 8) == 1 + e && s[0..1 + e] == [48] + t[0..e];
    OneZero(t[0..e]);
  }

  /** And without a zero in front base 0 is base 10. */
  lemma {:induction false} NoPrefix(t: text)
    requires Terminated(t) && t[0] != 48
    ensures Parsed(t, 0) == Parsed(t, 10)
  {
  }

  // ------------------------------------------------------------- decimal text in base 0

  lemma {:induction false} FewerInOctal(ds: seq<nat>)
    ensures Value(ds, 8) <= Value(ds, 10)
  {
    if ds != [] { FewerInOctal(ds[1..]); }
  }

  /** Two digits or more mean less in base 8 than in base 10. */
  lemma {:induction false} LessInOctal(ds: seq<nat>)
    requires |ds| > 1 && ds[|ds| - 1] != 0
    ensures Value(ds, 8) < Value(ds, 10)
  {
    FewerInOctal(ds[1..]);
    PositiveValue(ds[1..], 10);
  }

  /** Decimal digits that are octal ones as well, with zeros in front, read in base 8. */
  lemma {:induction false} OctalValue(num: nat, z: nat, small: bool)
    requires num >= 8 && forall i :: 0 <= i < |DigitsOf(num, 10)| ==> DigitsOf(num, 10)[i] < 8
    ensures Digital(Body(num, 10, z, small), 8) && Horner(Body(num, 10, z, small), 8) < num
  {
    var ds := DigitsOf(num, 10);
    DigitsCanonical(num, 10);
    assert |ds| > 1;
    LessInOctal(ds);
    ReversedDigits(ds, small, 8);
    LeadingZeros(z, Reversed(Codes(ds, small)), 8);
  }

  lemma {:induction false} ReversedHas(t: text, c: int)
    requires c in t
    ensures c in Reversed(t)
  {
    if c != t[0] { ReversedHas(t[1..], c); }
  }

  /** A digit 8 or 9 ends the octal digits early. */
  lemma {:induction false} EightStops(num: nat, z: nat, small: bool, tail: text, i: nat)
    requires i < |DigitsOf(num, 10)| && DigitsOf(num, 10)[i] >= 8 && Blank(tail)
    ensures var s := [] + Body(num, 10, z, small) + tail; End(s, 0, 8) < |s| - |tail|
  {
    var ds := DigitsOf(num, 10);
    var cs, body := Codes(ds, small), Body(num, 10, z, small);
    DigitsCanonical(num, 10);
    DigitOfCode(ds[i], small);
    assert cs[i] == Code(ds[i], small) && cs[i] in cs;
    ReversedHas(cs, cs[i]);
    assert cs[i] in body;
    var k :| 0 <= k < |body| && body[k] == cs[i];
    assert ([] + body + tail)[k] == body[k];
  }

  lemma {:induction false} ZerosMeanOctal(num: nat, z: nat, small: bool, tail: text)
    requires z > 0 && Blank(tail)
    ensures var s := [] + Body(num, 10, z, small) + tail; Terminated(s) && Radix(s, 0) == (8, 0)
  {
    var body := Body(num, 10, z, small);
    BodyIs(num, 10, z, small);
    Shape([], body, tail, 10);
    assert ([] + body + tail)[0] == body[0] == 48;
  }

  lemma {:induction false} ReadsOther(s: text, body: text, tail: text, num: nat)
    requires s == [] + body + tail && Terminated(s) && Radix(s, 0) == (8, 0)
    requires Digital(body, 8) && Horner(body, 8) < num < W64 && Blank(tail)
    ensures !Reads(s, 0, num, |s| - |tail|)
  {
    ReadDigits([], body, tail, 8);
    assert Horner(body, 8) % W64 == Horner(body, 8);
  }

  lemma {:induction false} NotReadBack(num: nat, z: nat, small: bool, tail: text)
    requires z > 0 && 8 <= num < W64 && Blank(tail)
    ensures var s := [] + Body(num, 10, z, small) + tail; Terminated(s) && !Reads(s, 0, num, |s| - |tail|)
  {
    ZerosMeanOctal(num, z, small, tail);
    var ds := DigitsOf(num, 10);
    if i :| 0 <= i < |ds| && ds[i] >= 8 {
      EightStops(num, z, small, tail, i);
    } else {
      OctalValue(num, z, small);
      ReadsOther([] + Body(num, 10, z, small) + tail, Body(num, 10, z, small), tail, num);
    }
  }

  lemma {:induction false} SmallReadBack(num: nat, z: nat, small: bool, tail: text)
    requires z > 0 && num < 8 && Blank(tail)
    ensures var s := [] + Body(num, 10, z, small) + tail; Terminated(s) && Reads(s, 0, num, |s| - |tail|)
  {
    assert DigitsOf(num, 10) == [num] == DigitsOf(num, 8);
    ZerosMeanOctal(num, z, small, tail);
    ReadsBody([], num, 8, z, small, tail, 0);
  }

  lemma {:induction false} DecimalBody(s: text, num: nat, z: nat, small: bool, tail: text)
    requires num < W64 && Blank(tail) && s == [] + Body(num, 10, z, small) + tail
    ensures Terminated(s) && (Reads(s, 0, num, |s| - |tail|) <==> z == 0 || num < 8)
  {
    if z > 0 {
      if num < 8 { SmallReadBack(num, z, small, tail); } else { NotReadBack(num, z, small, tail); }
    } else {
      if num == 0 { ReadsZero(small, tail); } else { ReadsDecimal(num, small, tail); }
    }
  }

  lemma {:induction false} DecimalParts(num: nat, size: int, precision: int, f: Flags, s: text, n: nat) returns (z: nat, tail: text)
    requires n == |DigitsOf(num, 10)| && Lead(n, 10, size, precision, f) == 0 && s == Layout(num, 10, size, precision, f) + [0]
    ensures s == [] + Body(num, 10, z, f.small) + tail && Blank(tail)
    ensures |tail| == Trail(n, 10, size, precision, f) + 1 && z == Zeros(n, 10, size, precision, f)
  {
    z, tail := LayoutParts(num, 10, size, precision, f);
    assert Skipped(10, f) == [];
  }

  /** Decimal text is read back in base 0 exactly if there are no zeros in front or octal makes no difference. */
  lemma {:induction false} RoundTripDecimal(num: u64, size: int, precision: int, f: Flags, s: text, n: nat)
    requires n == |DigitsOf(num, 10)| && Lead(n, 10, size, precision, f) == 0 && s == Layout(num, 10, size, precision, f) + [0]
    ensures Terminated(s)
    ensures Reads(s, 0, num, |s| - 1 - Trail(n, 10, size, precision, f)) <==> Zeros(n, 10, size, precision, f) == 0 || num < 8
  {
    var z, tail := DecimalParts(num, size, precision, f, s, n);
    DecimalBody(s, num, z, f.small, tail);
  }

  lemma {:induction false} TenWritten()
    ensures Layout(10, 10, 0, 3, Flags(false, false, false, false)) == [48, 49, 48]
  {
    assert DigitsOf(10, 10) == [0, 1];
    var cs := Codes([0, 1], false);
    assert cs == [48, 49] && cs[1..] == [49] && Reversed([49]) == [49];
    assert Reversed(cs) == [49, 48];
  }

  /** Ten with three digits of precision is written as 010 and read back in base 0 as eight. */
  lemma {:induction false} TenReadAsEight()
    ensures var s := Layout(10, 10, 0, 3, Flags(false, false, false, false)) + [0];
      s == [48, 49, 48, 0] && Terminated(s) && Reads(s, 0, 8, 3)
  {
    TenWritten();
    var s, t := [48, 49, 48, 0], [48, 49, 48];
    assert s[0..3] == t && t[..2] == [48, 49] && t[..2][..1] == [48];
    assert Horner([48], 8) == 0 && Horner([48, 49], 8) == 1 && Horner(t, 8) == 8;
    assert End(s, 3, 8) == 3 && End(s, 2, 8) == 3 && End(s, 1, 8) == 3;
  }
}
