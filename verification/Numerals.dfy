/** Numbers as text: number() of lib/vsprintf.c for unsigned values, and the text it lays out. */
module Numerals {
  import opened Words
  import Arithmetic
  import opened Powers
  import opened Digits
  import opened Decimal

  datatype Flags = Flags(zeropad: bool, left: bool, small: bool, special: bool)

  /** "0123456789ABCDEF". */
  const Table: text := [48, 49, 50, 51, 52, 53, 54, 55, 56, 57, 65, 66, 67, 68, 69, 70]

  function Code(d: nat, small: bool): int {
    if d < 10 then 48 + d else if small then 87 + d else 55 + d
  }

  /** Setting the bit 0x20 leaves digits alone and makes letters lower case. */
  lemma {:induction false} CaseBit(c: nat, bit: nat)
    requires 32 <= c < 128 && bit == 0x20
    ensures BitOr(c, bit) == if c / 32 == 2 then c + 32 else c
  {
    SetBit(c, 5);
    assert Pow2(5) == 32;
  }

  lemma {:induction false} LowerCase(d: nat, c: nat, bit: nat)
    requires d < 16 && c == Code(d, false) && (bit == 0x20 || bit == 0)
    ensures BitOr(c, bit) == Code(d, bit == 0x20)
  {
    if bit == 0x20 { CaseBit(c, bit); }
  }

  function Codes(ds: seq<nat>, small: bool): (s: text)
    ensures |s| == |ds| && forall i :: 0 <= i < |ds| ==> s[i] == Code(ds[i], small)
  {
    if ds == [] then [] else [Code(ds[0], small)] + Codes(ds[1..], small)
  }

  function Repeat(c: int, n: int): (s: text)
    ensures |s| == (if n > 0 then n else 0) && forall i :: 0 <= i < |s| ==> s[i] == c
  {
    if n <= 0 then [] else Repeat(c, n - 1) + [c]
  }

  function Reversed(s: text): (r: text)
    ensures |r| == |s|
  {
    if s == [] then [] else Reversed(s[1..]) + [s[0]]
  }

  // ------------------------------------------------------------- the layout

  function Prefix(base: nat, f: Flags): text {
    if !f.special || base == 10 then [] else if base == 16 then [48, if f.small then 120 else 88] else [48]
  }

  function Max(a: int, b: int): int {
    if a < b then b else a
  }

  /** How much of the width is left to be filled. */
  function Spare(n: nat, base: nat, size: int, precision: int, f: Flags): int {
    size - |Prefix(base, f)| - Max(n, precision)
  }

  function Zeros(n: nat, base: nat, size: int, precision: int, f: Flags): nat {
    Max(if f.zeropad && !f.left then Spare(n, base, size, precision, f) else 0, 0) + Max(precision - n, 0)
  }

  function Lead(n: nat, base: nat, size: int, precision: int, f: Flags): nat {
    if f.zeropad || f.left then 0 else Max(Spare(n, base, size, precision, f), 0)
  }

  function Trail(n: nat, base: nat, size: int, precision: int, f: Flags): nat {
    if f.left then Max(Spare(n, base, size, precision, f), 0) else 0
  }

  /** Blanks, prefix, zeros, digits, blanks. */
  function Layout(num: nat, base: nat, size: int, precision: int, f: Flags): text
    requires base >= 2
  {
    var ds := Codes(DigitsOf(num, base), f.small);
    Front(|ds|, base, size, precision, f) + Reversed(ds) + Repeat(32, Trail(|ds|, base, size, precision, f))
  }

  function Front(n: nat, base: nat, size: int, precision: int, f: Flags): text {
    Repeat(32, Lead(n, base, size, precision, f)) + Prefix(base, f) + Repeat(48, Zeros(n, base, size, precision, f))
  }

  /** The text fills the width asked for, or is as long as the number and its precision need. */
  lemma {:induction false} LayoutWidth(num: nat, base: nat, size: int, precision: int, f: Flags)
    requires base >= 2
    ensures |Layout(num, base, size, precision, f)| == Max(size, |Prefix(base, f)| + Max(|DigitsOf(num, base)|, precision))
  {
  }

  // ------------------------------------------------------------- what the text looks like

  function Alphabet(small: bool): string {
    if small then "0123456789abcdef" else "0123456789ABCDEF"
  }

  function Marker(base: nat, f: Flags): string {
    if !f.special || base == 10 then "" else if base == 8 then "0" else if f.small then "0x" else "0X"
  }

  predicate Spelled(t: text, s: string) {
    |t| == |s| && forall i :: 0 <= i < |s| ==> t[i] == s[i] as int
  }

  /** `t` is the one notation of `num` without needless zeros, the most significant digit first. */
  ghost predicate Denotes(t: text, num: nat, base: nat, small: bool) {
    exists ds :: Canonical(ds, base) && Value(ds, base) == num && Shows(t, ds, small)
  }

  predicate Shows(t: text, ds: seq<nat>, small: bool) {
    |t| == |ds| && forall i :: 0 <= i < |t| ==> ds[|ds| - 1 - i] < 16 && t[i] == Alphabet(small)[ds[|ds| - 1 - i]] as int
  }

  /** The parts of a formatted number. */
  datatype Field = Field(blanks: nat, prefix: text, zeros: nat, digits: text, trail: nat)

  function Joint(p: Field): text {
    Repeat(32, p.blanks) + p.prefix + Repeat(48, p.zeros) + p.digits + Repeat(32, p.trail)
  }

  /**
   The precision is the least number of digits and the size the least width; only one kind of filling
   makes up the width, by the flags, and none is written that is not needed.
   */
  ghost predicate Fills(p: Field, size: int, precision: int, f: Flags) {
    var (width, extra) := (|Joint(p)|, p.zeros - Max(precision - |p.digits|, 0));
    && width >= size && extra >= 0
    && (width > size ==> p.blanks == extra == p.trail == 0)
    && (p.blanks > 0 ==> !f.zeropad && !f.left)
    && (extra > 0 ==> f.zeropad && !f.left)
    && (p.trail > 0 ==> f.left)
  }

  ghost predicate Formatted(p: Field, num: nat, base: nat, size: int, precision: int, f: Flags) {
    Spelled(p.prefix, Marker(base, f)) && Denotes(p.digits, num, base, f.small) && Fills(p, size, precision, f)
  }

  ghost predicate Formats(out: text, num: nat, base: nat, size: int, precision: int, f: Flags) {
    exists p :: out == Joint(p) && Formatted(p, num, base, size, precision, f)
  }

  lemma {:induction false} ReversedAt(s: text, k: nat)
    requires k < |s|
    ensures Reversed(s)[k] == s[|s| - 1 - k]
  {
    if k < |s| - 1 { ReversedAt(s[1..], k); }
  }

  lemma {:induction false} CodeShown(d: nat, small: bool)
    requires d < 16
    ensures Code(d, small) == Alphabet(small)[d] as int
  {
  }

  lemma {:induction false} CodeAt(ds: seq<nat>, small: bool, i: nat)
    requires i < |ds|
    ensures Reversed(Codes(ds, small))[i] == Code(ds[|ds| - 1 - i], small)
  {
    ReversedAt(Codes(ds, small), i);
  }

  lemma {:induction false} AllShown(ds: seq<nat>, small: bool)
    requires forall i :: 0 <= i < |ds| ==> ds[i] < 16
    ensures Shows(Reversed(Codes(ds, small)), ds, small)
  {
    forall i | 0 <= i < |ds| ensures Reversed(Codes(ds, small))[i] == Alphabet(small)[ds[|ds| - 1 - i]] as int {
      CodeAt(ds, small, i);
      CodeShown(ds[|ds| - 1 - i], small);
    }
  }

  lemma {:induction false} DigitsShown(num: nat, base: nat, small: bool)
    requires 2 <= base <= 16
    ensures Denotes(Reversed(Codes(DigitsOf(num, base), small)), num, base, small)
  {
    DigitsCanonical(num, base);
    AllShown(DigitsOf(num, base), small);
  }

  /** What the flags, the width and the precision promise holds of the layout. */
  lemma {:induction false} LayoutFormats(num: nat, base: nat, size: int, precision: int, f: Flags)
    requires base == 8 || base == 10 || base == 16
    ensures Formats(Layout(num, base, size, precision, f), num, base, size, precision, f)
  {
    var ds := Codes(DigitsOf(num, base), f.small);
    var p := Field(Lead(|ds|, base, size, precision, f), Prefix(base, f), Zeros(|ds|, base, size, precision, f), Reversed(ds),
                   Trail(|ds|, base, size, precision, f));
    DigitsShown(num, base, f.small);
    assert Layout(num, base, size, precision, f) == Joint(p);
  }

  lemma {:induction false} SameDigits(a: text, b: text, num: nat, base: nat, small: bool)
    requires base >= 2 && Denotes(a, num, base, small) && Denotes(b, num, base, small)
    ensures a == b
  {
    var ds :| Canonical(ds, base) && Value(ds, base) == num && Shows(a, ds, small);
    var es :| Canonical(es, base) && Value(es, base) == num && Shows(b, es, small);
    CanonicalUnique(ds, base);
    CanonicalUnique(es, base);
  }

  /** No other text meets these promises. */
  lemma {:induction false} FormatsUnique(a: text, b: text, num: nat, base: nat, size: int, precision: int, f: Flags)
    requires base >= 2 && Formats(a, num, base, size, precision, f) && Formats(b, num, base, size, precision, f)
    ensures a == b
  {
    var p :| a == Joint(p) && Formatted(p, num, base, size, precision, f);
    var q :| b == Joint(q) && Formatted(q, num, base, size, precision, f);
    SameDigits(p.digits, q.digits, num, base, f.small);
    assert p.prefix == q.prefix;
    SameFill(p, q, size, precision, f);
  }

  lemma {:induction false} SameFill(p: Field, q: Field, size: int, precision: int, f: Flags)
    requires p.prefix == q.prefix && p.digits == q.digits && Fills(p, size, precision, f) && Fills(q, size, precision, f)
    ensures p == q
  {
  }

  predicate LowerCaseLetter(c: int) { 97 <= c <= 122 }
  predicate UpperCaseLetter(c: int) { 65 <= c <= 90 }

  lemma {:induction false} PartsPlain(p: Field, num: nat, base: nat, size: int, precision: int, f: Flags)
    requires Formatted(p, num, base, size, precision, f)
    ensures p.digits != [] && forall c :: c in p.prefix || c in p.digits ==> c != 32
    ensures forall c :: c in p.prefix || c in p.digits ==> if f.small then !UpperCaseLetter(c) else !LowerCaseLetter(c)
  {
    var ds :| Canonical(ds, base) && Value(ds, base) == num && Shows(p.digits, ds, f.small);
    forall c | c in p.digits ensures c != 32 && if f.small then !UpperCaseLetter(c) else !LowerCaseLetter(c) {
      var i :| 0 <= i < |p.digits| && p.digits[i] == c;
      AlphabetPlain(ds[|ds| - 1 - i], f.small);
    }
  }

  lemma {:induction false} AlphabetPlain(d: nat, small: bool)
    requires d < 16
    ensures var c := Alphabet(small)[d] as int; c != 32 && if small then !UpperCaseLetter(c) else !LowerCaseLetter(c)
  {
  }

  lemma {:induction false} JointMembers(p: Field, c: int)
    ensures c in Joint(p) ==> c in p.prefix || c in p.digits || c == 48 || (c == 32 && (p.blanks > 0 || p.trail > 0))
  {
    assert c in Repeat(32, p.blanks) ==> c == 32;
    assert c in Repeat(48, p.zeros) ==> c == 48;
    assert c in Repeat(32, p.trail) ==> c == 32;
  }

  /** Letters are in lower case if and only if that was asked for, and a number filled up with zeros has no blanks. */
  lemma {:induction false} FormatLetters(out: text, num: nat, base: nat, size: int, precision: int, f: Flags)
    requires Formats(out, num, base, size, precision, f)
    ensures forall c :: c in out ==> if f.small then !UpperCaseLetter(c) else !LowerCaseLetter(c)
    ensures f.zeropad && !f.left ==> 32 !in out
  {
    var p :| out == Joint(p) && Formatted(p, num, base, size, precision, f);
    PartsPlain(p, num, base, size, precision, f);
    forall c | c in out ensures (if f.small then !UpperCaseLetter(c) else !LowerCaseLetter(c)) && (f.zeropad && !f.left ==> c != 32) {
      JointMembers(p, c);
    }
  }

  lemma {:induction false} JointEnds(p: Field)
    requires p.digits != []
    ensures Joint(p) != []
    ensures p.blanks == 0 ==> Joint(p)[0] == if p.prefix != [] then p.prefix[0] else if p.zeros > 0 then 48 else p.digits[0]
    ensures p.trail == 0 ==> Joint(p)[|Joint(p)| - 1] == p.digits[|p.digits| - 1]
  {
  }

  /** A number set to the left does not begin with a blank, and any other does not end with one. */
  lemma {:induction false} FormatEnds(out: text, num: nat, base: nat, size: int, precision: int, f: Flags)
    requires Formats(out, num, base, size, precision, f)
    ensures out != [] && if f.left then out[0] != 32 else out[|out| - 1] != 32
  {
    var p :| out == Joint(p) && Formatted(p, num, base, size, precision, f);
    PartsPlain(p, num, base, size, precision, f);
    JointEnds(p);
    assert p.digits[0] in p.digits && p.digits[|p.digits| - 1] in p.digits;
    assert p.prefix != [] ==> p.prefix[0] in p.prefix;
  }

  // ------------------------------------------------------------- number()

  /** `while (--size >= 0)` of the code, writing `c` each time. */
  method Pad(out: text, c: int, size: int) returns (r: text, left: int)
    ensures r == out + Repeat(c, size) && left == if size > 0 then -1 else size - 1
  {
    r, left := out, size - 1;
    ghost var k := 0;
    while left >= 0
      invariant 0 <= k && left == size - 1 - k && (left >= -1 || k == 0) && r == out + Repeat(c, k)
      decreases left
    {
      r, left, k := r + [c], left - 1, k + 1;
    }
  }

  lemma {:induction false} LowByte(n: nat, base: nat, j: nat)
    requires base > 0 && base * j == 256
    ensures n % 256 % base == n % base
  {
    var h, x := n / 256, n % 256;
    assert n == (h * j + x / base) * base + x % base by {
      assert h * 256 == h * j * base by { Arithmetic.MulAssoc(h, j, base); }
      Arithmetic.QuotRem(x, base);
      assert (h * j + x / base) * base == h * j * base + x / base * base;
    }
    Arithmetic.DivUnique(n, base, h * j + x / base, x % base);
  }

  /** The low byte masked to three or four bits is the lowest digit. */
  lemma {:induction false} MaskedDigit(n: nat, base: nat, shift: nat)
    requires Pow2(shift) == base && (base == 8 || base == 16)
    ensures BitAnd(n % 256, base - 1) == n % base
  {
    AndMask(n % 256, shift);
    LowByte(n, base, if base == 8 then 32 else 16);
  }

  lemma {:induction false} CodesCons(d: nat, ds: seq<nat>, small: bool)
    ensures Codes([d] + ds, small) == [Code(d, small)] + Codes(ds, small)
  {
    assert ([d] + ds)[1..] == ds;
  }

  /** What remains to be written of the digits of the first number. */
  ghost function Rest(n: nat, base: nat, small: bool): text
    requires base >= 2
  {
    if n == 0 then [] else Codes(DigitsOf(n, base), small)
  }

  lemma {:induction false} OneMore(n: nat, base: nat, small: bool)
    requires base >= 2 && n > 0
    ensures 0 <= n / base < n && Rest(n, base, small) == [Code(n % base, small)] + Rest(n / base, base, small)
  {
    if n >= base {
      Quotient(n, base);
      CodesCons(n % base, DigitsOf(n / base, base), small);
    } else {
      Arithmetic.DivUnique(n, base, 0, n);
      CodesCons(n, [], small);
      assert DigitsOf(n, base) == [n] + [];
    }
  }

  lemma {:induction false} Joined(tmp: text, c: int, a: text, b: text)
    requires b == [c] + a
    ensures tmp + [c] + a == tmp + b
  {
  }

  /** The character for the lowest digit. */
  method LowDigit(n: nat, base: nat, shift: nat, locase: nat) returns (c: int)
    requires Pow2(shift) == base && (base == 8 || base == 16) && (locase == 0x20 || locase == 0)
    ensures c == Code(n % base, locase == 0x20)
  {
    MaskedDigit(n, base, shift);
    var d := BitAnd(n % 256, base - 1);
    assert Table[d] == Code(d, false);
    LowerCase(d, Table[d], locase);
    c := BitOr(Table[d], locase);
  }

  /** Octal or hexadecimal digits, the least significant first. */
  method PutBits(num: nat, base: nat, locase: nat) returns (tmp: text)
    requires num > 0 && (base == 8 || base == 16) && (locase == 0x20 || locase == 0)
    ensures tmp == Rest(num, base, locase == 0x20)
  {
    var shift := if base == 16 then 4 else 3;
    assert Pow2(3) == 8 && Pow2(4) == 16;
    var n := num;
    tmp := [];
    ghost var goal := Rest(num, base, locase == 0x20);
    while n != 0
      invariant 0 <= n && tmp + Rest(n, base, locase == 0x20) == goal
    {
      n, tmp := Shift(n, base, shift, locase, tmp);
    }
  }

  method Shift(n: nat, base: nat, shift: nat, locase: nat, tmp: text) returns (m: nat, tmp': text)
    requires n > 0 && Pow2(shift) == base && (base == 8 || base == 16) && (locase == 0x20 || locase == 0)
    ensures m < n && tmp' + Rest(m, base, locase == 0x20) == tmp + Rest(n, base, locase == 0x20)
  {
    var c := LowDigit(n, base, shift, locase);
    OneMore(n, base, locase == 0x20);
    m, tmp' := n / Pow2(shift), tmp + [c];
    Joined(tmp, c, Rest(m, base, locase == 0x20), Rest(n, base, locase == 0x20));
  }

  lemma {:induction false} ReversedLast(s: text, i: nat)
    requires i < |s|
    ensures Reversed(s[i..]) == Reversed(s[i + 1..]) + [s[i]]
  {
    assert s[i..][1..] == s[i + 1..];
  }

  /** `while (--i >= 0)` over the digits in `tmp`. */
  method WriteBack(out: text, tmp: text) returns (r: text)
    ensures r == out + Reversed(tmp)
  {
    r := out;
    var i := |tmp| - 1;
    while i >= 0
      invariant -1 <= i < |tmp| && r == out + Reversed(tmp[i + 1..])
    {
      ReversedLast(tmp, i);
      r := r + [tmp[i]];
      i := i - 1;
    }
    assert tmp[0..] == tmp;
  }

  lemma {:induction false} SameGlyphs(ds: seq<nat>, small: bool)
    requires forall i :: 0 <= i < |ds| ==> ds[i] < 10
    ensures Glyphs(ds) == Codes(ds, small)
  {
  }

  /** The digits of number() in its buffer `tmp`, the least significant first. */
  method PutDigits(num: u64, base: nat, small: bool) returns (tmp: text)
    requires base == 8 || base == 10 || base == 16
    ensures tmp == Codes(DigitsOf(num, base), small)
  {
    if num == 0 {
      tmp := [48];
      assert DigitsOf(0, base) == [0];
    } else if base != 10 {
      tmp := PutBits(num, base, if small then 0x20 else 0);
    } else {
      tmp := PutDec([], num);
      DigitsCanonical(num, 10);
      SameGlyphs(DigitsOf(num, 10), small);
    }
  }

  method PutPrefix(out: text, base: nat, f: Flags) returns (r: text)
    requires base == 8 || base == 10 || base == 16
    ensures r == out + Prefix(base, f)
  {
    r := out;
    if f.special && base != 10 {
      r := r + [48];
      if base == 16 {
        if f.small { CaseBit(88, 0x20); }
        r := r + [BitOr(88, if f.small then 0x20 else 0)];
      }
    }
  }

  /** The blanks in front, unless the width is filled with zeros or on the right. */
  method PadLeft(f: Flags, width: int) returns (out: text, rest: int)
    ensures out == Repeat(32, if f.zeropad || f.left then 0 else Max(width, 0))
    ensures f.zeropad || f.left ==> rest == width
    ensures !f.zeropad && !f.left ==> rest < 0
  {
    var zeropad := f.zeropad && !f.left;
    out, rest := [], width;
    if !zeropad && !f.left { out, rest := Pad(out, 32, width); }
  }

  /** The zeros behind the prefix. */
  method PadZeros(out: text, f: Flags, width: int, extra: int) returns (r: text, rest: int)
    requires f.zeropad || f.left || width < 0
    ensures r == out + Repeat(48, Max(if f.zeropad && !f.left then width else 0, 0) + Max(extra, 0))
    ensures Max(rest, 0) == if f.left then Max(width, 0) else 0
  {
    var zeropad := f.zeropad && !f.left;
    r, rest := out, width;
    if !f.left { r, rest := Pad(r, if zeropad then 48 else 32, rest); }
    ghost var m := if zeropad then width else 0;
    assert r == out + Repeat(48, m);
    RepeatTwice(out, 48, m, extra);
    var done;
    r, done := Pad(r, 48, extra);
  }

  /** Everything in front of the digits; `width` is what remains of the width to be filled. */
  method PutFront(i: nat, base: nat, size: int, precision: int, f: Flags) returns (out: text, width: int)
    requires base == 8 || base == 10 || base == 16
    ensures out == Front(i, base, size, precision, f)
    ensures Max(width, 0) == Trail(i, base, size, precision, f)
  {
    var need := f.special && base != 10;
    width := if !need then size else if base == 16 then size - 2 else size - 1;
    var prec := if i > precision then i else precision;
    width := width - prec;
    assert width == Spare(i, base, size, precision, f);
    out, width := PadLeft(f, width);
    out := PutPrefix(out, base, f);
    out, width := PadZeros(out, f, width, prec - i);
  }

  /** number() for an unsigned value and a buffer that is large enough. */
  method Number(num: u64, base: nat, size: int, precision: int, f: Flags) returns (out: text)
    requires base == 8 || base == 10 || base == 16
    ensures out == Layout(num, base, size, precision, f) && Formats(out, num, base, size, precision, f)
  {
    LayoutFormats(num, base, size, precision, f);
    var tmp := PutDigits(num, base, f.small);
    var width;
    out, width := PutFront(|tmp|, base, size, precision, f);
    out := WriteBack(out, tmp);
    out, width := Pad(out, 32, width);
  }

  lemma {:induction false} RepeatTwice(out: text, c: int, m: int, n: int)
    ensures out + Repeat(c, m) + Repeat(c, n) == out + Repeat(c, Max(m, 0) + Max(n, 0))
  {
  }
}
