/** UTF-16 and UTF-8 as lib/charset.c converts between them, on values. */
module Utf {
  import opened Unicode

  const Question: u8 := 63

  // ------------------------------------------------------------- encoding

  function Continuation(x: nat): u8 {
    0x80 + x % 64
  }

  function FourBytes(code: nat): seq<u8>
    requires code < 0x11_0000
  {
    [0xF0 + code / 0x4_0000, Continuation(code / 0x1000), Continuation(code / 64), Continuation(code)]
  }

  function Paired(high: u16, low: u16): (code: nat)
    requires High(high) && Low(low)
    ensures 0x1_0000 <= code < 0x11_0000
  {
    (high - 0xD800) * 0x400 + (low - 0xDC00) + 0x1_0000
  }

  /** One unit on its own; a stray surrogate becomes a question mark. */
  function Bytes(code: u16): (b: seq<u8>)
    requires !High(code)
    ensures 1 <= |b| <= 3
  {
    if code <= 0x7F then [code]
    else if code <= 0x7FF then [0xC0 + code / 64, Continuation(code)]
    else if Low(code) then [Question]
    else [0xE0 + code / 0x1000, Continuation(code / 64), Continuation(code)]
  }

  /**
   What the converter writes in `n` more steps at `src[i..]`; `high` is a pending high
   surrogate, or zero.  A unit that does not complete the pair is looked at again, but counts.
   Every input, well formed or not, takes at most three bytes for each unit.
   */
  function Encode(src: seq<u16>, i: nat, n: nat, high: u16): (r: seq<u8>)
    requires i + n <= |src| && (high == 0 || High(high))
    ensures |r| <= 3 * n + if high == 0 then 0 else 3
    decreases n
  {
    if n == 0 then []
    else if high != 0 then
      if Low(src[i]) then FourBytes(Paired(high, src[i])) + Encode(src, i + 1, n - 1, 0)
      else [Question] + Encode(src, i, n - 1, 0)
    else if High(src[i]) then Encode(src, i + 1, n - 1, src[i])
    else Bytes(src[i]) + Encode(src, i + 1, n - 1, 0)
  }

  // ------------------------------------------------------------- decoding

  function Extend(code: nat, ext: nat, s: seq<u8>): (r: (nat, seq<u8>))
    ensures |r.1| <= |s|
    decreases ext
  {
    if ext == 0 || s == [] then (code, s)
    else if s[0] / 64 == 2 then Extend(code * 64 + s[0] % 64, ext - 1, s[1..])
    else (Question, s[1..])
  }

  function Units(code: nat): (u: seq<u16>)
    requires code < 0x20_0000
    ensures Scalar(code) ==> Utf16(u, code)
  {
    if code < 0x1_0000 then [code] else [code / 0x400 + 0xD7C0, 0xDC00 + code % 0x400]
  }

  /** The bits of a leading byte, and how many bytes are to follow; none of either if it is illegal. */
  function Leading(b: u8): (r: (nat, nat))
    requires 0xC0 <= b <= 0xF7
    ensures 1 <= r.1 <= 3
  {
    if b <= 0xDF then (b % 32, 1) else if b <= 0xEF then (b % 16, 2) else (b % 8, 3)
  }

  lemma {:induction false} ExtendBound(code: nat, ext: nat, s: seq<u8>)
    requires ext <= 3 && code < (if ext == 0 then 0x20_0000 else if ext == 1 then 0x8000 else if ext == 2 then 0x200 else 8)
    ensures Extend(code, ext, s).0 < 0x20_0000
    decreases ext
  {
    if ext > 0 && s != [] && s[0] / 64 == 2 { ExtendBound(code * 64 + s[0] % 64, ext - 1, s[1..]); }
  }

  /** What the converter makes of the bytes `s`: an illegal byte is looked at again, but counts. */
  function Decode(s: seq<u8>): seq<u16>
    decreases |s|
  {
    if s == [] then []
    else if s[0] <= 0x7F then [s[0]] + if s[0] == 0 then [] else Decode(s[1..])
    else if s[0] < 0xC0 || s[0] > 0xF7 then [Question] + Decode(s[..|s| - 1])
    else
      var (code, ext) := Leading(s[0]);
      var (full, rest) := Extend(code, ext, s[1..]);
      ExtendBound(code, ext, s[1..]);
      Units(full) + Decode(rest)
  }

  // ------------------------------------------------------------- what the encoder writes

  lemma {:induction false} PayloadNext(b: seq<u8>, x: u8)
    requires Chain(b) && Continues(x)
    ensures Chain(b + [x]) && Payload(b + [x]) == Payload(b) * 64 + x - 0x80
  {
    assert (b + [x])[..|b|] == b;
  }

  /** A leading byte with the top bits, and six bits in each byte behind it. */
  lemma {:induction false} Grow(b: seq<u8>, c: nat, b': seq<u8>)
    requires Chain(b) && Payload(b) == c / 64 && b' == b + [Continuation(c)]
    ensures Chain(b') && Payload(b') == c
  {
    PayloadNext(b, Continuation(c));
  }

  lemma {:induction false} TwoForm(c: u16)
    requires 0x80 <= c < 0x800
    ensures Utf8(Bytes(c), c)
  {
    Grow([0xC0 + c / 64], c, Bytes(c));
  }

  lemma {:induction false} ThreeForm(c: u16)
    requires 0x800 <= c && !High(c) && !Low(c)
    ensures Utf8(Bytes(c), c)
  {
    var b := [0xE0 + c / 0x1000];
    assert c / 64 / 64 == c / 0x1000;
    Grow(b, c / 64, b + [Continuation(c / 64)]);
    Grow(b + [Continuation(c / 64)], c, Bytes(c));
  }

  lemma {:induction false} FourForm(c: nat)
    requires 0x1_0000 <= c < 0x11_0000
    ensures Utf8(FourBytes(c), c)
  {
    var c1, c2, c3 := c / 64, c / 0x1000, c / 0x4_0000;
    assert c1 / 64 == c2 && c2 / 64 == c3 <= 4;
    FourGrown(0xF0 + c3, c, c1, c2, c3);
  }

  lemma {:induction false} FourGrown(b: u8, c: nat, c1: nat, c2: nat, c3: nat)
    requires b == 0xF0 + c3 && c3 <= 4 && c2 / 64 == c3 && c1 / 64 == c2 && c / 64 == c1
    ensures var s := [b, Continuation(c2), Continuation(c1), Continuation(c)]; Chain(s) && Payload(s) == c
  {
    Grow([b], c2, [b, Continuation(c2)]);
    Grow([b, Continuation(c2)], c1, [b, Continuation(c2), Continuation(c1)]);
    Grow([b, Continuation(c2), Continuation(c1)], c, [b, Continuation(c2), Continuation(c1), Continuation(c)]);
  }

  /** What stands at the beginning of a text: how many units it takes, and how many steps of the converter. */
  datatype Piece = Piece(code: nat, units: nat, steps: nat)

  /** A surrogate without its partner counts as a question mark, and a high one takes a step more. */
  function Head(u: seq<u16>): (p: Piece)
    requires u != []
    ensures 0 < p.units <= |u|
  {
    if High(u[0]) then if |u| > 1 && Low(u[1]) then Piece(Paired(u[0], u[1]), 2, 2) else Piece(Question, 1, 2)
    else Piece(if Low(u[0]) then Question else u[0], 1, 1)
  }

  /** The characters of any text. */
  function Characters(u: seq<u16>): seq<nat>
    decreases |u|
  {
    if u == [] then [] else [Head(u).code] + Characters(u[Head(u).units..])
  }

  /** Those that `n` steps are enough for. */
  function Written(u: seq<u16>, n: nat): (cs: seq<nat>)
    ensures cs <= Characters(u)
    decreases |u|
  {
    if u == [] || Head(u).steps > n then [] else [Head(u).code] + Written(u[Head(u).units..], n - Head(u).steps)
  }

  lemma {:induction false} Utf8Cons(b: seq<u8>, t: seq<u8>, c: nat, cs: seq<nat>)
    requires Utf8(b, c) && Utf8Text(t, cs)
    ensures Utf8Text(b + t, [c] + cs)
  {
    assert (b + t)[..Size(c)] == b && (b + t)[Size(c)..] == t && ([c] + cs)[1..] == cs;
  }

  lemma {:induction false} UnitForm(c: u16)
    requires !High(c)
    ensures Utf8(Bytes(c), if Low(c) then Question else c)
  {
    if 0x80 <= c < 0x800 { TwoForm(c); }
    if 0x800 <= c && !Low(c) { ThreeForm(c); }
  }

  /** What the first piece of the text is written as. */
  function Form(u: seq<u16>): (b: seq<u8>)
    requires u != []
    ensures Utf8(b, Head(u).code)
  {
    if High(u[0]) then
      if |u| > 1 && Low(u[1]) then
        FourForm(Paired(u[0], u[1]));
        FourBytes(Paired(u[0], u[1]))
      else [Question]
    else
      UnitForm(u[0]);
      Bytes(u[0])
  }

  lemma {:induction false} EncodeHead(src: seq<u16>, i: nat, n: nat, u: seq<u16>)
    requires i + n <= |src| && n > 0 && u == src[i..]
    ensures Head(u).steps > n ==> Encode(src, i, n, 0) == []
    ensures Head(u).steps <= n ==> Encode(src, i, n, 0) == Form(u) + Encode(src, i + Head(u).units, n - Head(u).steps, 0)
  {
    assert u[0] == src[i] && (n > 1 ==> u[1] == src[i + 1]);
    if High(src[i]) { assert Encode(src, i, n, 0) == Encode(src, i + 1, n - 1, src[i]); }
  }

  lemma {:induction false} WrittenHead(u: seq<u16>, n: nat, t: seq<u8>)
    requires u != [] && Head(u).steps <= n && Utf8Text(t, Written(u[Head(u).units..], n - Head(u).steps))
    ensures Utf8Text(Form(u) + t, Written(u, n))
  {
    Utf8Cons(Form(u), t, Head(u).code, Written(u[Head(u).units..], n - Head(u).steps));
  }

  lemma {:induction false} WrittenNone(u: seq<u16>, n: nat)
    requires u == [] || Head(u).steps > n
    ensures Utf8Text([], Written(u, n))
  {
  }

  /** Whatever the text, what is written is the UTF-8 form of the characters that the steps are enough for. */
  lemma {:induction false} EncodeWrites(src: seq<u16>, i: nat, n: nat, u: seq<u16>)
    requires i + n <= |src| && u == src[i..]
    ensures Utf8Text(Encode(src, i, n, 0), Written(u, n))
    decreases n
  {
    if n == 0 || Head(u).steps > n {
      if n > 0 { EncodeHead(src, i, n, u); }
      WrittenNone(u, n);
    } else {
      var k, m := i + Head(u).units, n - Head(u).steps;
      EncodeWrites(src, k, m, u[Head(u).units..]);
      WrittenHead(u, n, Encode(src, k, m, 0));
      EncodeHead(src, i, n, u);
    }
  }

  // ------------------------------------------------------------- when all is written

  function Steps(u: seq<u16>): nat
    decreases |u|
  {
    if u == [] then 0 else Head(u).steps + Steps(u[Head(u).units..])
  }

  lemma {:induction false} WrittenAll(u: seq<u16>, n: nat)
    ensures Written(u, n) == Characters(u) <==> Steps(u) <= n
    decreases |u|
  {
    if u != [] {
      var p := Head(u);
      if p.steps <= n {
        WrittenAll(u[p.units..], n - p.steps);
        assert Written(u, n)[1..] == Written(u[p.units..], n - p.steps) && Characters(u)[1..] == Characters(u[p.units..]);
      }
    }
  }

  /** Every high surrogate has its partner. */
  ghost predicate HighsPaired(u: seq<u16>) {
    forall i :: 0 <= i < |u| && High(u[i]) ==> i + 1 < |u| && Low(u[i + 1])
  }

  lemma {:induction false} HighsPairedTail(u: seq<u16>)
    requires u != []
    ensures HighsPaired(u) <==> (High(u[0]) ==> |u| > 1 && Low(u[1])) && HighsPaired(u[Head(u).units..])
  {
    var k := Head(u).units;
    var v := u[k..];
    assert forall i :: 0 <= i < |v| ==> v[i] == u[k + i];
    if HighsPaired(u) {
      forall i | 0 <= i < |v| && High(v[i]) ensures i + 1 < |v| && Low(v[i + 1]) { assert High(u[k + i]); }
    }
    if HighsPaired(v) && (High(u[0]) ==> |u| > 1 && Low(u[1])) {
      forall i | 0 <= i < |u| && High(u[i]) ensures i + 1 < |u| && Low(u[i + 1]) {
        if i >= k { assert u[i] == v[i - k] && High(v[i - k]); }
      }
    }
  }

  lemma {:induction false} StepsPaired(u: seq<u16>)
    ensures Steps(u) >= |u| && (Steps(u) == |u| <==> HighsPaired(u))
    decreases |u|
  {
    if u != [] {
      StepsPaired(u[Head(u).units..]);
      HighsPairedTail(u);
    }
  }

  /** The whole text is written if and only if every high surrogate has its partner. */
  lemma {:induction false} WholeIffPaired(u: seq<u16>)
    ensures Written(u, |u|) == Characters(u) <==> HighsPaired(u)
  {
    WrittenAll(u, |u|);
    StepsPaired(u);
  }

  /** A high surrogate without its partner costs the last unit of the text. */
  lemma {:induction false} LastUnitLost()
    ensures Characters([0xD800, 97]) == [Question, 97] && Encode([0xD800, 97], 0, 2, 0) == [Question]
  {
    var u: seq<u16> := [0xD800, 97];
    assert u[1..] == [97] && u[1..][1..] == [];
    assert Encode(u, 0, 2, 0) == Encode(u, 1, 1, 0xD800) == [Question] + Encode(u, 1, 0, 0);
  }

  lemma {:induction false} HeadCharacter(u: seq<u16>, c: nat)
    requires |u| >= Width(c) && Utf16(u[..Width(c)], c)
    ensures Head(u) == Piece(c, Width(c), Width(c))
  {
    assert u[..Width(c)][0] == u[0] && (Width(c) == 2 ==> u[..2][1] == u[1]);
  }

  /** Those of well-formed text are its characters. */
  lemma {:induction false} TextCharacters(u: seq<u16>, cs: seq<nat>)
    requires Utf16Text(u, cs)
    ensures Characters(u) == cs
    decreases |u|
  {
    if cs != [] {
      HeadCharacter(u, cs[0]);
      TextCharacters(u[Width(cs[0])..], cs[1..]);
    }
  }

  lemma {:induction false} TextWritten(u: seq<u16>, n: nat, cs: seq<nat>)
    requires n <= |u| && Utf16Text(u[..n], cs)
    ensures Written(u, n) == cs
    decreases |u|
  {
    if cs != [] {
      var w := Width(cs[0]);
      assert u[..n][..w] == u[..w] && u[..n][w..] == u[w..][..n - w];
      HeadCharacter(u, cs[0]);
      TextWritten(u[w..], n - w, cs[1..]);
    }
  }

  /** For well-formed text the converter writes its UTF-8 form. */
  lemma {:induction false} EncodeIsUtf8(src: seq<u16>, n: nat, cs: seq<nat>)
    requires n <= |src| && Utf16Text(src[..n], cs)
    ensures Utf8Text(Encode(src, 0, n, 0), cs)
  {
    EncodeWrites(src, 0, n, src);
    TextWritten(src, n, cs);
  }

  // ------------------------------------------------------------- what the decoder writes

  lemma {:induction false} ExtendRun(a: seq<u8>, b: seq<u8>, n: nat, rest: seq<u8>)
    requires Chain(a) && Chain(a + b) && |b| <= n
    ensures Extend(Payload(a), n, b + rest) == Extend(Payload(a + b), n - |b|, rest)
    decreases |b|
  {
    if b == [] {
      assert a + b == a && b + rest == rest;
    } else {
      var x, t := b[0], b[1..];
      assert (a + b)[|a|] == x;
      assert x / 64 == 2 && x % 64 == x - 0x80;
      PayloadNext(a, x);
      assert a + b == a + [x] + t && (b + rest)[1..] == t + rest;
      ExtendRun(a + [x], t, n - 1, rest);
    }
  }

  lemma {:induction false} LeadingIs(b: u8)
    requires Leads(b)
    ensures Leading(b) == (Payload([b]), Follow(b))
  {
  }

  lemma {:induction false} DecodeRun(b: seq<u8>, rest: seq<u8>)
    requires Chain(b) && |b| <= Follow(b[0]) + 1
    ensures var r := Extend(Payload(b), Follow(b[0]) + 1 - |b|, rest); r.0 < 0x20_0000 && Decode(b + rest) == Units(r.0) + Decode(r.1)
  {
    LeadingIs(b[0]);
    assert b == [b[0]] + b[1..];
    assert (b + rest)[1..] == b[1..] + rest;
    ExtendRun([b[0]], b[1..], Follow(b[0]), rest);
    ExtendBound(Leading(b[0]).0, Leading(b[0]).1, b[1..] + rest);
  }

  /** A leading byte with the bytes that belong to it, whether the form is the shortest or not. */
  lemma {:induction false} DecodeFull(b: seq<u8>, rest: seq<u8>)
    requires Chain(b) && |b| == Follow(b[0]) + 1
    ensures Payload(b) < 0x20_0000 && Decode(b + rest) == Units(Payload(b)) + Decode(rest)
  {
    DecodeRun(b, rest);
  }

  /** The text ends before these are complete: the bits read so far are written. */
  lemma {:induction false} DecodeCut(b: seq<u8>)
    requires Chain(b) && |b| <= Follow(b[0])
    ensures Payload(b) < 0x20_0000 && Decode(b) == Units(Payload(b))
  {
    DecodeRun(b, []);
    assert b + [] == b;
  }

  lemma {:induction false} ExtendBroken(code: nat, ext: nat, t: seq<u8>)
    requires ext > 0 && t != [] && !Continues(t[0])
    ensures Extend(code, ext, t) == (Question, t[1..])
  {
  }

  /** Another byte comes before they are complete: a question mark stands for all of them, that byte included. */
  lemma {:induction false} DecodeBroken(b: seq<u8>, t: seq<u8>)
    requires Chain(b) && |b| <= Follow(b[0]) && t != [] && !Continues(t[0])
    ensures Decode(b + t) == [Question] + Decode(t[1..])
  {
    DecodeRun(b, t);
    ExtendBroken(Payload(b), Follow(b[0]) + 1 - |b|, t);
  }

  /** From an illegal byte on there are only question marks. */
  lemma {:induction false} DecodeStuck(s: seq<u8>)
    requires s != [] ==> s[0] > 0x7F && !Leads(s[0])
    ensures |Decode(s)| == |s| && forall i :: 0 <= i < |s| ==> Decode(s)[i] == Question
    decreases |s|
  {
    if s != [] { DecodeStuck(s[..|s| - 1]); }
  }

  // ------------------------------------------------------------- the round trip

  /** The text up to its first zero. */
  function Closed(cs: seq<nat>): seq<nat> {
    if cs == [] then [] else if cs[0] == 0 then [0] else [cs[0]] + Closed(cs[1..])
  }

  lemma {:induction false} ClosedAll(cs: seq<nat>)
    requires 0 !in cs
    ensures Closed(cs) == cs
  {
    if cs != [] { ClosedAll(cs[1..]); }
  }

  lemma {:induction false} Utf16Cons(u: seq<u16>, v: seq<u16>, c: nat, cs: seq<nat>)
    requires Utf16(u, c) && Utf16Text(v, cs)
    ensures Utf16Text(u + v, [c] + cs)
  {
    assert (u + v)[..Width(c)] == u && (u + v)[Width(c)..] == v && ([c] + cs)[1..] == cs;
  }

  lemma {:induction false} DecodeFirst(b: seq<u8>, c: nat)
    requires c != 0 && |b| >= Size(c) && Utf8(b[..Size(c)], c)
    ensures c < 0x20_0000 && Decode(b) == Units(c) + Decode(b[Size(c)..])
  {
    var n := Size(c);
    assert b == b[..n] + b[n..] && b[..n][0] == b[0];
    if c >= 0x80 { DecodeFull(b[..n], b[n..]); }
  }

  /** From the UTF-8 form of a text the decoder writes its UTF-16 form, up to the first zero. */
  lemma {:induction false} DecodeIsUtf16(b: seq<u8>, cs: seq<nat>)
    requires Utf8Text(b, cs)
    ensures Utf16Text(Decode(b), Closed(cs))
    decreases |cs|
  {
    if cs != [] {
      var n := Size(cs[0]);
      if cs[0] == 0 {
        assert b[..1][0] == b[0] && [0][1..] == [];
      } else {
        DecodeFirst(b, cs[0]);
        DecodeIsUtf16(b[n..], cs[1..]);
        Utf16Cons(Units(cs[0]), Decode(b[n..]), cs[0], Closed(cs[1..]));
      }
    }
  }

  /** Between the forms of a text without zeros the converters translate both ways. */
  lemma {:induction false} RoundTrip(b: seq<u8>, u: seq<u16>, cs: seq<nat>)
    requires Utf8Text(b, cs) && Utf16Text(u, cs) && 0 !in cs
    ensures Decode(b) == u && Encode(u, 0, |u|, 0) == b
  {
    DecodeIsUtf16(b, cs);
    ClosedAll(cs);
    Utf16TextUnique(Decode(b), u, cs);
    assert u[..|u|] == u;
    EncodeIsUtf8(u, |u|, cs);
    Utf8TextUnique(Encode(u, 0, |u|, 0), b, cs);
  }

  /** There and back again. */
  lemma {:induction false} ThereAndBack(u: seq<u16>, cs: seq<nat>)
    requires Utf16Text(u, cs) && 0 !in cs
    ensures Decode(Encode(u, 0, |u|, 0)) == u
  {
    assert u[..|u|] == u;
    EncodeIsUtf8(u, |u|, cs);
    RoundTrip(Encode(u, 0, |u|, 0), u, cs);
  }
}
