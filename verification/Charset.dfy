/** The loops of lib/charset.c, with the bit operations that they use. */
module Charset {
  import opened Powers
  import opened Unicode
  import opened Utf

  // ------------------------------------------------------------- bit operations on bytes

  /** Setting the marker bits above the payload of a byte. */
  method Mark(payload: nat, marker: nat, ghost k: nat, ghost m: nat) returns (b: nat)
    requires payload < Pow2(k) && marker == m * Pow2(k)
    ensures b == payload + marker
  {
    BitOrDisjoint(payload, m, k);
    b := BitOr(payload, marker);
  }

  /** `(x & 0x3F) | 0x80`. */
  method Six(x: nat) returns (b: u8)
    ensures b == Continuation(x)
  {
    assert Pow2(6) == 64;
    AndMask(x, 6);
    var r := Mark(BitAnd(x, 0x3F), 0x80, 6, 2);
    b := r;
  }

  /** Bytes for a code above 0xFFFF. */
  method PutFour(dest: seq<u8>, code: nat) returns (r: seq<u8>)
    requires code < 0x11_0000
    ensures r == dest + FourBytes(code)
  {
    assert Pow2(3) == 8;
    var b0 := Mark(code / 0x4_0000, 0xF0, 3, 30);
    var b1 := Six(code / 0x1000);
    var b2 := Six(code / 64);
    var b3 := Six(code);
    r := dest + [b0, b1, b2, b3];
  }

  method PutOne(dest: seq<u8>, code: u16) returns (r: seq<u8>)
    requires !High(code)
    ensures r == dest + Bytes(code)
  {
    assert Pow2(5) == 32 && Pow2(4) == 16;
    if code <= 0x7F {
      r := dest + [code];
    } else if code <= 0x7FF {
      var b0 := Mark(code / 64, 0xC0, 5, 6);
      var b1 := Six(code);
      r := dest + [b0, b1];
    } else if 0xDC00 <= code <= 0xDFFF {
      r := dest + [Question];
    } else {
      var b0 := Mark(code / 0x1000, 0xE0, 4, 14);
      var b1 := Six(code / 64);
      var b2 := Six(code);
      r := dest + [b0, b1, b2];
    }
  }

  // ------------------------------------------------------------- utf16_to_utf8

  lemma {:induction false} Assoc<T>(a: seq<T>, b: seq<T>, c: seq<T>)
    ensures a + b + c == a + (b + c)
  {
  }

  /** One step of the loop, at a unit that is read and perhaps given back. */
  method EncodeStep(src: seq<u16>, i: nat, ghost n: nat, high: u16, dest: seq<u8>) returns (j: nat, high': u16, dest': seq<u8>)
    requires 0 < n && i + n <= |src| && (high == 0 || High(high))
    ensures i <= j <= i + 1 && (high' == 0 || High(high'))
    ensures dest' + Encode(src, j, n - 1, high') == dest + Encode(src, i, n, high)
  {
    var code := src[i];
    j, high', dest' := i + 1, 0, dest;
    if high != 0 {
      if 0xDC00 <= code <= 0xDFFF {
        dest' := PutFour(dest, (high - 0xD800) * 0x400 + (code - 0xDC00) + 0x1_0000);
        Assoc(dest, FourBytes(Paired(high, code)), Encode(src, j, n - 1, 0));
      } else {
        dest' := dest + [Question];
        j := i;
        Assoc(dest, [Question], Encode(src, j, n - 1, 0));
      }
    } else if 0xD800 <= code <= 0xDBFF {
      high' := code;
    } else {
      dest' := PutOne(dest, code);
      Assoc(dest, Bytes(code), Encode(src, j, n - 1, 0));
    }
  }

  lemma {:induction false} EncodeStandard(src: seq<u16>, n: nat, b: seq<u8>)
    requires n <= |src| && b == Encode(src, 0, n, 0)
    ensures Utf8Text(b, Written(src, n)) && forall cs :: Utf16Text(src[..n], cs) ==> Utf8Text(b, cs)
  {
    EncodeWrites(src, 0, n, src);
    forall cs | Utf16Text(src[..n], cs) ensures Utf8Text(b, cs) { EncodeIsUtf8(src, n, cs); }
  }

  method Utf16ToUtf8(src: seq<u16>, size: nat) returns (dest: seq<u8>)
    requires size <= |src|
    ensures dest == Encode(src, 0, size, 0) && Utf8Text(dest, Written(src, size))
    ensures forall cs :: Utf16Text(src[..size], cs) ==> Utf8Text(dest, cs)
  {
    var high: u16, i, n := 0, 0, size;
    dest := [];
    while n > 0
      invariant 0 <= n && 0 <= i && i + n <= |src| && (high == 0 || High(high))
      invariant dest + Encode(src, i, n, high) == Encode(src, 0, size, 0)
    {
      i, high, dest := EncodeStep(src, i, n, high, dest);
      n := n - 1;
    }
    assert dest == Encode(src, 0, size, 0);
    EncodeStandard(src, size, dest);
  }

  // ------------------------------------------------------------- utf8_to_utf16

  lemma {:induction false} AndEven(a: nat, m: nat)
    ensures BitAnd(a, 2 * m) == 2 * BitAnd(a / 2, m)
  {
  }

  lemma {:induction false} TopBits(b: nat)
    ensures BitAnd(b, 0xC0) == 64 * (b / 64 % 4)
  {
    var b1, b2, b3, b4, b5, b6 := b / 2, b / 4, b / 8, b / 16, b / 32, b / 64;
    assert b1 / 2 == b2 && b2 / 2 == b3 && b3 / 2 == b4 && b4 / 2 == b5 && b5 / 2 == b6;
    AndEven(b, 96);
    AndEven(b1, 48);
    AndEven(b2, 24);
    AndEven(b3, 12);
    AndEven(b4, 6);
    AndEven(b5, 3);
    LowTwo(b6);
  }

  lemma {:induction false} LowTwo(b: nat)
    ensures BitAnd(b, 3) == b % 4
  {
    assert Pow2(2) == 4;
    AndMask(b, 2);
  }

  /** The two highest bits of a byte are 10. */
  method IsContinuation(b: u8) returns (r: bool)
    ensures r <==> b / 64 == 2
  {
    TopBits(b);
    assert b / 64 % 4 == b / 64;
    r := BitAnd(b, 0xC0) == 0x80;
  }

  /** The continuation bytes: `code` takes six bits from each, up to `ext` of them. */
  method Continue(s: seq<u8>, i0: nat, n0: nat, code0: nat, ext0: nat) returns (i: nat, n: nat, code: nat)
    requires i0 + n0 <= |s|
    ensures i0 <= i && i + n == i0 + n0 && (code, s[i..i + n]) == Extend(code0, ext0, s[i0..i0 + n0])
  {
    i, n, code := i0, n0, code0;
    var ext: nat := ext0;
    while ext > 0 && n > 0
      invariant i0 <= i && i + n == i0 + n0 && ext <= ext0
      invariant Extend(code, ext, s[i..i + n]) == Extend(code0, ext0, s[i0..i0 + n0])
      decreases ext
    {
      assert s[i..i + n][1..] == s[i + 1..i + n] && s[i..i + n][0] == s[i];
      var more := IsContinuation(s[i]);
      if !more {
        code, i, n := Question, i + 1, n - 1;
        return;
      }
      code := TakeSix(code, s[i]);
      i, n, ext := i + 1, n - 1, ext - 1;
    }
    assert n == 0 ==> s[i..i + n] == [];
  }

  /** `code <<= 6; code |= b & 0x3f`. */
  method TakeSix(code: nat, b: u8) returns (r: nat)
    ensures r == code * 64 + b % 64
  {
    assert Pow2(6) == 64;
    AndMask(b, 6);
    r := Mark(BitAnd(b, 0x3F), code * 64, 6, code);
  }

  /** `src & mask` for a mask of `k` ones. */
  method Payload(b: u8, mask: nat, ghost k: nat) returns (r: nat)
    requires mask == Pow2(k) - 1
    ensures r == b % Pow2(k)
  {
    AndMask(b, k);
    r := BitAnd(b, mask);
  }

  /** The bits of a leading byte and the number of bytes that follow it. */
  method ReadLeading(b: u8) returns (code: nat, ext: nat)
    requires 0xC0 <= b <= 0xF7
    ensures (code, ext) == Leading(b)
  {
    assert Pow2(5) == 32 && Pow2(4) == 16 && Pow2(3) == 8;
    if b <= 0xDF {
      code := Payload(b, 0x1F, 5);
      ext := 1;
    } else if b <= 0xEF {
      code := Payload(b, 0x0F, 4);
      ext := 2;
    } else {
      code := Payload(b, 0x07, 3);
      ext := 3;
    }
  }

  /** Writes a code as one unit or as a surrogate pair. */
  method PutUnits(dest: seq<u16>, code: nat) returns (r: seq<u16>)
    requires code < 0x20_0000
    ensures r == dest + Units(code)
  {
    if code < 0x1_0000 {
      r := dest + [code];
    } else {
      assert Pow2(10) == 0x400;
      AndMask(code, 10);
      var low := Mark(BitAnd(code, 0x3FF), 0xDC00, 10, 55);
      r := dest + [code / 0x400 + 0xD7C0, low];
    }
  }

  lemma {:induction false} DecodeIs(b: u8, t: seq<u8>, s: seq<u8>, full: nat, rest: seq<u8>)
    requires s == [b] + t && 0xC0 <= b <= 0xF7 && Extend(Leading(b).0, Leading(b).1, t) == (full, rest)
    ensures full < 0x20_0000 && Decode(s) == Units(full) + Decode(rest)
  {
    ExtendBound(Leading(b).0, Leading(b).1, t);
    assert s[1..] == t;
  }

  /** A character of several bytes. */
  method DecodeLong(src: seq<u8>, i: nat, n: nat, dest: seq<u16>) returns (j: nat, m: nat, dest': seq<u16>)
    requires 0 < n && i + n <= |src| && 0xC0 <= src[i] <= 0xF7
    ensures m < n && j + m <= |src|
    ensures dest' + Decode(src[j..j + m]) == dest + Decode(src[i..i + n])
  {
    var code, ext := ReadLeading(src[i]);
    j, m, code := Continue(src, i + 1, n - 1, code, ext);
    assert src[i..i + n] == [src[i]] + src[i + 1..i + 1 + (n - 1)];
    DecodeIs(src[i], src[i + 1..i + 1 + (n - 1)], src[i..i + n], code, src[j..j + m]);
    dest' := PutUnits(dest, code);
    Assoc(dest, Units(code), Decode(src[j..j + m]));
  }

  lemma {:induction false} DecodeShort(b: u8, t: seq<u8>, s: seq<u8>, dest: seq<u16>)
    requires s == [b] + t && b <= 0x7F
    ensures dest + [b] + (if b == 0 then [] else Decode(t)) == dest + Decode(s)
  {
    assert s[1..] == t;
  }

  lemma {:induction false} DecodeIllegal(s: seq<u8>, dest: seq<u16>)
    requires s != [] && s[0] > 0x7F && (s[0] <= 0xBF || s[0] > 0xF7)
    ensures dest + [Question] + Decode(s[..|s| - 1]) == dest + Decode(s)
  {
  }

  /** One character of the input `src[i..i + n]`. */
  method DecodeStep(src: seq<u8>, i: nat, n: nat, dest: seq<u16>) returns (j: nat, m: nat, dest': seq<u16>)
    requires 0 < n && i + n <= |src|
    ensures m < n && j + m <= |src|
    ensures dest' + Decode(src[j..j + m]) == dest + Decode(src[i..i + n])
  {
    var b := src[i];
    if b <= 0x7F {
      j, m, dest' := i + 1, if b == 0 then 0 else n - 1, dest + [b];
      assert src[i..i + n] == [b] + src[i + 1..i + n] && (b == 0 ==> src[j..j + m] == []);
      DecodeShort(b, src[i + 1..i + n], src[i..i + n], dest);
    } else if b <= 0xBF || b > 0xF7 {
      j, m, dest' := i, n - 1, dest + [Question];
      assert src[i..i + n][..n - 1] == src[i..i + n - 1];
      DecodeIllegal(src[i..i + n], dest);
    } else {
      j, m, dest' := DecodeLong(src, i, n, dest);
    }
  }

  lemma {:induction false} DecodeStandard(b: seq<u8>, u: seq<u16>)
    requires u == Decode(b)
    ensures forall cs :: Utf8Text(b, cs) ==> Utf16Text(u, Closed(cs))
  {
    forall cs | Utf8Text(b, cs) ensures Utf16Text(u, Closed(cs)) { DecodeIsUtf16(b, cs); }
  }

  method Utf8ToUtf16(src: seq<u8>, size: nat) returns (dest: seq<u16>)
    requires size <= |src|
    ensures dest == Decode(src[..size])
    ensures forall cs :: Utf8Text(src[..size], cs) ==> Utf16Text(dest, Closed(cs))
  {
    var i, n := 0, size;
    dest := [];
    while n > 0
      invariant 0 <= i && 0 <= n && i + n <= |src| && dest + Decode(src[i..i + n]) == Decode(src[..size])
    {
      i, n, dest := DecodeStep(src, i, n, dest);
    }
    assert src[i..i + n] == [];
    assert dest == Decode(src[..size]);
    DecodeStandard(src[..size], dest);
  }
}
