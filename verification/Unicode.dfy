/** UTF-8 and UTF-16 as section 3 of RFC 3629 and section 2 of RFC 2781 define them. */
module Unicode {
  type u8 = x: int | 0 <= x < 0x100
  type u16 = x: int | 0 <= x < 0x1_0000

  predicate High(c: int) { 0xD800 <= c <= 0xDBFF }
  predicate Low(c: int) { 0xDC00 <= c <= 0xDFFF }

  /** A character number: surrogates are none. */
  predicate Scalar(c: nat) {
    c < 0xD800 || 0xE000 <= c < 0x11_0000
  }

  // ------------------------------------------------------------- UTF-8

  predicate Continues(b: u8) { 0x80 <= b <= 0xBF }

  /** Leading bytes of sequences of two, three and four bytes. */
  predicate Leads(b: u8) { 0xC0 <= b <= 0xF7 }

  function Follow(b: u8): (n: nat)
    requires Leads(b)
  {
    if b <= 0xDF then 1 else if b <= 0xEF then 2 else 3
  }

  /** A leading byte and bytes behind it. */
  predicate Chain(b: seq<u8>) {
    b != [] && Leads(b[0]) && forall i :: 0 < i < |b| ==> Continues(b[i])
  }

  /** The bits of a leading byte behind its marker, and six from each byte that follows. */
  function Payload(b: seq<u8>): (c: nat)
    requires Chain(b)
  {
    if |b| == 1 then b[0] - (if b[0] <= 0xDF then 0xC0 else if b[0] <= 0xEF then 0xE0 else 0xF0)
    else
      var last: int := b[|b| - 1];
      assert Continues(b[|b| - 1]);
      Payload(b[..|b| - 1]) * 64 + (last - 0x80)
  }

  /** The shortest form is the only one. */
  function Size(c: nat): nat {
    if c < 0x80 then 1 else if c < 0x800 then 2 else if c < 0x1_0000 then 3 else 4
  }

  predicate Utf8(b: seq<u8>, c: nat) {
    && Scalar(c) && |b| == Size(c)
    && if c < 0x80 then b == [c]
       else Chain(b) && Follow(b[0]) == |b| - 1 && Payload(b) == c
  }

  predicate Utf8Text(b: seq<u8>, cs: seq<nat>) {
    if cs == [] then b == []
    else |b| >= Size(cs[0]) && Utf8(b[..Size(cs[0])], cs[0]) && Utf8Text(b[Size(cs[0])..], cs[1..])
  }

  lemma {:induction false} PayloadUnique(a: seq<u8>, b: seq<u8>)
    requires Chain(a) && Chain(b) && |a| == |b| && Follow(a[0]) == Follow(b[0]) && Payload(a) == Payload(b)
    ensures a == b
    decreases |a|
  {
    var n := |a| - 1;
    if n > 0 {
      PayloadUnique(a[..n], b[..n]);
      assert a == a[..n] + [a[n]] && b == b[..n] + [b[n]];
    }
  }

  lemma {:induction false} Utf8Unique(a: seq<u8>, b: seq<u8>, c: nat)
    requires Utf8(a, c) && Utf8(b, c)
    ensures a == b
  {
    if c >= 0x80 { PayloadUnique(a, b); }
  }

  /** Every text has one form in UTF-8. */
  lemma {:induction false} Utf8TextUnique(a: seq<u8>, b: seq<u8>, cs: seq<nat>)
    requires Utf8Text(a, cs) && Utf8Text(b, cs)
    ensures a == b
    decreases |cs|
  {
    if cs != [] {
      var n := Size(cs[0]);
      Utf8Unique(a[..n], b[..n], cs[0]);
      Utf8TextUnique(a[n..], b[n..], cs[1..]);
      assert a == a[..n] + a[n..] && b == b[..n] + b[n..];
    }
  }

  // ------------------------------------------------------------- UTF-16

  predicate Pair(high: int, low: int, c: nat) {
    High(high) && Low(low) && c == 0x1_0000 + (high - 0xD800) * 0x400 + (low - 0xDC00)
  }

  predicate Utf16(u: seq<u16>, c: nat) {
    Scalar(c) && if c < 0x1_0000 then u == [c] else |u| == 2 && Pair(u[0], u[1], c)
  }

  function Width(c: nat): nat {
    if c < 0x1_0000 then 1 else 2
  }

  predicate Utf16Text(u: seq<u16>, cs: seq<nat>) {
    if cs == [] then u == []
    else |u| >= Width(cs[0]) && Utf16(u[..Width(cs[0])], cs[0]) && Utf16Text(u[Width(cs[0])..], cs[1..])
  }

  lemma {:induction false} Utf16TextUnique(a: seq<u16>, b: seq<u16>, cs: seq<nat>)
    requires Utf16Text(a, cs) && Utf16Text(b, cs)
    ensures a == b
    decreases |cs|
  {
    if cs != [] {
      var n := Width(cs[0]);
      assert a[..n] == b[..n];
      Utf16TextUnique(a[n..], b[n..], cs[1..]);
      assert a == a[..n] + a[n..] && b == b[..n] + b[n..];
    }
  }
}
