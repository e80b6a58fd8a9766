/** Bytes, ASCII literals and the result types shared by every module. */
module Bytes {
  type byte = x: int | 0 <= x < 256
  type bytes = seq<byte>

  datatype Option<+T> = None | Some(value: T)

  const QUOTE: byte := 0x22
  const BACKSLASH: byte := 0x5C
  const COMMA: byte := 0x2C
  const COLON: byte := 0x3A
  const MINUS: byte := 0x2D
  const PLUS: byte := 0x2B
  const POINT: byte := 0x2E
  const ZERO: byte := 0x30
  const LOWER_E: byte := 0x65
  const OPEN_BRACE: byte := 0x7B
  const CLOSE_BRACE: byte := 0x7D
  const OPEN_BRACKET: byte := 0x5B
  const CLOSE_BRACKET: byte := 0x5D

  /** The bytes of a literal. Every literal of the program is 7-bit ASCII. */
  function Ascii(text: string): (b: bytes)
    ensures |b| == |text|
    ensures forall i :: 0 <= i < |b| ==> b[i] < 128
  {
    seq(|text|, i requires 0 <= i < |text| => (text[i] as int) % 128)
  }

  predicate IsDigit(b: byte) {
    0x30 <= b <= 0x39
  }

  predicate IsSpace(b: byte) {
    b == 0x20 || b == 0x09 || b == 0x0A || b == 0x0D
  }

  predicate AllSpace(s: bytes) {
    forall i :: 0 <= i < |s| ==> IsSpace(s[i])
  }

  predicate AllDigits(s: bytes) {
    forall i :: 0 <= i < |s| ==> IsDigit(s[i])
  }

  /** `skip_whitespace`, on the text that is still to be read. */
  function SkipSpace(s: bytes): (r: bytes)
    ensures |r| <= |s|
    ensures r != [] ==> !IsSpace(r[0])
  {
    if s != [] && IsSpace(s[0]) then SkipSpace(s[1..]) else s
  }

  lemma {:induction false} SkipSpaceShape(s: bytes)
    ensures SkipSpace(s) == s[|s| - |SkipSpace(s)|..] && AllSpace(s[..|s| - |SkipSpace(s)|])
  {
    if s != [] && IsSpace(s[0]) {
      SkipSpaceShape(s[1..]);
      var n := |s| - |SkipSpace(s)|;
      assert s[..n] == [s[0]] + s[1..][..n - 1];
    }
  }

  lemma {:induction false} SkipSpaceOver(w: bytes, s: bytes)
    requires AllSpace(w)
    requires s != [] ==> !IsSpace(s[0])
    ensures SkipSpace(w + s) == s
  {
    if w == [] {
      assert w + s == s;
    } else {
      assert (w + s)[1..] == w[1..] + s;
      SkipSpaceOver(w[1..], s);
    }
  }

  /** The whitespace that `SkipSpace` steps over. */
  function Blank(s: bytes): (w: bytes)
    ensures AllSpace(w) && w + SkipSpace(s) == s
  {
    SkipSpaceShape(s);
    s[..|s| - |SkipSpace(s)|]
  }

  lemma SkipTwice(s: bytes)
    ensures SkipSpace(SkipSpace(s)) == SkipSpace(s) && Blank(SkipSpace(s)) == []
  {
  }

  lemma Assoc(a: bytes, b: bytes, c: bytes)
    ensures a + b + c == a + (b + c)
  {
  }

  lemma Front(b: byte, p: bytes, s: bytes)
    ensures [b] + p + s == [b] + (p + s) && ([b] + p + s)[1..] == p + s && ([b] + p + s)[0] == b
  {
  }

  lemma HeadTail(s: bytes)
    requires s != []
    ensures s == [s[0]] + s[1..]
  {
  }

  lemma Regroup(a: bytes, b: bytes, c: bytes, d: bytes)
    ensures a + (b + c + d) == a + b + c + d
  {
  }
}
