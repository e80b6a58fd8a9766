/** UTF-8: the encoder of src/json.cpp against the octet table of section 4 of RFC 3629. */
module Utf8 {
  import opened Bytes

  /** A Unicode scalar value: a code point that is not a surrogate. */
  predicate Scalar(c: int) {
    0 <= c < 0xD800 || 0xE000 <= c <= 0x10FFFF
  }

  /** `append_utf8`. Shifts are divisions, and each `|` joins disjoint bits, so it is a sum. */
  function Encode(c: int): (r: bytes)
    requires Scalar(c)
    ensures 1 <= |r| <= 4
  {
    if c < 0x80 then [c]
    else if c < 0x800 then [0xC0 + c / 64, 0x80 + c % 64]
    else if c < 0x10000 then [0xE0 + c / 4096, 0x80 + c / 64 % 64, 0x80 + c % 64]
    else [0xF0 + c / 262144, 0x80 + c / 4096 % 64, 0x80 + c / 64 % 64, 0x80 + c % 64]
  }

  predicate Tail(b: byte) {
    0x80 <= b <= 0xBF
  }

  /** UTF8-char of section 4 of RFC 3629: exactly one character. */
  predicate Octets(s: bytes) {
    || (|s| == 1 && s[0] <= 0x7F)
    || (|s| == 2 && 0xC2 <= s[0] <= 0xDF && Tail(s[1]))
    || (|s| == 3 && Tail(s[2]) &&
        (|| (s[0] == 0xE0 && 0xA0 <= s[1] <= 0xBF)
         || (0xE1 <= s[0] <= 0xEC && Tail(s[1]))
         || (s[0] == 0xED && 0x80 <= s[1] <= 0x9F)
         || (0xEE <= s[0] <= 0xEF && Tail(s[1]))))
    || (|s| == 4 && Tail(s[2]) && Tail(s[3]) &&
        (|| (s[0] == 0xF0 && 0x90 <= s[1] <= 0xBF)
         || (0xF1 <= s[0] <= 0xF3 && Tail(s[1]))
         || (s[0] == 0xF4 && 0x80 <= s[1] <= 0x8F)))
  }

  /** The scalar value that one character denotes; `Encode` is its inverse. */
  function Decode(s: bytes): (c: int)
    requires Octets(s)
    ensures Scalar(c) && Encode(c) == s
  {
    if |s| == 1 then s[0]
    else if |s| == 2 then DecodeTwo(s)
    else if |s| == 3 then DecodeThree(s)
    else DecodeFour(s)
  }

  function DecodeTwo(s: bytes): (c: int)
    requires |s| == 2 && Octets(s)
    ensures 0x80 <= c < 0x800 && Encode(c) == s
  {
    (s[0] as int - 0xC0) * 64 + (s[1] as int - 0x80)
  }

  function DecodeThree(s: bytes): (c: int)
    requires |s| == 3 && Octets(s)
    ensures 0x800 <= c < 0x10000 && Scalar(c) && Encode(c) == s
  {
    var c := (s[0] as int - 0xE0) * 4096 + (s[1] as int - 0x80) * 64 + (s[2] as int - 0x80);
    assert c / 64 == (s[0] as int - 0xE0) * 64 + (s[1] as int - 0x80);
    c
  }

  function DecodeFour(s: bytes): (c: int)
    requires |s| == 4 && Octets(s)
    ensures 0x10000 <= c <= 0x10FFFF && Encode(c) == s
  {
    var c := (s[0] as int - 0xF0) * 262144 + (s[1] as int - 0x80) * 4096 + (s[2] as int - 0x80) * 64 + (s[3] as int - 0x80);
    assert c / 64 == (s[0] as int - 0xF0) * 4096 + (s[1] as int - 0x80) * 64 + (s[2] as int - 0x80);
    assert c / 4096 == (s[0] as int - 0xF0) * 64 + (s[1] as int - 0x80);
    c
  }

  /** Every scalar value encodes to one character of the table, and to no other scalar's. */
  lemma EncodeIsOctets(c: int)
    requires Scalar(c)
    ensures Octets(Encode(c)) && Decode(Encode(c)) == c
  {
    if 0x800 <= c < 0x10000 {
      assert c / 4096 == c / 64 / 64;
    } else if 0x10000 <= c {
      assert c / 4096 == c / 64 / 64 && c / 262144 == c / 64 / 64 / 64;
    }
  }

  /** The length of a character, by its first octet; zero when no character starts with it. */
  function Width(lead: byte): (n: nat)
    ensures n <= 4
  {
    if lead <= 0x7F then 1
    else if 0xC2 <= lead <= 0xDF then 2
    else if 0xE0 <= lead <= 0xEF then 3
    else if 0xF0 <= lead <= 0xF4 then 4
    else 0
  }

  /** The character at the front of `s`, by length. */
  predicate StartsWithChar(s: bytes) {
    s != [] && 0 < Width(s[0]) <= |s| && Octets(s[..Width(s[0])])
  }

  /** UTF8-octets of section 4 of RFC 3629: any number of characters. */
  predicate WellFormed(s: bytes) {
    s == [] || (StartsWithChar(s) && WellFormed(s[Width(s[0])..]))
  }

  lemma CharAtFront(c: bytes, s: bytes)
    requires Octets(c)
    ensures StartsWithChar(c + s) && Width((c + s)[0]) == |c| && (c + s)[..|c|] == c && (c + s)[|c|..] == s
  {
    assert (c + s)[..|c|] == c;
  }

  lemma {:induction false} PrependChar(c: bytes, s: bytes)
    requires Octets(c) && WellFormed(s)
    ensures WellFormed(c + s)
  {
    CharAtFront(c, s);
  }

  lemma {:induction false} FirstChar(s: bytes) returns (c: bytes, u: bytes)
    requires WellFormed(s) && s != []
    ensures Octets(c) && WellFormed(u) && s == c + u && |u| < |s|
  {
    c, u := s[..Width(s[0])], s[Width(s[0])..];
  }

  lemma {:induction false} ConcatWellFormed(s: bytes, t: bytes)
    requires WellFormed(s) && WellFormed(t)
    ensures WellFormed(s + t)
    decreases |s|
  {
    hide Octets, WellFormed;
    if s == [] {
      assert s + t == t;
    } else {
      var c, u := FirstChar(s);
      ConcatWellFormed(u, t);
      PrependChar(c, u + t);
      assert c + (u + t) == s + t;
    }
  }

  lemma {:induction false} AsciiWellFormed(s: bytes)
    requires forall i :: 0 <= i < |s| ==> s[i] < 128
    ensures WellFormed(s)
  {
    if s != [] {
      AsciiWellFormed(s[1..]);
      PrependChar([s[0]], s[1..]);
      assert [s[0]] + s[1..] == s;
    }
  }

  function EncodeAll(cs: seq<int>): (r: bytes)
    requires forall i :: 0 <= i < |cs| ==> Scalar(cs[i])
  {
    if cs == [] then [] else Encode(cs[0]) + EncodeAll(cs[1..])
  }

  /** The octet table accepts the encodings of scalar value sequences, and nothing else. */
  lemma {:induction false} WellFormedIffEncoded(s: bytes)
    ensures WellFormed(s) <==> exists cs: seq<int> :: (forall i :: 0 <= i < |cs| ==> Scalar(cs[i])) && EncodeAll(cs) == s
  {
    if WellFormed(s) {
      var cs := ScalarsOf(s);
    }
    forall cs: seq<int> | (forall i :: 0 <= i < |cs| ==> Scalar(cs[i])) && EncodeAll(cs) == s
      ensures WellFormed(s)
    {
      EncodeAllWellFormed(cs);
    }
  }

  lemma {:induction false} ScalarsOf(s: bytes) returns (cs: seq<int>)
    requires WellFormed(s)
    ensures (forall i :: 0 <= i < |cs| ==> Scalar(cs[i])) && EncodeAll(cs) == s
  {
    if s == [] {
      cs := [];
    } else {
      var n := Width(s[0]);
      var rest := ScalarsOf(s[n..]);
      cs := [Decode(s[..n])] + rest;
      assert cs[1..] == rest;
      assert s[..n] + s[n..] == s;
    }
  }

  lemma {:induction false} EncodeAllWellFormed(cs: seq<int>)
    requires forall i :: 0 <= i < |cs| ==> Scalar(cs[i])
    ensures WellFormed(EncodeAll(cs))
  {
    if cs != [] {
      EncodeAllWellFormed(cs[1..]);
      EncodeIsOctets(cs[0]);
      PrependChar(Encode(cs[0]), EncodeAll(cs[1..]));
    }
  }
}
