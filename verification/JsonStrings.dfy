/** JSON strings: the grammar of section 7 of RFC 8259, the scanner and the encoder of src/json.cpp. */
module JsonStrings {
  import opened Bytes
  import Utf8
  import opened Errors

  // ------------------------------------------------------------------ grammar

  /** One `char` of section 7 of RFC 8259; an escaped surrogate pair is one character. */
  datatype Piece = Plain(c: int) | Short(letter: byte) | Hex(h: bytes) | Pair(hi: bytes, lo: bytes)

  predicate IsHex(b: byte) {
    IsDigit(b) || 0x61 <= b <= 0x66 || 0x41 <= b <= 0x46
  }

  function HexDigit(b: byte): (d: int)
    requires IsHex(b)
    ensures 0 <= d < 16
  {
    if IsDigit(b) then b - 0x30 else if 0x61 <= b then b - 0x61 + 10 else b - 0x41 + 10
  }

  predicate IsHex4(h: bytes) {
    |h| == 4 && IsHex(h[0]) && IsHex(h[1]) && IsHex(h[2]) && IsHex(h[3])
  }

  function Hex4(h: bytes): (v: int)
    requires IsHex4(h)
    ensures 0 <= v < 0x10000
  {
    ((HexDigit(h[0]) * 16 + HexDigit(h[1])) * 16 + HexDigit(h[2])) * 16 + HexDigit(h[3])
  }

  /** The byte a two-character escape stands for. */
  function ShortByte(letter: byte): (r: Option<byte>)
    ensures r.Some? ==> r.value < 128
  {
    if letter == QUOTE || letter == BACKSLASH || letter == 0x2F then Some(letter)
    else if letter == 0x62 then Some(0x08)
    else if letter == 0x66 then Some(0x0C)
    else if letter == 0x6E then Some(0x0A)
    else if letter == 0x72 then Some(0x0D)
    else if letter == 0x74 then Some(0x09)
    else None
  }

  predicate IsHigh(v: int) { 0xD800 <= v <= 0xDBFF }
  predicate IsLow(v: int) { 0xDC00 <= v <= 0xDFFF }

  predicate ValidPiece(p: Piece) {
    match p
    case Plain(c) => Utf8.Scalar(c) && 0x20 <= c && c != QUOTE && c != BACKSLASH
    case Short(letter) => ShortByte(letter).Some?
    case Hex(h) => IsHex4(h) && Utf8.Scalar(Hex4(h))
    case Pair(hi, lo) => IsHex4(hi) && IsHex4(lo) && IsHigh(Hex4(hi)) && IsLow(Hex4(lo))
  }

  predicate ValidPieces(ps: seq<Piece>) {
    forall i :: 0 <= i < |ps| ==> ValidPiece(ps[i])
  }

  function PrintPiece(p: Piece): (s: bytes)
    requires ValidPiece(p)
    ensures s != []
  {
    match p
    case Plain(c) => Utf8.Encode(c)
    case Short(letter) => [BACKSLASH, letter]
    case Hex(h) => [BACKSLASH, 0x75] + h
    case Pair(hi, lo) => [BACKSLASH, 0x75] + hi + [BACKSLASH, 0x75] + lo
  }

  function PairValue(hi: bytes, lo: bytes): (c: int)
    requires IsHex4(hi) && IsHex4(lo) && IsHigh(Hex4(hi)) && IsLow(Hex4(lo))
    ensures 0x10000 <= c <= 0x10FFFF
  {
    0x10000 + (Hex4(hi) - 0xD800) * 1024 + (Hex4(lo) - 0xDC00)
  }

  /** The bytes a piece stands for: the UTF-8 form of one character. */
  function DenotePiece(p: Piece): (s: bytes)
    requires ValidPiece(p)
    ensures Utf8.Octets(s)
  {
    match p
    case Plain(c) => Utf8.EncodeIsOctets(c); Utf8.Encode(c)
    case Short(letter) => [ShortByte(letter).value]
    case Hex(h) => Utf8.EncodeIsOctets(Hex4(h)); Utf8.Encode(Hex4(h))
    case Pair(hi, lo) => Utf8.EncodeIsOctets(PairValue(hi, lo)); Utf8.Encode(PairValue(hi, lo))
  }

  function PrintPieces(ps: seq<Piece>): (s: bytes)
    requires ValidPieces(ps)
  {
    if ps == [] then [] else PrintPiece(ps[0]) + PrintPieces(ps[1..])
  }

  function DenotePieces(ps: seq<Piece>): (s: bytes)
    requires ValidPieces(ps)
    ensures Utf8.WellFormed(s)
  {
    if ps == [] then [] else
      Utf8.PrependChar(DenotePiece(ps[0]), DenotePieces(ps[1..]));
      DenotePiece(ps[0]) + DenotePieces(ps[1..])
  }

  /** A string literal with its quotes. */
  function PrintString(ps: seq<Piece>): (s: bytes)
    requires ValidPieces(ps)
    ensures |s| >= 2 && s[0] == QUOTE
  {
    [QUOTE] + PrintPieces(ps) + [QUOTE]
  }

  // ------------------------------------------------------------------ scanner

  /** `validate_utf8_run`: the length of the character at the front of `s`, or nothing. */
  function Utf8Run(s: bytes): (r: Option<nat>)
    requires s != [] && s[0] >= 0x80
    ensures r.Some? <==> Utf8.StartsWithChar(s)
    ensures r.Some? ==> r.value == Utf8.Width(s[0])
  {
    var lead := s[0];
    var low := if lead == 0xE0 then 0xA0 else if lead == 0xF0 then 0x90 else 0x80;
    var high := if lead == 0xED then 0x9F else if lead == 0xF4 then 0x8F else 0xBF;
    var length: nat :=
      if 0xC2 <= lead <= 0xDF then 2 else if 0xE0 <= lead <= 0xEF then 3 else if 0xF0 <= lead <= 0xF4 then 4 else 0;
    if length == 0 || length > |s| || !(low <= s[1] <= high) then None
    else if length >= 3 && !Utf8.Tail(s[2]) then None
    else if length >= 4 && !Utf8.Tail(s[3]) then None
    else Some(length)
  }

  /** `append_code_point`, on the text after `\u`. */
  function ScanCodePoint(s: bytes): (r: Scan<bytes>)
    ensures r.Ok? ==> |r.rest| < |s|
    ensures r.Err? ==> Fixed(r.reason)
  {
    if |s| < 4 || !IsHex4(s[..4]) then Err(InvalidHexEscape) else
    var first := Hex4(s[..4]);
    if IsLow(first) then Err(NoHighSurrogate)
    else if IsHigh(first) then
      if |s| < 6 || s[4] != BACKSLASH || s[5] != 0x75 then Err(NoLowSurrogate)
      else if |s| < 10 || !IsHex4(s[6..10]) || !IsLow(Hex4(s[6..10])) then Err(NoLowSurrogate)
      else
        var c := PairValue(s[..4], s[6..10]);
        Ok(Utf8.Encode(c), s[10..])
    else
      Ok(Utf8.Encode(first), s[4..])
  }

  /** `append_escape`, on the text after the backslash. */
  function ScanEscape(s: bytes): (r: Scan<bytes>)
    ensures r.Ok? ==> |r.rest| < |s|
    ensures r.Err? ==> Fixed(r.reason)
  {
    if s == [] then Err(UnterminatedEscape)
    else if ShortByte(s[0]).Some? then Ok([ShortByte(s[0]).value], s[1..])
    else if s[0] == 0x75 then ScanCodePoint(s[1..])
    else Err(InvalidEscape(s[0]))
  }

  function Prepend(front: bytes, r: Scan<bytes>): (p: Scan<bytes>) {
    match r
    case Ok(v, rest) => Ok(front + v, rest)
    case Err(reason) => Err(reason)
  }

  /** `scan_string` after the opening quote, one character at a time. */
  function ScanChars(s: bytes): (r: Scan<bytes>)
    ensures r.Ok? ==> |r.rest| < |s|
    ensures r.Err? ==> Fixed(r.reason)
    decreases |s|
  {
    if s == [] then Err(UnterminatedString)
    else if s[0] == QUOTE then Ok([], s[1..])
    else if s[0] == BACKSLASH then
      var e := ScanEscape(s[1..]);
      if e.Err? then e else Prepend(e.value, ScanChars(e.rest))
    else if s[0] < 0x20 then Err(ControlCharacter)
    else if s[0] < 0x80 then
      Prepend([s[0]], ScanChars(s[1..]))
    else
      var n := Utf8Run(s);
      if n.None? then Err(NotUtf8) else Prepend(s[..n.value], ScanChars(s[n.value..]))
  }

  /** `scan_string`: whitespace, then a string literal. Whatever it accepts is UTF-8. */
  function ScanString(s: bytes): (r: Scan<bytes>)
    ensures r.Ok? ==> |r.rest| < |s| && Utf8.WellFormed(r.value)
    ensures r.Err? ==> Fixed(r.reason)
  {
    var t := SkipSpace(s);
    if t == [] then Err(StringAtEnd)
    else if t[0] != QUOTE then Err(NotAString)
    else ScannedIsUtf8(t[1..]); ScanChars(t[1..])
  }

  // ------------------------------------------------- the scanner is the grammar

  lemma {:induction false} ScanPlain(c: int, u: bytes)
    requires ValidPiece(Plain(c))
    ensures ScanChars(Utf8.Encode(c) + u) == Prepend(Utf8.Encode(c), ScanChars(u))
  {
    Utf8.EncodeIsOctets(c);
    Utf8.CharAtFront(Utf8.Encode(c), u);
  }

  lemma EscapedShort(letter: byte, u: bytes)
    requires ValidPiece(Short(letter))
    ensures ScanEscape([letter] + u) == Ok(DenotePiece(Short(letter)), u)
  {
    assert ([letter] + u)[1..] == u;
  }

  lemma EscapedHex(h: bytes, u: bytes)
    requires ValidPiece(Hex(h))
    ensures ScanEscape([0x75] + h + u) == Ok(DenotePiece(Hex(h)), u)
  {
    var t := h + u;
    assert ([0x75] + h + u)[1..] == t && t[..4] == h && t[4..] == u;
  }

  lemma EscapedPair(hi: bytes, lo: bytes, u: bytes)
    requires ValidPiece(Pair(hi, lo))
    ensures ScanEscape([0x75] + hi + [BACKSLASH, 0x75] + lo + u) == Ok(DenotePiece(Pair(hi, lo)), u)
  {
    var t := hi + [BACKSLASH, 0x75] + lo + u;
    assert ([0x75] + hi + [BACKSLASH, 0x75] + lo + u)[1..] == t;
    assert t[..4] == hi && t[6..10] == lo && t[10..] == u && t[4] == BACKSLASH && t[5] == 0x75;
  }

  lemma {:induction false} ScanAfterBackslash(e: bytes, v: bytes, u: bytes)
    requires ScanEscape(e) == Ok(v, u)
    ensures ScanChars([BACKSLASH] + e) == Prepend(v, ScanChars(u))
  {
    assert ([BACKSLASH] + e)[1..] == e;
  }

  lemma {:induction false} ScanShort(letter: byte, u: bytes)
    requires ValidPiece(Short(letter))
    ensures ScanChars([BACKSLASH, letter] + u) == Prepend(DenotePiece(Short(letter)), ScanChars(u))
  {
    hide ScanChars, ScanEscape, DenotePiece;
    EscapedShort(letter, u);
    ScanAfterBackslash([letter] + u, DenotePiece(Short(letter)), u);
    assert [BACKSLASH, letter] + u == [BACKSLASH] + ([letter] + u);
  }

  lemma {:induction false} ScanHex(h: bytes, u: bytes)
    requires ValidPiece(Hex(h))
    ensures ScanChars([BACKSLASH, 0x75] + h + u) == Prepend(DenotePiece(Hex(h)), ScanChars(u))
  {
    hide ScanChars, ScanEscape, DenotePiece;
    EscapedHex(h, u);
    ScanAfterBackslash([0x75] + h + u, DenotePiece(Hex(h)), u);
    assert [BACKSLASH, 0x75] + h + u == [BACKSLASH] + ([0x75] + h + u);
  }

  lemma {:induction false} ScanPair(hi: bytes, lo: bytes, u: bytes)
    requires ValidPiece(Pair(hi, lo))
    ensures ScanChars(PrintPiece(Pair(hi, lo)) + u) == Prepend(DenotePiece(Pair(hi, lo)), ScanChars(u))
  {
    hide ScanChars, ScanEscape, DenotePiece;
    EscapedPair(hi, lo, u);
    ScanAfterBackslash([0x75] + hi + [BACKSLASH, 0x75] + lo + u, DenotePiece(Pair(hi, lo)), u);
    assert PrintPiece(Pair(hi, lo)) + u == [BACKSLASH] + ([0x75] + hi + [BACKSLASH, 0x75] + lo + u);
  }

  lemma {:induction false} ScanPiece(p: Piece, u: bytes)
    requires ValidPiece(p)
    ensures ScanChars(PrintPiece(p) + u) == Prepend(DenotePiece(p), ScanChars(u))
  {
    hide ScanChars, Utf8.Encode, ShortByte;
    match p
    case Plain(c) => ScanPlain(c, u);
    case Short(letter) => ScanShort(letter, u);
    case Hex(h) => ScanHex(h, u);
    case Pair(hi, lo) => ScanPair(hi, lo, u);
  }

  lemma ScanQuote(rest: bytes)
    ensures ScanChars([QUOTE] + rest) == Ok([], rest)
  {
    assert ([QUOTE] + rest)[1..] == rest;
  }

  /** Every literal of the grammar is accepted, whatever follows it, as the text it denotes. */
  lemma {:induction false} ScanPrinted(ps: seq<Piece>, rest: bytes)
    requires ValidPieces(ps)
    ensures ScanChars(PrintPieces(ps) + [QUOTE] + rest) == Ok(DenotePieces(ps), rest)
  {
    hide ScanChars, PrintPiece, DenotePiece, Utf8.WellFormed;
    if ps == [] {
      assert PrintPieces(ps) + [QUOTE] + rest == [QUOTE] + rest;
      ScanQuote(rest);
    } else {
      var u := PrintPieces(ps[1..]) + [QUOTE] + rest;
      ScanPrinted(ps[1..], rest);
      ScanPiece(ps[0], u);
      assert PrintPieces(ps) + [QUOTE] + rest == PrintPiece(ps[0]) + u;
    }
  }

  lemma EscapePiece(s: bytes) returns (p: Piece)
    requires ScanEscape(s).Ok?
    ensures ValidPiece(p) && DenotePiece(p) == ScanEscape(s).value
    ensures [BACKSLASH] + s == PrintPiece(p) + ScanEscape(s).rest
  {
    if ShortByte(s[0]).Some? {
      p := Short(s[0]);
      assert [BACKSLASH] + s == PrintPiece(p) + s[1..];
    } else {
      var t := s[1..];
      if IsHigh(Hex4(t[..4])) {
        p := Pair(t[..4], t[6..10]);
        assert [BACKSLASH] + s == PrintPiece(p) + t[10..];
      } else {
        p := Hex(t[..4]);
        assert [BACKSLASH] + s == PrintPiece(p) + t[4..];
      }
    }
  }

  lemma {:induction false} FirstPiece(s: bytes, v: bytes, rest: bytes) returns (p: Piece, u: bytes, w: bytes)
    requires ScanChars(s) == Ok(v, rest) && s[0] != QUOTE
    ensures ValidPiece(p) && s == PrintPiece(p) + u && |u| < |s|
    ensures v == DenotePiece(p) + w && ScanChars(u) == Ok(w, rest)
  {
    if s[0] == BACKSLASH {
      u := ScanEscape(s[1..]).rest;
      p := EscapePiece(s[1..]);
      assert s == [BACKSLASH] + s[1..];
    } else {
      var n := if s[0] < 0x80 then 1 else Utf8Run(s).value;
      assert n == Utf8.Width(s[0]);
      p, u := Plain(Utf8.Decode(s[..n])), s[n..];
      assert s == s[..n] + u;
    }
    w := ScanChars(u).value;
  }

  lemma {:induction false} PrependPiece(p: Piece, qs: seq<Piece>)
    requires ValidPiece(p) && ValidPieces(qs)
    ensures ValidPieces([p] + qs)
    ensures PrintPieces([p] + qs) == PrintPiece(p) + PrintPieces(qs)
    ensures DenotePieces([p] + qs) == DenotePiece(p) + DenotePieces(qs)
  {
    assert ([p] + qs)[1..] == qs;
  }

  /** Every accepted text is a literal of the grammar, denoting the accepted value. */
  lemma {:induction false} ScanSound(s: bytes, v: bytes, rest: bytes) returns (ps: seq<Piece>)
    requires ScanChars(s) == Ok(v, rest)
    ensures ValidPieces(ps) && DenotePieces(ps) == v
    ensures s == PrintPieces(ps) + [QUOTE] + rest
    decreases |s|
  {
    if s[0] == QUOTE {
      ps := [];
      assert s == [QUOTE] + rest;
    } else {
      var p, u, w := FirstPiece(s, v, rest);
      var qs := ScanSound(u, w, rest);
      ps := [p] + qs;
      PrependPiece(p, qs);
      Regroup(PrintPiece(p), PrintPieces(qs), [QUOTE], rest);
    }
  }

  lemma ScannedIsUtf8(s: bytes)
    ensures ScanChars(s).Ok? ==> Utf8.WellFormed(ScanChars(s).value)
  {
    if ScanChars(s).Ok? {
      var ps := ScanSound(s, ScanChars(s).value, ScanChars(s).rest);
    }
  }

  /** `scan_string` accepts exactly a padded literal of the grammar. */
  lemma ScanStringSound(s: bytes, v: bytes, rest: bytes) returns (ps: seq<Piece>)
    requires ScanString(s) == Ok(v, rest)
    ensures ValidPieces(ps) && DenotePieces(ps) == v
    ensures s == Blank(s) + PrintString(ps) + rest
  {
    hide ScanChars, PrintPieces, DenotePieces, Utf8.WellFormed;
    var t := SkipSpace(s);
    ps := ScanSound(t[1..], v, rest);
    HeadTail(t);
    QuoteRegroup(Blank(s), PrintPieces(ps), rest);
  }

  lemma {:induction false} ScanStringSkips(w: bytes, t: bytes)
    requires AllSpace(w)
    ensures ScanString(w + ([QUOTE] + t)) == ScanChars(t)
  {
    SkipSpaceOver(w, [QUOTE] + t);
    assert ([QUOTE] + t)[1..] == t;
  }

  lemma QuoteRegroup(w: bytes, text: bytes, rest: bytes)
    ensures w + ([QUOTE] + text + [QUOTE]) + rest == w + ([QUOTE] + (text + [QUOTE] + rest))
  {
  }

  lemma {:induction false} ScanStringComplete(w: bytes, ps: seq<Piece>, rest: bytes)
    requires AllSpace(w) && ValidPieces(ps)
    ensures ScanString(w + PrintString(ps) + rest) == Ok(DenotePieces(ps), rest)
  {
    var text := PrintPieces(ps);
    ScanPrinted(ps, rest);
    QuoteRegroup(w, text, rest);
    ScanStringSkips(w, text + [QUOTE] + rest);
  }

  // ------------------------------------------------------------------ encoder

  /** The bytes `append_string` writes for one byte of text. */
  function EscapeByte(b: byte): (s: bytes)
    ensures s != [] && (b >= 0x80 ==> s == [b]) && (b < 0x80 ==> s[0] < 0x80)
  {
    if b == QUOTE then [BACKSLASH, QUOTE]
    else if b == BACKSLASH then [BACKSLASH, BACKSLASH]
    else if b == 0x08 then [BACKSLASH, 0x62]
    else if b == 0x0C then [BACKSLASH, 0x66]
    else if b == 0x0A then [BACKSLASH, 0x6E]
    else if b == 0x0D then [BACKSLASH, 0x72]
    else if b == 0x09 then [BACKSLASH, 0x74]
    else if b < 0x20 then [BACKSLASH, 0x75, ZERO, ZERO, LowHex(b / 16), LowHex(b % 16)]
    else [b]
  }

  function EscapeAll(s: bytes): (r: bytes) {
    if s == [] then [] else EscapeByte(s[0]) + EscapeAll(s[1..])
  }

  /** `append_string`: the literal written for any byte string, UTF-8 or not. */
  function StringText(s: bytes): (r: bytes)
    ensures |r| >= 2 && r[0] == QUOTE
  {
    [QUOTE] + EscapeAll(s) + [QUOTE]
  }

  /** The scanner's view of what the encoder wrote for `s`, followed by `rest`. */
  function Quoted(s: bytes, rest: bytes): (r: bytes)
    ensures r != [] && ((s == [] || s[0] < 0x80) ==> r[0] < 0x80)
  {
    EscapeAll(s) + [QUOTE] + rest
  }

  lemma QuotedHigh(s: bytes, rest: bytes)
    requires s != [] && s[0] >= 0x80
    ensures Quoted(s, rest) == [s[0]] + Quoted(s[1..], rest)
  {
  }

  /** What `Utf8Run` reads: the octets that follow the lead, up to the first ASCII one. */
  predicate SameOctets(s: bytes, q: bytes, k: nat) {
    if k == 0 then true
    else if s == [] || s[0] < 0x80 then q == [] || q[0] < 0x80
    else q != [] && q[0] == s[0] && SameOctets(s[1..], q[1..], k - 1)
  }

  lemma {:induction false} QuotedSameOctets(s: bytes, rest: bytes, k: nat)
    ensures SameOctets(s, Quoted(s, rest), k)
  {
    if k > 0 && s != [] && s[0] >= 0x80 {
      QuotedHigh(s, rest);
      QuotedSameOctets(s[1..], rest, k - 1);
      assert Quoted(s, rest)[1..] == Quoted(s[1..], rest);
    }
  }

  lemma RunReadsOctets(s: bytes, q: bytes)
    requires s != [] && s[0] >= 0x80 && SameOctets(s, q, 4)
    ensures Utf8Run(q) == Utf8Run(s)
  {
    var s1, q1 := s[1..], q[1..];
    assert SameOctets(s1, q1, 3);
    if s1 != [] && s1[0] >= 0x80 {
      var s2, q2 := s1[1..], q1[1..];
      assert SameOctets(s2, q2, 2);
      if s2 != [] && s2[0] >= 0x80 {
        assert SameOctets(s2[1..], q2[1..], 1);
      }
    }
  }

  /** Escaping neither completes nor breaks a multi-byte character. */
  lemma RunSurvivesEscaping(s: bytes, rest: bytes)
    requires s != [] && s[0] >= 0x80
    ensures Utf8Run(Quoted(s, rest)) == Utf8Run(s)
  {
    QuotedSameOctets(s, rest, 4);
    RunReadsOctets(s, Quoted(s, rest));
  }

  lemma {:induction false} EscapeAllConcat(s: bytes, t: bytes)
    ensures EscapeAll(s + t) == EscapeAll(s) + EscapeAll(t)
  {
    if s == [] {
      assert s + t == t;
    } else {
      assert (s + t)[1..] == s[1..] + t;
      EscapeAllConcat(s[1..], t);
    }
  }

  lemma EscapeRaw(s: bytes)
    requires forall i :: 0 <= i < |s| ==> EscapeByte(s[i]) == [s[i]]
    ensures EscapeAll(s) == s
  {
    if s != [] {
      EscapeRaw(s[1..]);
    }
  }

  /** One escaped ASCII byte reads back as that byte. */
  lemma ScanEscaped(b: byte, u: bytes)
    requires b < 0x80
    ensures ScanChars(EscapeByte(b) + u) == Prepend([b], ScanChars(u))
  {
    if EscapeByte(b) == [b] {
      ScanPiece(Plain(b), u);
    } else if |EscapeByte(b)| == 2 {
      ScanPiece(Short(EscapeByte(b)[1]), u);
    } else {
      var h := [ZERO, ZERO, LowHex(b / 16), LowHex(b % 16)];
      assert Hex4(h) == b;
      assert EscapeByte(b) == PrintPiece(Hex(h));
      ScanPiece(Hex(h), u);
    }
  }

  lemma {:induction false} QuotedEmpty(rest: bytes)
    ensures ScanChars(Quoted([], rest)) == Ok([], rest)
  {
    assert Quoted([], rest) == [QUOTE] + rest;
  }

  lemma {:induction false} QuotedAscii(s: bytes, rest: bytes)
    requires s != [] && s[0] < 0x80
    ensures ScanChars(Quoted(s, rest)) == Prepend([s[0]], ScanChars(Quoted(s[1..], rest)))
    ensures Utf8.WellFormed(s) <==> Utf8.WellFormed(s[1..])
  {
    assert Quoted(s, rest) == EscapeByte(s[0]) + Quoted(s[1..], rest);
    ScanEscaped(s[0], Quoted(s[1..], rest));
    assert s == [s[0]] + s[1..] && Utf8.Octets(s[..1]);
  }

  lemma {:induction false} QuotedChar(s: bytes, rest: bytes)
    requires s != [] && s[0] >= 0x80
    ensures Utf8Run(s).None? ==> ScanChars(Quoted(s, rest)).Err?
    ensures Utf8Run(s).Some? ==> var n := Utf8Run(s).value;
      ScanChars(Quoted(s, rest)) == Prepend(s[..n], ScanChars(Quoted(s[n..], rest)))
  {
    var q := Quoted(s, rest);
    RunSurvivesEscaping(s, rest);
    QuotedHigh(s, rest);
    if Utf8Run(s).Some? {
      var n := Utf8Run(s).value;
      QuotedSplit(s, n, rest);
      assert q[..n] == s[..n] && q[n..] == Quoted(s[n..], rest);
    }
  }

  lemma {:induction false} QuotedSplit(s: bytes, n: nat, rest: bytes)
    requires n <= |s| && forall i :: 0 <= i < n ==> s[i] >= 0x80
    ensures Quoted(s, rest) == s[..n] + Quoted(s[n..], rest)
  {
    assert s == s[..n] + s[n..];
    EscapeAllConcat(s[..n], s[n..]);
    EscapeRaw(s[..n]);
  }

  /** For every byte string: the scanner accepts what the encoder wrote exactly when the string is
      UTF-8, and then returns it and stops just after the closing quote. */
  lemma {:induction false} EncodedStringScans(s: bytes, rest: bytes)
    ensures ScanChars(Quoted(s, rest)).Ok? <==> Utf8.WellFormed(s)
    ensures Utf8.WellFormed(s) ==> ScanChars(Quoted(s, rest)) == Ok(s, rest)
    decreases |s|
  {
    hide ScanChars, Quoted, Utf8Run, Utf8.Octets;
    if s == [] {
      QuotedEmpty(rest);
    } else if s[0] < 0x80 {
      EncodedStringScans(s[1..], rest);
      QuotedAscii(s, rest);
      assert s == [s[0]] + s[1..];
    } else {
      QuotedChar(s, rest);
      if Utf8Run(s).Some? {
        var n := Utf8Run(s).value;
        EncodedStringScans(s[n..], rest);
        assert s == s[..n] + s[n..];
      }
    }
  }

  lemma {:induction false} EncodedStringRoundTrip(s: bytes, w: bytes, rest: bytes)
    requires AllSpace(w)
    ensures ScanString(w + StringText(s) + rest).Ok? <==> Utf8.WellFormed(s)
    ensures Utf8.WellFormed(s) ==> ScanString(w + StringText(s) + rest) == Ok(s, rest)
  {
    EncodedStringScans(s, rest);
    QuoteRegroup(w, EscapeAll(s), rest);
    ScanStringSkips(w, Quoted(s, rest));
  }

  // ------------------------------------------------------- canonical is shortest

  lemma {:induction false} PieceNotShorter(p: Piece)
    requires ValidPiece(p)
    ensures |EscapeAll(DenotePiece(p))| <= |PrintPiece(p)|
  {
    var d := DenotePiece(p);
    if |d| == 1 {
      assert d[1..] == [];
      assert EscapeAll(d) == EscapeByte(d[0]) + EscapeAll([]);
    } else {
      EscapeRaw(d);
    }
  }

  /** Writing a decoded string again never takes more bytes than the literal it was read from. */
  lemma {:induction false} ReencodingNotLonger(ps: seq<Piece>)
    requires ValidPieces(ps)
    ensures |StringText(DenotePieces(ps))| <= |PrintString(ps)|
  {
    EscapedNotLonger(ps);
  }

  lemma {:induction false} EscapedNotLonger(ps: seq<Piece>)
    requires ValidPieces(ps)
    ensures |EscapeAll(DenotePieces(ps))| <= |PrintPieces(ps)|
  {
    if ps != [] {
      EscapedNotLonger(ps[1..]);
      PieceNotShorter(ps[0]);
      EscapeAllConcat(DenotePiece(ps[0]), DenotePieces(ps[1..]));
    }
  }
}
