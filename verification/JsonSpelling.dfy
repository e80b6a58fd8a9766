/** The JSON layer against text written out: what the bytes, escapes and literals of src/json.cpp are, without the
    tables that the scanner and the encoder share. */
module JsonSpelling {
  import opened Bytes
  import opened Errors
  import opened JsonStrings
  import opened JsonNumbers
  import opened JsonGrammar
  import opened WireText
  import Utf8
  import RingIndex

  // ------------------------------------------------------------- punctuation

  lemma PunctuationSpelledOut()
    ensures [QUOTE] == Ascii("\"") && [BACKSLASH] == Ascii("\\") && [COMMA] == Ascii(",") && [COLON] == Ascii(":")
    ensures [OPEN_BRACE] == Ascii("{") && [CLOSE_BRACE] == Ascii("}")
    ensures [OPEN_BRACKET] == Ascii("[") && [CLOSE_BRACKET] == Ascii("]")
    ensures [MINUS] == Ascii("-") && [PLUS] == Ascii("+") && [POINT] == Ascii(".") && [ZERO] == Ascii("0")
    ensures [LOWER_E] == Ascii("e")
    ensures forall b: byte :: IsSpace(b) <==> b as char in " \t\n\r"
    ensures forall b: byte :: IsDigit(b) <==> '0' <= b as char <= '9'
  {
  }

  lemma WordsSpelledOut()
    ensures TRUE == Ascii("true") && FALSE == Ascii("false") && NULL == Ascii("null")
    ensures YES == Ascii("yes") && NO == Ascii("no")
    ensures ACCEPTED == Ascii("accepted") && REJECTED == Ascii("rejected")
    ensures ValidValue(True) && PrintValue(True) == Ascii("true") && PrintValue(False) == Ascii("false")
    ensures PrintValue(Null) == Ascii("null")
  {
  }

  // ------------------------------------------------------------ hexadecimal text

  /** A hexadecimal digit in either case. */
  function HexChar(d: int, upper: bool): (c: char)
    requires 0 <= d < 16
  {
    if d < 10 then '0' + d as char else (if upper then 'A' else 'a') + (d - 10) as char
  }

  /** Four hexadecimal digits, each in the case asked for. */
  function HexText(n: int, upper: seq<bool>): (h: string)
    requires 0 <= n < 0x10000 && |upper| == 4
    ensures |h| == 4
  {
    [HexChar(n / 4096, upper[0]), HexChar(n / 256 % 16, upper[1]), HexChar(n / 16 % 16, upper[2]), HexChar(n % 16, upper[3])]
  }

  lemma HexCharReads(d: int, upper: bool)
    requires 0 <= d < 16
    ensures HexChar(d, upper) < 128 as char
    ensures var b := HexChar(d, upper) as int;
      IsHex(b) && HexDigit(b) == d
  {
  }

  lemma HexTextReads(n: int, upper: seq<bool>)
    requires 0 <= n < 0x10000 && |upper| == 4
    ensures IsHex4(Ascii(HexText(n, upper))) && Hex4(Ascii(HexText(n, upper))) == n
  {
    hide HexChar, HexDigit, IsHex;
    HexCharReads(n / 4096, upper[0]);
    HexCharReads(n / 256 % 16, upper[1]);
    HexCharReads(n / 16 % 16, upper[2]);
    HexCharReads(n % 16, upper[3]);
    assert n / 16 / 16 == n / 256 && n / 16 / 16 / 16 == n / 4096;
  }

  /** `\u` and four digits. */
  function UnicodeEscape(n: int, upper: seq<bool>): (s: string)
    requires 0 <= n < 0x10000 && |upper| == 4
  {
    "\\u" + HexText(n, upper)
  }

  lemma EscapeText(n: int, upper: seq<bool>)
    requires 0 <= n < 0x10000 && |upper| == 4
    ensures Ascii(UnicodeEscape(n, upper)) == [BACKSLASH, 0x75] + Ascii(HexText(n, upper))
  {
    hide HexText;
  }

  /** A `\u` escape of a character of the basic plane stands for that character. */
  lemma EscapedCharacter(c: int, upper: seq<bool>, rest: bytes)
    requires Utf8.Scalar(c) && c < 0x10000 && |upper| == 4
    ensures ScanChars(Ascii(UnicodeEscape(c, upper)) + rest) == Prepend(Utf8.Encode(c), ScanChars(rest))
  {
    hide ScanChars, Utf8.Encode, HexText, UnicodeEscape, Hex4, IsHex4;
    var h := Ascii(HexText(c, upper));
    HexTextReads(c, upper);
    EscapeText(c, upper);
    ScanHex(h, rest);
  }

  /** Two `\u` escapes of the surrogates of a character beyond it stand for that one character. */
  lemma EscapedPairCharacter(c: int, high: seq<bool>, low: seq<bool>, rest: bytes)
    requires 0x10000 <= c <= 0x10FFFF && |high| == 4 && |low| == 4
    ensures var v := c - 0x10000;
      var text := UnicodeEscape(0xD800 + v / 1024, high) + UnicodeEscape(0xDC00 + v % 1024, low);
      ScanChars(Ascii(text) + rest) == Prepend(Utf8.Encode(c), ScanChars(rest))
  {
    hide ScanChars, Utf8.Encode, HexText, UnicodeEscape, Hex4, IsHex4;
    var v := c - 0x10000;
    var a, b := 0xD800 + v / 1024, 0xDC00 + v % 1024;
    var hi, lo := Ascii(HexText(a, high)), Ascii(HexText(b, low));
    HexTextReads(a, high);
    HexTextReads(b, low);
    EscapeText(a, high);
    EscapeText(b, low);
    AsciiConcat(UnicodeEscape(a, high), UnicodeEscape(b, low));
    ScanPair(hi, lo, rest);
    assert PairValue(hi, lo) == c;
    PairText(hi, lo);
  }

  lemma PairText(hi: bytes, lo: bytes)
    ensures [BACKSLASH, 0x75] + hi + [BACKSLASH, 0x75] + lo == ([BACKSLASH, 0x75] + hi) + ([BACKSLASH, 0x75] + lo)
  {
  }

  lemma AsciiConcat(a: string, b: string)
    ensures Ascii(a + b) == Ascii(a) + Ascii(b)
  {
  }

  /** The whole literal, through `scan_string`: an emoji in two escapes. */
  lemma EscapedEmoji(rest: bytes)
    ensures ScanString(Ascii("\"\\ud83d\\uDE00\"") + rest) == Ok([0xF0, 0x9F, 0x98, 0x80], rest)
  {
    hide ScanChars, HexText, UnicodeEscape;
    var low, mixed := [false, false, false, false], [true, true, false, false];
    var a, b := UnicodeEscape(0xD83D, low), UnicodeEscape(0xDE00, mixed);
    EscapedPairCharacter(0x1F600, low, mixed, Ascii("\"") + rest);
    EmojiText();
    ScanQuote(rest);
    AsciiConcat("\"" + (a + b), "\"");
    AsciiConcat("\"", a + b);
    assert Ascii("\"") == [QUOTE];
    var t := Ascii(a + b) + ([QUOTE] + rest);
    assert Ascii("\"\\ud83d\\uDE00\"") + rest == [QUOTE] + t;
    assert SkipSpace([QUOTE] + t) == [QUOTE] + t && ([QUOTE] + t)[1..] == t;
    assert [0xF0, 0x9F, 0x98, 0x80] + [] == [0xF0, 0x9F, 0x98, 0x80];
  }

  lemma EmojiText()
    ensures "\"" + (UnicodeEscape(0xD83D, [false, false, false, false]) + UnicodeEscape(0xDE00, [true, true, false, false]))
      + "\"" == "\"\\ud83d\\uDE00\""
  {
    assert HexText(0xD83D, [false, false, false, false]) == "d83d";
    assert HexText(0xDE00, [true, true, false, false]) == "DE00";
  }

  // --------------------------------------------------------------- short escapes

  /** The two-character escapes of section 7 of RFC 8259. */
  lemma ShortEscapes(rest: bytes)
    ensures ScanChars(Ascii("\\\"") + rest) == Prepend(Ascii("\""), ScanChars(rest))
    ensures ScanChars(Ascii("\\\\") + rest) == Prepend(Ascii("\\"), ScanChars(rest))
    ensures ScanChars(Ascii("\\/") + rest) == Prepend(Ascii("/"), ScanChars(rest))
    ensures ScanChars(Ascii("\\b") + rest) == Prepend([8], ScanChars(rest))
    ensures ScanChars(Ascii("\\f") + rest) == Prepend([12], ScanChars(rest))
    ensures ScanChars(Ascii("\\n") + rest) == Prepend(Ascii("\n"), ScanChars(rest))
    ensures ScanChars(Ascii("\\r") + rest) == Prepend(Ascii("\r"), ScanChars(rest))
    ensures ScanChars(Ascii("\\t") + rest) == Prepend(Ascii("\t"), ScanChars(rest))
  {
    hide ScanChars, Prepend;
    assert ['\\', '"'] == "\\\"" && ['\\', '\\'] == "\\\\" && ['\\', '/'] == "\\/" && ['\\', 'b'] == "\\b";
    assert ['\\', 'f'] == "\\f" && ['\\', 'n'] == "\\n" && ['\\', 'r'] == "\\r" && ['\\', 't'] == "\\t";
    assert Ascii("\"") == [0x22] && Ascii("\\") == [0x5C] && Ascii("/") == [0x2F];
    assert Ascii("\n") == [0x0A] && Ascii("\r") == [0x0D] && Ascii("\t") == [0x09];
    ShortEscape('"', Ascii("\"")[0], rest);
    ShortEscape('\\', Ascii("\\")[0], rest);
    ShortEscape('/', Ascii("/")[0], rest);
    ShortEscape('b', 8, rest);
    ShortEscape('f', 12, rest);
    ShortEscape('n', Ascii("\n")[0], rest);
    ShortEscape('r', Ascii("\r")[0], rest);
    ShortEscape('t', Ascii("\t")[0], rest);
  }

  lemma ShortEscape(letter: char, b: byte, rest: bytes)
    requires letter < 128 as char && ShortByte(letter as int) == Some(b)
    ensures ScanChars(Ascii(['\\', letter]) + rest) == Prepend([b], ScanChars(rest))
  {
    hide ScanChars, ShortByte;
    assert Ascii(['\\', letter]) == [BACKSLASH, letter as int];
    ScanShort(letter as int, rest);
  }

  /** What the encoder writes for each byte. */
  lemma EscapesSpelledOut(b: byte)
    ensures EscapeByte(b) ==
      if b == '"' as int then Ascii("\\\"")
      else if b == '\\' as int then Ascii("\\\\")
      else if b == 8 then Ascii("\\b")
      else if b == 9 then Ascii("\\t")
      else if b == 10 then Ascii("\\n")
      else if b == 12 then Ascii("\\f")
      else if b == 13 then Ascii("\\r")
      else if b < 32 then Ascii(UnicodeEscape(b, [false, false, false, false]))
      else [b]
  {
  }

  // ------------------------------------------------------------------------ UTF-8

  /** Byte strings in dictionary order. */
  predicate Precedes(s: bytes, t: bytes) {
    exists i :: 0 <= i < |s| && i < |t| && s[..i] == t[..i] && s[i] < t[i]
  }

  /** The characters of the octet table, in dictionary order, are the scalar values in order. Since each scalar has
      one character and each character one scalar, this leaves no choice in the encoding. */
  lemma EncodeKeepsOrder(c: int, d: int)
    requires Utf8.Scalar(c) && Utf8.Scalar(d) && c < d
    ensures Precedes(Utf8.Encode(c), Utf8.Encode(d))
  {
    var s, t := Utf8.Encode(c), Utf8.Encode(d);
    Utf8.EncodeIsOctets(c);
    Utf8.EncodeIsOctets(d);
    var i := if s[0] != t[0] then 0 else if s[1] != t[1] then 1 else if s[2] != t[2] then 2 else 3;
    assert s[..i] == t[..i] && s[i] < t[i];
  }

  // ----------------------------------------------------------------------- numbers

  function TenTo(i: nat): (p: nat)
    ensures p >= 1
  {
    if i == 0 then 1 else 10 * TenTo(i - 1)
  }

  /** The text of an integer is decimal: a sign exactly when it is negative, then the digits of its size. */
  lemma {:induction false} NatDigit(n: nat, i: nat)
    requires i < |NatText(n)|
    ensures NatText(n)[|NatText(n)| - 1 - i] as char == '0' + (n / TenTo(i) % 10) as char
    ensures n / TenTo(i) >= 0
  {
    if n >= 10 && i > 0 {
      var t := NatText(n / 10);
      NatDigit(n / 10, i - 1);
      assert NatText(n)[|NatText(n)| - 1 - i] == t[|t| - 1 - (i - 1)];
      DivideTwice(n, TenTo(i - 1));
    }
  }

  lemma DivideTwice(n: nat, p: nat)
    requires p >= 1
    ensures n / 10 / p == n / (10 * p)
  {
    var q, r := n / 10 / p, n / 10 % p;
    var d := n % 10;
    assert n == 10 * (p * q + r) + d;
    assert n == (10 * p) * q + (10 * r + d);
    QuotientIs(n, 10 * p, q, 10 * r + d);
  }

  lemma QuotientIs(n: nat, m: nat, q: nat, r: nat)
    requires r < m && n == m * q + r
    ensures n / m == q
  {
    assert m * (n / m - q) == r - n % m;
    RingIndex.SmallMultiple(m, n / m - q);
  }

  lemma {:induction false} NatDigits(n: nat)
    ensures TenTo(|NatText(n)| - 1) <= n || n == 0
    ensures n < TenTo(|NatText(n)|)
  {
    if n >= 10 {
      NatDigits(n / 10);
    }
  }

  /** `append_int`, digit by digit. */
  lemma IntSpelledOut(v: int)
    ensures var s, n := PrintNumber(IntNumber(v)), if v < 0 then -v else v;
      && (v < 0 <==> s[0] as char == '-') && (v >= 0 ==> s == NatText(n)) && (v < 0 ==> s == Ascii("-") + NatText(n))
      && n < TenTo(|NatText(n)|) && (n > 0 ==> TenTo(|NatText(n)| - 1) <= n)
  {
    hide NatText, TenTo;
    NatDigits(if v < 0 then -v else v);
  }

  /** Where `format_double` changes its layout, for the powers of ten on either side: scientific from 16 and below -5. */
  lemma ScientificSpelledOut()
    ensures PrintNumber(Layout(Finite(false, Ascii("1"), 16))) == Ascii("1e+16")
    ensures PrintNumber(Layout(Finite(false, Ascii("1"), -6))) == Ascii("1e-6")
  {
    assert Ascii("1") == [0x31] && NatText(1) == [0x31];
    assert NatText(16) == [0x31, 0x36] && NatText(6) == [0x36];
  }

  lemma ScientificFractionSpelledOut()
    ensures PrintNumber(Layout(Finite(true, Ascii("15"), 16))) == Ascii("-1.5e+16")
  {
    assert Ascii("15") == [0x31, 0x35] && NatText(1) == [0x31] && NatText(16) == [0x31, 0x36];
  }

  lemma FixedSpelledOut()
    ensures PrintNumber(Layout(Finite(false, Ascii("1"), -5))) == Ascii("0.00001")
    ensures PrintNumber(Layout(Finite(false, Ascii("0"), 0))) == Ascii("0.0")
  {
    hide NatText;
    assert Ascii("1") == [0x31] && Ascii("0") == [0x30] && Zeros(4) == [0x30, 0x30, 0x30, 0x30];
  }

  lemma LargestFixedSpelledOut()
    ensures PrintNumber(Layout(Finite(false, Ascii("1"), 15))) == Ascii("1000000000000000.0")
  {
    assert Ascii("1") == [0x31];
  }

  /** The messages that repeat part of the frame. */
  lemma RecordMessagesSpelledOut(text: bytes)
    ensures Message(UnexpectedField(text)) == Ascii("unexpected field: ") + text
    ensures Message(MissingRequired(text)) == Ascii("missing required field: ") + text
  {
    hide Ascii, StringWording, LiteralWording, StructureWording;
  }

  lemma WordMessagesSpelledOut(text: bytes)
    ensures Message(BadDirection(text)) == Ascii("direction must be yes or no, got ") + text
    ensures Message(BadStatus(text)) == Ascii("status must be accepted or rejected, got ") + text
  {
    hide Ascii, StringWording, LiteralWording, StructureWording;
  }

  lemma NumberMessagesSpelledOut(text: bytes)
    ensures Message(NotAnInteger(text)) == Ascii("expected an integer, got ") + text
    ensures Message(IntegerRange(text)) == Ascii("integer out of range: ") + text
    ensures Message(NumberRange(text)) == Ascii("number out of range: ") + text
  {
    hide Ascii, StringWording, LiteralWording, StructureWording;
  }
}
