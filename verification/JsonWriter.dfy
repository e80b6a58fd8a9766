/** The append functions of src/json.cpp over a growing buffer, and `format_double` over a fixed one. */
module JsonWriter {
  import opened Bytes
  import opened Errors
  import opened JsonGrammar
  import opened JsonStrings
  import opened JsonNumbers
  import opened Wire

  const DOUBLE_BUFFER_SIZE: nat := 32

  /** `std::to_chars` in scientific format: shortest digits, a signed exponent of at least two digits. */
  function Scientific(d: Double): (s: bytes)
    requires d.Finite? && ValidDouble(d)
  {
    (if d.neg then [MINUS] else []) + Mantissa(d.digits) + [LOWER_E] + ExponentText(d.exponent)
  }

  function Mantissa(digits: bytes): (s: bytes)
    requires digits != []
  {
    [digits[0]] + (if |digits| == 1 then [] else [POINT] + digits[1..])
  }

  function ExponentText(e: int): (s: bytes)
    ensures |s| >= 1
  {
    var m := if e < 0 then -e else e;
    [if e < 0 then MINUS else PLUS] + (if m < 10 then [ZERO] else []) + NatText(m)
  }

  /** `std::from_chars` for the exponent, which reads a minus sign but not a plus. */
  function FromCharsExponent(s: bytes): (v: int) {
    var neg := s != [] && s[0] == MINUS;
    var digits := if neg then s[1..] else s;
    if !AllDigits(digits) then 0 else if neg then -(DigitsValue(digits) as int) else DigitsValue(digits)
  }

  lemma ExponentReads(e: int)
    ensures var s := ExponentText(e);
      FromCharsExponent(if s[0] == PLUS then s[1..] else s) == e
  {
    var m := if e < 0 then -e else e;
    var digits := (if m < 10 then [ZERO] else []) + NatText(m);
    assert ExponentText(e)[1..] == digits;
    NatTextValue(m);
    if m < 10 {
      LeadingZeros(1, NatText(m));
      assert digits == Zeros(1) + NatText(m);
    } else {
      assert digits == NatText(m);
    }
  }

  /** The digits of a mantissa, its point removed. */
  function WithoutPoint(s: bytes): (r: bytes) {
    if s == [] then []
    else WithoutPoint(s[..|s| - 1]) + (if s[|s| - 1] == POINT then [] else [s[|s| - 1]])
  }

  lemma {:induction false} NoPoint(s: bytes)
    requires AllDigits(s)
    ensures WithoutPoint(s) == s
  {
    if s != [] {
      NoPoint(s[..|s| - 1]);
    }
  }

  lemma {:induction false} PointAtOne(d: byte, s: bytes)
    requires IsDigit(d) && AllDigits(s)
    ensures WithoutPoint([d, POINT] + s) == [d] + s
  {
    var t := [d, POINT] + s;
    if s == [] {
      assert t[..1] == [d] && [d][..0] == [];
      assert WithoutPoint([d]) == [d];
      assert t == [d, POINT] && WithoutPoint(t) == WithoutPoint(t[..1]);
    } else {
      assert t[..|t| - 1] == [d, POINT] + s[..|s| - 1];
      PointAtOne(d, s[..|s| - 1]);
    }
  }

  lemma MantissaDigits(digits: bytes)
    requires Digits(digits)
    ensures WithoutPoint(Mantissa(digits)) == digits && LOWER_E !in Mantissa(digits)
  {
    if |digits| == 1 {
      NoPoint(digits);
    } else {
      PointAtOne(digits[0], digits[1..]);
      assert Mantissa(digits) == [digits[0], POINT] + digits[1..];
    }
  }

  /** The digits and the exponent, recovered from the scientific text as `format_double` does. */
  method ReadScientific(d: Double) returns (negative: bool, digits: bytes, exponent: int)
    requires d.Finite? && ValidDouble(d)
    ensures negative == d.neg && digits == d.digits && exponent == d.exponent
  {
    hide WithoutPoint, NatText, DigitsValue;
    var text := Scientific(d);
    ghost var m := Mantissa(d.digits);
    ghost var start := if d.neg then 1 else 0;
    MantissaDigits(d.digits);
    ScientificParts(if d.neg then [MINUS] else [], m, ExponentText(d.exponent));
    NoPoint([]);
    assert forall i :: 0 <= i < |m| ==> m[i] != LOWER_E;
    var cursor := 0;
    negative := text[0] == MINUS;
    if negative {
      cursor := 1;
    }
    assert cursor == start;
    digits := [];
    assert m[..0] == [];
    while cursor < |text| && text[cursor] != LOWER_E
      invariant start <= cursor <= start + |m|
      invariant digits == WithoutPoint(m[..cursor - start])
      decreases |text| - cursor
    {
      assert text[cursor] == m[cursor - start];
      PointStep(m, cursor - start);
      if text[cursor] != POINT {
        digits := digits + [text[cursor]];
      }
      cursor := cursor + 1;
    }
    assert m[..|m|] == m;
    var tail := text[cursor + 1..];
    if tail[0] == PLUS {
      tail := tail[1..];
    }
    ExponentReads(d.exponent);
    exponent := FromCharsExponent(tail);
  }

  lemma ScientificParts(sign: bytes, m: bytes, e: bytes)
    ensures var text := sign + m + [LOWER_E] + e;
      && text[|sign|..|sign| + |m|] == m && text[|sign| + |m|] == LOWER_E && text[|sign| + |m| + 1..] == e
      && forall i :: |sign| <= i < |sign| + |m| ==> text[i] == m[i - |sign|]
  {
    var text := sign + m + [LOWER_E] + e;
    assert text[..|sign| + |m|] == sign + m;
  }

  lemma PointStep(m: bytes, i: nat)
    requires i < |m|
    ensures WithoutPoint(m[..i + 1]) == WithoutPoint(m[..i]) + (if m[i] == POINT then [] else [m[i]])
  {
    assert m[..i + 1][..i] == m[..i];
  }

  // ------------------------------------------------------------- fixed buffer

  method Put(out: array<byte>, n: nat, c: byte) returns (m: nat)
    requires n < out.Length
    modifies out
    ensures m == n + 1 && out[..m] == old(out[..n]) + [c]
  {
    out[n] := c;
    m := n + 1;
  }

  method PutDigits(out: array<byte>, n: nat, digits: bytes, from: nat, to: nat) returns (m: nat)
    requires from <= to <= |digits| && n + (to - from) <= out.Length
    modifies out
    ensures m == n + (to - from) && out[..m] == old(out[..n]) + digits[from..to]
  {
    m := n;
    for i := from to to
      invariant m == n + (i - from) && out[..m] == old(out[..n]) + digits[from..i]
    {
      m := Put(out, m, digits[i]);
      assert digits[from..i + 1] == digits[from..i] + [digits[i]];
    }
  }

  /** The digits padded with zeros, or cut, to `count`. */
  function Padded(digits: bytes, count: nat): (s: bytes)
    ensures |s| == count
  {
    if count <= |digits| then digits[..count] else digits + Zeros(count - |digits|)
  }

  method PutWhole(out: array<byte>, n: nat, digits: bytes, whole: nat) returns (m: nat)
    requires n + whole <= out.Length
    modifies out
    ensures m == n + whole && out[..m] == old(out[..n]) + Padded(digits, whole)
  {
    m := n;
    for i := 0 to whole
      invariant m == n + i && out[..m] == old(out[..n]) + Padded(digits, i)
    {
      m := Put(out, m, if i < |digits| then digits[i] else ZERO);
      assert Padded(digits, i + 1) == Padded(digits, i) + [if i < |digits| then digits[i] else ZERO];
    }
  }

  method PutZeros(out: array<byte>, n: nat, count: nat) returns (m: nat)
    requires n + count <= out.Length
    modifies out
    ensures m == n + count && out[..m] == old(out[..n]) + Zeros(count)
  {
    m := n;
    for i := 0 to count
      invariant m == n + i && out[..m] == old(out[..n]) + Zeros(i)
    {
      m := Put(out, m, ZERO);
      assert Zeros(i + 1) == Zeros(i) + [ZERO];
    }
  }

  function FixedText(digits: bytes, e: int): (s: bytes)
    requires digits != [] && e >= 0
  {
    if |digits| > e + 1 then digits[..e + 1] + ([POINT] + digits[e + 1..])
    else digits + Zeros(e + 1 - |digits|) + ([POINT] + [ZERO])
  }

  function SmallText(digits: bytes, e: int): (s: bytes)
    requires e < 0
  {
    [ZERO] + ([POINT] + (Zeros(-e - 1) + digits))
  }

  function ScientificText(digits: bytes, e: int): (s: bytes)
    requires digits != []
  {
    [digits[0]] + (if |digits| > 1 then [POINT] + digits[1..] else []) + PowerText(e)
  }

  function PowerText(e: int): (s: bytes) {
    [LOWER_E] + ([if e >= 0 then PLUS else MINUS] + NatText(if e >= 0 then e else -e))
  }

  lemma Grouped(a: bytes, b: bytes, c: bytes, d: bytes)
    ensures a + b + c + d == a + (b + (c + d))
  {
  }

  /** Fixed notation at or above one: the whole digits, a point, at least one more digit. */
  method PutFixed(out: array<byte>, n: nat, digits: bytes, exponent: int) returns (m: nat)
    requires Digits(digits) && |digits| <= 17 && 0 <= exponent < 16 && n <= 1 && out.Length >= DOUBLE_BUFFER_SIZE
    modifies out
    ensures n <= m <= out.Length
    ensures out[..m] == old(out[..n]) + FixedText(digits, exponent)
  {
    var whole := exponent + 1;
    ghost var front, w := out[..n], Padded(digits, whole);
    m := PutWhole(out, n, digits, whole);
    m := Put(out, m, POINT);
    if |digits| > whole {
      m := PutDigits(out, m, digits, whole, |digits|);
      assert digits[whole..|digits|] == digits[whole..];
      Grouped(front, w, [POINT], digits[whole..]);
    } else {
      m := Put(out, m, ZERO);
      assert w == digits + Zeros(whole - |digits|);
      Grouped(front, w, [POINT], [ZERO]);
    }
  }

  method PutSmall(out: array<byte>, n: nat, digits: bytes, exponent: int) returns (m: nat)
    requires Digits(digits) && |digits| <= 17 && -5 <= exponent < 0 && n <= 1 && out.Length >= DOUBLE_BUFFER_SIZE
    modifies out
    ensures n <= m <= out.Length
    ensures out[..m] == old(out[..n]) + SmallText(digits, exponent)
  {
    m := Put(out, n, ZERO);
    m := Put(out, m, POINT);
    m := PutZeros(out, m, -exponent - 1);
    m := PutDigits(out, m, digits, 0, |digits|);
    assert digits[0..|digits|] == digits;
  }

  method PutScientific(out: array<byte>, n: nat, digits: bytes, exponent: int) returns (m: nat)
    requires Digits(digits) && |digits| <= 17 && -1000 < exponent < 1000 && n <= 1 && out.Length >= DOUBLE_BUFFER_SIZE
    modifies out
    ensures n <= m <= out.Length
    ensures out[..m] == old(out[..n]) + ScientificText(digits, exponent)
  {
    hide PowerText;
    ghost var front := out[..n];
    m := Put(out, n, digits[0]);
    if |digits| > 1 {
      m := Put(out, m, POINT);
      m := PutDigits(out, m, digits, 1, |digits|);
      assert digits[1..|digits|] == digits[1..];
    }
    ghost var body := [digits[0]] + (if |digits| > 1 then [POINT] + digits[1..] else []);
    assert out[..m] == front + body;
    m := PutExponent(out, m, exponent);
    Assoc(front, body, PowerText(exponent));
  }

  method PutExponent(out: array<byte>, n: nat, exponent: int) returns (m: nat)
    requires -1000 < exponent < 1000 && n + 5 <= out.Length
    modifies out
    ensures n <= m <= out.Length && out[..m] == old(out[..n]) + PowerText(exponent)
  {
    hide NatText;
    ghost var front := out[..n];
    var sign := if exponent >= 0 then PLUS else MINUS;
    m := Put(out, n, LOWER_E);
    m := Put(out, m, sign);
    var magnitude := NatText(if exponent >= 0 then exponent else -exponent);
    SmallNatText(if exponent >= 0 then exponent else -exponent);
    m := PutDigits(out, m, magnitude, 0, |magnitude|);
    assert magnitude[0..|magnitude|] == magnitude;
    Grouped(front, [LOWER_E], [sign], magnitude);
  }

  lemma LayoutText(d: Double)
    requires d.Finite? && ValidDouble(d)
    ensures PrintNumber(Layout(d)) == (if d.neg then [MINUS] else []) + (
      if 0 <= d.exponent < 16 then FixedText(d.digits, d.exponent)
      else if -5 <= d.exponent < 0 then SmallText(d.digits, d.exponent)
      else ScientificText(d.digits, d.exponent))
  {
    hide NatText, PrintNumber;
    NumberText(Layout(d));
    if 0 <= d.exponent < 16 {
      assert PrintFraction(Layout(d).frac) == [POINT] + Layout(d).frac.value;
    } else if !(-5 <= d.exponent < 0) {
      assert PrintExponent(Layout(d).exp) == PowerText(d.exponent);
    }
  }

  lemma NumberText(n: Number)
    ensures PrintNumber(n) == (if n.neg then [MINUS] else []) + (n.whole + PrintFraction(n.frac) + PrintExponent(n.exp))
    ensures n.exp.None? ==> PrintNumber(n) == (if n.neg then [MINUS] else []) + (n.whole + PrintFraction(n.frac))
  {
    var sign := if n.neg then [MINUS] else [];
    NumberParts(sign, n.whole, PrintFraction(n.frac), PrintExponent(n.exp));
  }

  lemma NumberParts(a: bytes, b: bytes, c: bytes, d: bytes)
    ensures a + b + (c + d) == a + (b + c + d)
    ensures d == [] ==> a + b + (c + d) == a + (b + c)
  {
  }

  /** `format_double`: the text fits the buffer with room to spare, and nothing else is promised of it. */
  method FormatDouble(value: Double, out: array<byte>) returns (length: nat)
    requires ValidDouble(value) && out.Length >= DOUBLE_BUFFER_SIZE
    modifies out
    ensures length <= 24 && length <= out.Length && out[..length] == DoubleText(value)
  {
    hide NatText, Layout, PrintNumber, ExponentText, Mantissa;
    if !value.Finite? {
      length := PutDigits(out, 0, NULL, 0, 4);
      assert NULL[0..4] == NULL;
      return;
    }
    LayoutText(value);
    LayoutLength(value);
    var negative, digits, exponent := ReadScientific(value);
    length := 0;
    if negative {
      length := Put(out, length, MINUS);
    }
    assert out[..length] == if negative then [MINUS] else [];
    if -5 <= exponent < 16 {
      if exponent >= 0 {
        length := PutFixed(out, length, digits, exponent);
      } else {
        length := PutSmall(out, length, digits, exponent);
      }
    } else {
      length := PutScientific(out, length, digits, exponent);
    }
  }

  // ----------------------------------------------------------- growing buffer

  class Buffer {
    var data: bytes

    constructor ()
      ensures data == []
    {
      data := [];
    }

    method Append(text: bytes)
      modifies this
      ensures data == old(data) + text
    {
      data := data + text;
    }

    /** `append_string`: quotes, and an escape for every byte that needs one. */
    method AppendString(text: bytes)
      modifies this
      ensures data == old(data) + StringText(text)
    {
      hide EscapeAll, EscapeByte;
      data := data + [QUOTE];
      EscapeRaw(text[..0]);
      for i := 0 to |text|
        invariant data == old(data) + [QUOTE] + EscapeAll(text[..i])
      {
        EscapeStep(text, i);
        AppendEscaped(text[i]);
      }
      assert text[..|text|] == text;
      data := data + [QUOTE];
    }

    method AppendEscaped(b: byte)
      modifies this
      ensures data == old(data) + EscapeByte(b)
    {
      if b == QUOTE {
        Append([BACKSLASH, QUOTE]);
      } else if b == BACKSLASH {
        Append([BACKSLASH, BACKSLASH]);
      } else if b == 0x08 {
        Append([BACKSLASH, 0x62]);
      } else if b == 0x0C {
        Append([BACKSLASH, 0x66]);
      } else if b == 0x0A {
        Append([BACKSLASH, 0x6E]);
      } else if b == 0x0D {
        Append([BACKSLASH, 0x72]);
      } else if b == 0x09 {
        Append([BACKSLASH, 0x74]);
      } else if b < 0x20 {
        Append([BACKSLASH, 0x75, ZERO, ZERO]);
        data := data + [LowHex(b / 16)];
        data := data + [LowHex(b % 16)];
      } else {
        data := data + [b];
      }
    }

    method AppendInt(value: int)
      requires IsInt64(value)
      modifies this
      ensures data == old(data) + PrintNumber(IntNumber(value))
    {
      Append(PrintNumber(IntNumber(value)));
    }

    method AppendDouble(value: Double)
      requires ValidDouble(value)
      modifies this
      ensures data == old(data) + DoubleText(value)
    {
      hide DoubleText, ValidDouble;
      var buffer := new byte[DOUBLE_BUFFER_SIZE](_ => 0);
      var length := FormatDouble(value, buffer);
      Append(buffer[..length]);
    }
  }

  lemma EscapeStep(text: bytes, i: nat)
    requires i < |text|
    ensures EscapeAll(text[..i + 1]) == EscapeAll(text[..i]) + EscapeByte(text[i])
  {
    hide EscapeByte;
    assert text[..i + 1] == text[..i] + [text[i]];
    EscapeAllConcat(text[..i], [text[i]]);
    assert [text[i]][1..] == [];
    assert EscapeAll([text[i]]) == EscapeByte(text[i]) + EscapeAll([]);
  }
}
