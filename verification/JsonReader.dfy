/** The pull parser of src/json.cpp, statement by statement, proved against the text functions. */
module JsonReader {
  import opened Bytes
  import opened Errors
  import opened JsonGrammar
  import Strings = JsonStrings
  import Numbers = JsonNumbers
  import Text = WireText
  import Utf8

  const MAX_DEPTH: nat := 8

  class Reader {
    const text: bytes
    const first: array<bool>
    var pos: nat
    var depth: nat
    var failed: bool
    var error: Reason

    ghost predicate Valid()
      reads this
    {
      pos <= |text| && first.Length == MAX_DEPTH && depth <= MAX_DEPTH
    }

    /** The text still to be read. */
    ghost function Rest(): (s: bytes)
      requires Valid()
      reads this
    {
      text[pos..]
    }

    constructor (text: bytes)
      ensures Valid() && fresh(first) && this.text == text && Rest() == text && depth == 0 && !failed
    {
      this.text := text;
      first := new bool[MAX_DEPTH](_ => false);
      pos, depth, failed, error := 0, 0, false, UnterminatedObject;
    }

    /** The first failure is the one kept. */
    method Fail(reason: Reason) returns (ok: bool)
      modifies this`failed, this`error
      ensures !ok && failed && error == (if old(failed) then old(error) else reason)
    {
      if !failed {
        failed, error := true, reason;
      }
      ok := false;
    }

    method SkipWhitespace()
      requires Valid()
      modifies this`pos
      ensures Valid() && Rest() == SkipSpace(old(Rest())) && pos >= old(pos)
    {
      hide SkipSpace;
      while pos < |text|
        invariant old(pos) <= pos <= |text|
        invariant SkipSpace(text[pos..]) == SkipSpace(text[old(pos)..])
      {
        SkipCases(text[pos..]);
        var c := text[pos];
        if !IsSpace(c) {
          return;
        }
        assert text[pos..][1..] == text[pos + 1..];
        pos := pos + 1;
      }
      SkipCases(text[pos..]);
    }

    method Peek() returns (ok: bool, c: byte)
      requires Valid()
      modifies this`pos
      ensures Valid() && Rest() == SkipSpace(old(Rest())) && pos >= old(pos)
      ensures ok == (Rest() != []) && (ok ==> c == Rest()[0])
    {
      hide SkipSpace;
      SkipWhitespace();
      ok, c := pos < |text|, 0;
      if ok {
        c := text[pos];
      }
    }

    method Expect(c: byte) returns (ok: bool)
      requires Valid() && c < 128
      modifies this
      ensures Valid() && depth == old(depth)
      ensures ok == Text.Expect(c, old(Rest())).Ok?
      ensures ok ==> Rest() == Text.Expect(c, old(Rest())).rest && failed == old(failed) && error == old(error)
      ensures !ok ==> failed && error == (if old(failed) then old(error) else Text.Expect(c, old(Rest())).reason)
    {
      hide SkipSpace;
      var some, seen := Peek();
      if !some {
        ok := Fail(ExpectedAtEnd(c));
        return;
      }
      if seen != c {
        ok := Fail(Expected(c, seen));
        return;
      }
      pos := pos + 1;
      ok := true;
    }

    method PushLevel() returns (ok: bool)
      requires Valid()
      modifies this, first
      ensures Valid() && pos == old(pos) && ok == (old(depth) < MAX_DEPTH)
      ensures ok ==> depth == old(depth) + 1 && first[..] == old(first[..])[old(depth) := true]
      ensures ok ==> failed == old(failed) && error == old(error)
      ensures !ok ==> failed && error == (if old(failed) then old(error) else NestingTooDeep)
      ensures !ok ==> depth == old(depth) && first[..] == old(first[..])
    {
      if depth == MAX_DEPTH {
        ok := Fail(NestingTooDeep);
        return;
      }
      first[depth] := true;
      depth := depth + 1;
      ok := true;
    }

    /** `begin_object` and `begin_array`. */
    method Begin(open: byte) returns (ok: bool)
      requires Valid() && open < 128
      modifies this, first
      ensures Valid() && ok == (Text.Expect(open, old(Rest())).Ok? && old(depth) < MAX_DEPTH)
      ensures ok ==> Rest() == Text.Expect(open, old(Rest())).rest
      ensures ok ==> depth == old(depth) + 1 && first[..] == old(first[..])[old(depth) := true]
      ensures ok ==> failed == old(failed) && error == old(error)
      ensures !ok ==> failed && error == (if old(failed) then old(error)
        else if Text.Expect(open, old(Rest())).Ok? then NestingTooDeep else Text.Expect(open, old(Rest())).reason)
    {
      hide Text.Expect;
      ok := Expect(open);
      if ok {
        ok := PushLevel();
      }
    }

    /** `next_element`, and `next_member` up to the key. */
    method Next(close: byte) returns (ok: bool, present: bool)
      requires Valid() && depth >= 1 && (close == CLOSE_BRACE || close == CLOSE_BRACKET)
      modifies this, first
      ensures Valid()
      ensures var r := Text.Next(old(Rest()), old(first[depth - 1]), close);
        && ok == r.Ok?
        && (ok ==> present == r.value && Rest() == r.rest && failed == old(failed) && error == old(error))
        && (!ok ==> failed && error == (if old(failed) then old(error) else r.reason))
      ensures ok && present ==> depth == old(depth) && first[..] == old(first[..])[old(depth) - 1 := false]
      ensures ok && !present ==> depth == old(depth) - 1 && first[..] == old(first[..])
    {
      hide SkipSpace;
      present := false;
      var some, c := Peek();
      assert SkipSpace(Rest()) == Rest() by { SkipTwice(old(Rest())); }
      if !some {
        ok := Fail(if close == CLOSE_BRACE then UnterminatedObject else UnterminatedArray);
        return;
      }
      if c == close {
        pos := pos + 1;
        depth := depth - 1;
        ok := true;
        return;
      }
      if first[depth - 1] {
        first[depth - 1] := false;
      } else {
        var comma := Expect(COMMA);
        if !comma {
          ok := false;
          return;
        }
      }
      assert first[..] == old(first[..])[old(depth) - 1 := false];
      present, ok := true, true;
    }

    // ------------------------------------------------------------------ numbers

    method SkipDigits()
      requires Valid()
      modifies this`pos
      ensures Valid() && pos >= old(pos)
      ensures Rest() == old(Rest())[Numbers.DigitRun(old(Rest()))..]
    {
      while pos < |text| && IsDigit(text[pos])
        invariant old(pos) <= pos <= |text|
        invariant Numbers.DigitRun(text[old(pos)..]) == pos - old(pos) + Numbers.DigitRun(text[pos..])
      {
        assert text[pos..][1..] == text[pos + 1..];
        pos := pos + 1;
      }
    }

    predicate DigitAt()
      requires pos <= |text|
      reads this`pos
    {
      pos < |text| && IsDigit(text[pos])
    }

    /** The sign and the whole part of `scan_number`. */
    method ScanWhole() returns (ok: bool)
      requires Valid()
      modifies this
      ensures Valid() && depth == old(depth) && pos >= old(pos)
      ensures var r := Numbers.ScanWhole(old(Rest()));
        && ok == r.Ok?
        && (ok ==> Rest() == r.rest && failed == old(failed) && error == old(error))
        && (!ok ==> failed && error == (if old(failed) then old(error) else r.reason))
    {
      hide Numbers.DigitRun;
      ghost var s := Rest();
      if pos < |text| && text[pos] == MINUS {
        pos := pos + 1;
      }
      ghost var t := Rest();
      assert t == if s != [] && s[0] == MINUS then s[1..] else s;
      if !DigitAt() {
        ok := Fail(NoDigitAfterSign);
        return;
      }
      if text[pos] == ZERO {
        pos := pos + 1;
        assert Rest() == t[1..];
        if DigitAt() {
          ok := Fail(LeadingZero);
          return;
        }
      } else {
        SkipDigits();
      }
      ok := true;
    }

    method ScanFraction() returns (ok: bool, integral: bool)
      requires Valid()
      modifies this
      ensures Valid() && depth == old(depth) && pos >= old(pos)
      ensures var r := Numbers.ScanFraction(old(Rest()));
        && ok == r.Ok?
        && (ok ==> Rest() == r.rest && integral == r.value.None? && failed == old(failed) && error == old(error))
        && (!ok ==> failed && error == (if old(failed) then old(error) else r.reason))
    {
      hide Numbers.DigitRun;
      ghost var s := Rest();
      ok, integral := true, true;
      if pos < |text| && text[pos] == POINT {
        integral := false;
        pos := pos + 1;
        assert Rest() == s[1..];
        if !DigitAt() {
          ok := Fail(NoDigitAfterPoint);
          return;
        }
        SkipDigits();
      }
    }

    method ScanExponent() returns (ok: bool, integral: bool)
      requires Valid()
      modifies this
      ensures Valid() && depth == old(depth) && pos >= old(pos)
      ensures var r := Numbers.ScanExponent(old(Rest()));
        && ok == r.Ok?
        && (ok ==> Rest() == r.rest && integral == r.value.None? && failed == old(failed) && error == old(error))
        && (!ok ==> failed && error == (if old(failed) then old(error) else r.reason))
    {
      hide Numbers.DigitRun;
      ghost var s := Rest();
      ok, integral := true, true;
      if pos < |text| && (text[pos] == 0x65 || text[pos] == 0x45) {
        integral := false;
        pos := pos + 1;
        ghost var u := Rest();
        assert u == s[1..];
        if pos < |text| && (text[pos] == PLUS || text[pos] == MINUS) {
          pos := pos + 1;
        }
        assert Rest() == if Numbers.HasSign(u) then u[1..] else u;
        if !DigitAt() {
          ok := Fail(NoDigitAfterExponent);
          return;
        }
        SkipDigits();
      }
    }

    /** `scan_number`. */
    method ScanNumber() returns (ok: bool, token: bytes, integral: bool)
      requires Valid()
      modifies this
      ensures Valid() && depth == old(depth)
      ensures var r := Numbers.ScanNumber(old(Rest()));
        && ok == r.Ok?
        && (ok ==> Rest() == r.rest && token == Numbers.PrintNumber(r.value) && integral == Numbers.Integral(r.value))
        && (ok ==> failed == old(failed) && error == old(error))
        && (!ok ==> failed && error == (if old(failed) then old(error) else r.reason))
    {
      hide SkipSpace, Numbers.ScanWhole, Numbers.ScanFraction, Numbers.ScanExponent, Numbers.PrintNumber;
      token, integral := [], true;
      ghost var s := Rest();
      var some, c := Peek();
      if !some {
        ok := Fail(NumberAtEnd);
        return;
      }
      if c != MINUS && !IsDigit(c) {
        ok := Fail(NotANumber);
        return;
      }
      var start := pos;
      ghost var t := Rest();
      ok := ScanWhole();
      if !ok { return; }
      var plain;
      ok, integral := ScanFraction();
      if !ok { return; }
      ok, plain := ScanExponent();
      if !ok { return; }
      integral := integral && plain;
      token := text[start..pos];
      ghost var r := Numbers.ScanToken(t);
      Numbers.ScanTokenSound(t);
      TokenIsPrefix(text, start, pos, Numbers.PrintNumber(r.value));
    }

    // ------------------------------------------------------------------ strings

    /** Four hexadecimal digits at the position. */
    method ReadHex4() returns (ok: bool, value: int)
      requires Valid()
      modifies this`pos
      ensures Valid() && pos >= old(pos)
      ensures ok == (|old(Rest())| >= 4 && Strings.IsHex4(old(Rest())[..4]))
      ensures ok ==> Rest() == old(Rest())[4..] && value == Strings.Hex4(old(Rest())[..4])
      ensures !ok ==> pos == old(pos)
    {
      ok, value := false, 0;
      if pos + 4 > |text| {
        return;
      }
      ghost var h := Rest()[..4];
      var i := 0;
      while i < 4
        invariant 0 <= i <= 4
        invariant forall j :: 0 <= j < i ==> Strings.IsHex(h[j])
        invariant value == HexPrefix(h, i)
      {
        var c := text[pos + i];
        assert c == h[i];
        if !Strings.IsHex(c) {
          return;
        }
        value := value * 16 + Strings.HexDigit(c);
        i := i + 1;
      }
      HexPrefix4(h);
      pos := pos + 4;
      ok := true;
    }

    /** `append_code_point`, on the text after `\u`. */
    method AppendCodePoint(out: bytes) returns (ok: bool, grown: bytes)
      requires Valid()
      modifies this
      ensures Valid() && depth == old(depth) && pos >= old(pos)
      ensures var r := Strings.ScanCodePoint(old(Rest()));
        && ok == r.Ok?
        && (ok ==> Rest() == r.rest && grown == out + r.value && failed == old(failed) && error == old(error))
        && (!ok ==> failed && error == (if old(failed) then old(error) else r.reason))
    {
      hide Utf8.Encode, Strings.Hex4, Strings.IsHex4;
      grown := out;
      ghost var s := Rest();
      var some, code := ReadHex4();
      if !some {
        ok := Fail(InvalidHexEscape);
        return;
      }
      if 0xDC00 <= code <= 0xDFFF {
        ok := Fail(NoHighSurrogate);
        return;
      }
      if 0xD800 <= code <= 0xDBFF {
        assert Rest() == s[4..];
        if pos + 2 > |text| || text[pos] != BACKSLASH || text[pos + 1] != 0x75 {
          ok := Fail(NoLowSurrogate);
          return;
        }
        pos := pos + 2;
        assert Rest() == s[6..];
        var low;
        some, low := ReadHex4();
        if !some || low < 0xDC00 || low > 0xDFFF {
          assert |s| >= 10 ==> s[6..][..4] == s[6..10];
          ok := Fail(NoLowSurrogate);
          return;
        }
        assert s[6..][..4] == s[6..10] && Rest() == s[10..];
        code := 0x10000 + (code - 0xD800) * 1024 + (low - 0xDC00);
      }
      grown := out + Utf8.Encode(code);
      ok := true;
    }

    /** `append_escape`, on the text after the backslash. */
    method AppendEscape(out: bytes) returns (ok: bool, grown: bytes)
      requires Valid()
      modifies this
      ensures Valid() && depth == old(depth) && pos >= old(pos)
      ensures var r := Strings.ScanEscape(old(Rest()));
        && ok == r.Ok?
        && (ok ==> Rest() == r.rest && grown == out + r.value && failed == old(failed) && error == old(error))
        && (!ok ==> failed && error == (if old(failed) then old(error) else r.reason))
    {
      hide Strings.ScanCodePoint;
      grown := out;
      ghost var s := Rest();
      if pos >= |text| {
        ok := Fail(UnterminatedEscape);
        return;
      }
      var c := text[pos];
      pos := pos + 1;
      assert Rest() == s[1..];
      var short := Strings.ShortByte(c);
      if short.Some? {
        grown, ok := out + [short.value], true;
      } else if c == 0x75 {
        ok, grown := AppendCodePoint(out);
      } else {
        ok := Fail(InvalidEscape(c));
      }
    }

    /** `validate_utf8_run`: steps over one multi-byte character. */
    method ValidateUtf8Run() returns (ok: bool)
      requires Valid() && pos < |text| && text[pos] >= 0x80
      modifies this
      ensures Valid() && depth == old(depth) && pos >= old(pos) && (ok ==> pos > old(pos))
      ensures var n := Strings.Utf8Run(old(Rest()));
        && ok == n.Some?
        && (ok ==> Rest() == old(Rest())[n.value..] && pos == old(pos) + n.value && failed == old(failed) && error == old(error))
        && (!ok ==> failed && error == (if old(failed) then old(error) else NotUtf8))
    {
      var lead := text[pos];
      var length := 0;
      var low, high := 0x80, 0xBF;
      if 0xC2 <= lead <= 0xDF {
        length := 2;
      } else if 0xE0 <= lead <= 0xEF {
        length := 3;
        if lead == 0xE0 { low := 0xA0; } else if lead == 0xED { high := 0x9F; }
      } else if 0xF0 <= lead <= 0xF4 {
        length := 4;
        if lead == 0xF0 { low := 0x90; } else if lead == 0xF4 { high := 0x8F; }
      } else {
        ok := Fail(NotUtf8);
        return;
      }
      if pos + length > |text| || !(low <= text[pos + 1] <= high) {
        ok := Fail(NotUtf8);
        return;
      }
      var i := 2;
      while i < length
        invariant 2 <= i <= length && pos == old(pos) && failed == old(failed) && error == old(error) && depth == old(depth)
        invariant i > 2 ==> Utf8.Tail(text[pos + 2])
        invariant i > 3 ==> Utf8.Tail(text[pos + 3])
      {
        if !(0x80 <= text[pos + i] <= 0xBF) {
          ok := Fail(NotUtf8);
          return;
        }
        i := i + 1;
      }
      pos := pos + length;
      ok := true;
    }

    /** `scan_string`: raw characters are appended a run at a time. */
    method ScanString() returns (ok: bool, out: bytes)
      requires Valid()
      modifies this
      ensures Valid() && depth == old(depth)
      ensures var r := Strings.ScanString(old(Rest()));
        && ok == r.Ok?
        && (ok ==> Rest() == r.rest && out == r.value && failed == old(failed) && error == old(error))
        && (!ok ==> failed && error == (if old(failed) then old(error) else r.reason))
    {
      hide SkipSpace, Strings.ScanChars, Strings.ScanEscape, Strings.Utf8Run, Utf8.WellFormed;
      out := [];
      var some, c := Peek();
      if !some {
        ok := Fail(StringAtEnd);
        return;
      }
      if c != QUOTE {
        ok := Fail(NotAString);
        return;
      }
      pos := pos + 1;
      ok, out := ScanRuns();
    }

    method ScanRuns() returns (ok: bool, out: bytes)
      requires Valid()
      modifies this
      ensures Valid() && depth == old(depth)
      ensures var r := Strings.ScanChars(old(Rest()));
        && ok == r.Ok?
        && (ok ==> Rest() == r.rest && out == r.value && failed == old(failed) && error == old(error))
        && (!ok ==> failed && error == (if old(failed) then old(error) else r.reason))
    {
      hide Strings.ScanChars, Strings.ScanEscape, Strings.Utf8Run, Strings.Prepend, Fixed, Utf8.StartsWithChar, Utf8.Width, Message;
      ghost var s := Rest();
      out := [];
      var run: nat := pos;
      EmptyFront(s);
      assert text[run..pos] == [];
      while true
        invariant Valid() && depth == old(depth) && failed == old(failed) && error == old(error)
        invariant run <= pos
        invariant Strings.ScanChars(s) == Strings.Prepend(out + text[run..pos], Strings.ScanChars(Rest()))
        decreases |text| - pos
      {
        ghost var u, front := Rest(), out + text[run..pos];
        ScanCases(u);
        PrependEnds(front, Strings.ScanChars(u));
        if pos >= |text| {
          ok := Fail(UnterminatedString);
          return;
        }
        var b := text[pos];
        if b == QUOTE {
          out := out + text[run..pos];
          pos := pos + 1;
          ok := true;
          assert Rest() == u[1..] && front + [] == front;
          return;
        }
        if b == BACKSLASH {
          out := out + text[run..pos];
          pos := pos + 1;
          assert Rest() == u[1..];
          ghost var e := Strings.ScanEscape(u[1..]);
          ok, out := AppendEscape(out);
          if !ok {
            return;
          }
          run := pos;
          assert text[run..pos] == [];
          Prepended(front, e.value, Strings.ScanChars(e.rest));
          assert out + [] == out;
          continue;
        }
        if b < 0x20 {
          ok := Fail(ControlCharacter);
          return;
        }
        ghost var before := pos;
        ok := StepOver();
        if !ok {
          return;
        }
        RunGrows(out, text, run, before, pos);
        Prepended(front, text[before..pos], Strings.ScanChars(Rest()));
      }
    }

    /** One raw character, ASCII or not, becomes part of the run. */
    method StepOver() returns (ok: bool)
      requires Valid() && pos < |text| && text[pos] >= 0x20 && text[pos] != QUOTE && text[pos] != BACKSLASH
      modifies this
      ensures Valid() && depth == old(depth) && pos >= old(pos)
      ensures ok ==> pos > old(pos) && failed == old(failed) && error == old(error)
      ensures ok ==> Strings.ScanChars(old(Rest())) == Strings.Prepend(text[old(pos)..pos], Strings.ScanChars(Rest()))
      ensures !ok ==> failed && Strings.ScanChars(old(Rest())).Err?
      ensures !ok ==> error == (if old(failed) then old(error) else Strings.ScanChars(old(Rest())).reason)
    {
      hide Strings.ScanChars, Strings.Utf8Run, Strings.Prepend, Fixed;
      ghost var u := Rest();
      ScanCases(u);
      if text[pos] < 0x80 {
        pos := pos + 1;
        assert Rest() == u[1..] && text[pos - 1..pos] == [u[0]];
        return true;
      }
      ghost var before, n := pos, Strings.Utf8Run(u);
      ok := ValidateUtf8Run();
      if ok {
        assert text[before..pos] == u[..n.value];
      }
    }

    // ------------------------------------------------------------------- values

    method ReadInt() returns (ok: bool, value: int)
      requires Valid()
      modifies this
      ensures Valid() && depth == old(depth)
      ensures var r := Text.ReadInt(old(Rest()));
        && ok == r.Ok?
        && (ok ==> Rest() == r.rest && value == r.value && failed == old(failed) && error == old(error))
        && (!ok ==> failed && error == (if old(failed) then old(error) else r.reason))
    {
      hide Numbers.ScanNumber, Numbers.PrintNumber, Numbers.ValidNumber;
      value := 0;
      ghost var n := Numbers.ScanNumber(Rest());
      var token, integral;
      ok, token, integral := ScanNumber();
      if !ok { return; }
      if !integral {
        ok := Fail(NotAnInteger(token));
        return;
      }
      assert Numbers.ValidNumber(n.value) by { Numbers.ScanNumberSound(old(Rest())); }
      IntegerToken(n.value);
      var parsed := FromCharsInt(token);
      if parsed.None? {
        ok := Fail(IntegerRange(token));
        return;
      }
      value := parsed.value;
    }

    method ReadDouble(fc: Text.FromChars) returns (ok: bool, value: Numbers.Double)
      requires Valid()
      modifies this
      ensures Valid() && depth == old(depth)
      ensures var r := Text.ReadDouble(fc, old(Rest()));
        && ok == r.Ok?
        && (ok ==> Rest() == r.rest && value == r.value && failed == old(failed) && error == old(error))
        && (!ok ==> failed && error == (if old(failed) then old(error) else r.reason))
    {
      hide Numbers.ScanNumber, Numbers.PrintNumber, Numbers.ValidNumber, Numbers.ScanToken;
      value := Numbers.NaN;
      ghost var n := Numbers.ScanNumber(Rest());
      var token, integral;
      ok, token, integral := ScanNumber();
      if !ok { return; }
      assert Numbers.ValidNumber(n.value) by { Numbers.ScanNumberSound(old(Rest())); }
      TokenReads(n.value);
      var number := Numbers.ScanToken(token).value;
      var parsed := fc(number.neg, Numbers.Magnitude(number));
      if parsed.None? {
        ok := Fail(NumberRange(token));
        return;
      }
      value := parsed.value;
    }

    method ReadBool() returns (ok: bool, value: bool)
      requires Valid()
      modifies this
      ensures Valid() && depth == old(depth)
      ensures var r := Text.ReadBool(old(Rest()));
        && ok == r.Ok?
        && (ok ==> Rest() == r.rest && value == r.value && failed == old(failed) && error == old(error))
        && (!ok ==> failed && error == (if old(failed) then old(error) else r.reason))
    {
      hide SkipSpace;
      value := false;
      var some, c := Peek();
      if !some {
        ok := Fail(BooleanAtEnd);
        return;
      }
      if Text.StartsWith(text[pos..], TRUE) {
        pos := pos + 4;
        value, ok := true, true;
        return;
      }
      if Text.StartsWith(text[pos..], FALSE) {
        pos := pos + 5;
        value, ok := false, true;
        return;
      }
      ok := Fail(NotABoolean);
    }

    method AtNull() returns (yes: bool)
      requires Valid()
      modifies this`pos
      ensures Valid() && Rest() == SkipSpace(old(Rest())) && yes == Text.StartsWith(Rest(), NULL)
    {
      hide SkipSpace;
      SkipWhitespace();
      yes := Text.StartsWith(text[pos..], NULL);
    }

    method ReadNull() returns (ok: bool)
      requires Valid()
      modifies this
      ensures Valid() && depth == old(depth)
      ensures ok == Text.StartsWith(SkipSpace(old(Rest())), NULL)
      ensures ok ==> Rest() == SkipSpace(old(Rest()))[4..] && failed == old(failed) && error == old(error)
      ensures !ok ==> failed && error == (if old(failed) then old(error) else NotNull)
    {
      hide SkipSpace;
      ok := AtNull();
      if !ok {
        ok := Fail(NotNull);
        return;
      }
      pos := pos + 4;
    }

    method AtDocumentEnd() returns (ok: bool)
      requires Valid()
      modifies this
      ensures Valid() && ok == (SkipSpace(old(Rest())) == [])
      ensures ok ==> failed == old(failed) && error == old(error)
      ensures !ok ==> failed && error == (if old(failed) then old(error) else TrailingContent)
    {
      hide SkipSpace;
      SkipWhitespace();
      ok := pos == |text|;
      if !ok {
        ok := Fail(TrailingContent);
      }
    }
  }

  // -------------------------------------------------------------------- lemmas

  lemma SkipCases(s: bytes)
    ensures s != [] && IsSpace(s[0]) ==> SkipSpace(s) == SkipSpace(s[1..])
    ensures s == [] || !IsSpace(s[0]) ==> SkipSpace(s) == s
  {
  }

  lemma TokenIsPrefix(text: bytes, start: nat, end: nat, token: bytes)
    requires start <= end <= |text| && text[start..] == token + text[end..]
    ensures text[start..end] == token
  {
    assert |token| == end - start;
    assert text[start..end] == text[start..][..end - start];
  }

  function HexPrefix(h: bytes, i: nat): (v: int)
    requires i <= |h| && forall j :: 0 <= j < i ==> Strings.IsHex(h[j])
  {
    if i == 0 then 0 else HexPrefix(h, i - 1) * 16 + Strings.HexDigit(h[i - 1])
  }

  lemma HexPrefix4(h: bytes)
    requires |h| == 4 && forall j :: 0 <= j < 4 ==> Strings.IsHex(h[j])
    ensures Strings.IsHex4(h) && HexPrefix(h, 4) == Strings.Hex4(h)
  {
    assert HexPrefix(h, 1) == Strings.HexDigit(h[0]);
    assert HexPrefix(h, 2) == HexPrefix(h, 1) * 16 + Strings.HexDigit(h[1]);
    assert HexPrefix(h, 3) == HexPrefix(h, 2) * 16 + Strings.HexDigit(h[2]);
  }

  lemma EmptyFront(s: bytes)
    ensures Strings.ScanChars(s) == Strings.Prepend([] + [], Strings.ScanChars(s))
  {
    hide Strings.ScanChars;
    if Strings.ScanChars(s).Ok? {
      assert [] + [] + Strings.ScanChars(s).value == Strings.ScanChars(s).value;
    }
  }

  lemma RunGrows(out: bytes, text: bytes, run: nat, mid: nat, end: nat)
    requires run <= mid <= end <= |text|
    ensures out + text[run..end] == out + text[run..mid] + text[mid..end]
  {
    assert text[run..end] == text[run..mid] + text[mid..end];
  }

  lemma Prepended(a: bytes, b: bytes, r: Scan<bytes>)
    ensures Strings.Prepend(a, Strings.Prepend(b, r)) == Strings.Prepend(a + b, r)
  {
    if r.Ok? {
      Assoc(a, b, r.value);
    }
  }

  lemma PrependEnds(a: bytes, r: Scan<bytes>)
    ensures Strings.Prepend(a, r) == if r.Ok? then Ok(a + r.value, r.rest) else r
  {
  }

  /** One step of the character-at-a-time scan, by the first byte. */
  lemma ScanCases(u: bytes)
    ensures u == [] ==> Strings.ScanChars(u) == Err(UnterminatedString)
    ensures u != [] && u[0] == QUOTE ==> Strings.ScanChars(u) == Ok([], u[1..])
    ensures u != [] && u[0] == BACKSLASH ==>
      var e := Strings.ScanEscape(u[1..]);
      Strings.ScanChars(u) == if e.Err? then e else Strings.Prepend(e.value, Strings.ScanChars(e.rest))
    ensures u != [] && u[0] < 0x20 ==> Strings.ScanChars(u) == Err(ControlCharacter)
    ensures u != [] && 0x20 <= u[0] < 0x80 && u[0] != QUOTE && u[0] != BACKSLASH ==>
      Strings.ScanChars(u) == Strings.Prepend([u[0]], Strings.ScanChars(u[1..]))
    ensures u != [] && u[0] >= 0x80 ==>
      var n := Strings.Utf8Run(u);
      Strings.ScanChars(u) == if n.None? then Err(NotUtf8) else Strings.Prepend(u[..n.value], Strings.ScanChars(u[n.value..]))
  {
    hide Strings.ScanEscape, Strings.Utf8Run;
  }

  /** `std::from_chars` for int64, on a token that is an optional sign and digits. */
  function FromCharsInt(token: bytes): (r: Option<int>) {
    var neg := token != [] && token[0] == MINUS;
    var digits := if neg then token[1..] else token;
    if !AllDigits(digits) then None else
    var v := if neg then -(Numbers.DigitsValue(digits) as int) else Numbers.DigitsValue(digits);
    if Numbers.IsInt64(v) then Some(v) else None
  }

  lemma IntegerToken(n: Numbers.Number)
    requires Numbers.ValidNumber(n) && Numbers.Integral(n)
    ensures FromCharsInt(Numbers.PrintNumber(n)) ==
      if Numbers.IsInt64(Numbers.IntegerValue(n)) then Some(Numbers.IntegerValue(n)) else None
  {
    var token := Numbers.PrintNumber(n);
    assert token == Numbers.PrintMantissa(n.neg, n.whole);
    if n.neg {
      assert token[1..] == n.whole;
    } else {
      assert token == n.whole;
    }
  }

  /** A token read again is the number it was written from. */
  lemma TokenReads(n: Numbers.Number)
    requires Numbers.ValidNumber(n)
    ensures Numbers.ScanToken(Numbers.PrintNumber(n)) == Ok(n, [])
  {
    hide Numbers.ScanToken, Numbers.PrintNumber;
    Numbers.ScanTokenComplete(n, []);
    assert Numbers.PrintNumber(n) + [] == Numbers.PrintNumber(n);
  }
}
