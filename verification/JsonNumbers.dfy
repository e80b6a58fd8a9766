/** JSON numbers: the grammar of section 6 of RFC 8259, `scan_number`, and the layout of doubles. */
module JsonNumbers {
  import opened Bytes
  import opened Errors
  import Utf8

  // ------------------------------------------------------------------ grammar

  datatype Exponent = Exponent(marker: byte, sign: Option<byte>, digits: bytes)

  /** A number, as its parts are written. */
  datatype Number = Number(neg: bool, whole: bytes, frac: Option<bytes>, exp: Option<Exponent>)

  predicate Digits(s: bytes) {
    s != [] && AllDigits(s)
  }

  predicate ValidExponent(e: Exponent) {
    (e.marker == 0x65 || e.marker == 0x45) && Digits(e.digits) &&
    (e.sign.Some? ==> e.sign.value == PLUS || e.sign.value == MINUS)
  }

  predicate ValidNumber(n: Number) {
    && Digits(n.whole) && (n.whole[0] == ZERO ==> |n.whole| == 1)
    && (n.frac.Some? ==> Digits(n.frac.value))
    && (n.exp.Some? ==> ValidExponent(n.exp.value))
  }

  predicate Integral(n: Number) {
    n.frac.None? && n.exp.None?
  }

  function PrintFraction(f: Option<bytes>): (s: bytes) {
    if f.None? then [] else [POINT] + f.value
  }

  function SignText(sign: Option<byte>): (s: bytes) {
    if sign.None? then [] else [sign.value]
  }

  function PrintExponent(e: Option<Exponent>): (s: bytes) {
    if e.None? then [] else [e.value.marker] + (SignText(e.value.sign) + e.value.digits)
  }

  function PrintMantissa(neg: bool, whole: bytes): (s: bytes) {
    (if neg then [MINUS] else []) + whole
  }

  function PrintNumber(n: Number): (s: bytes) {
    PrintMantissa(n.neg, n.whole) + (PrintFraction(n.frac) + PrintExponent(n.exp))
  }

  // ------------------------------------------------------------------ scanner

  /** The digits at the front of `s`. */
  function DigitRun(s: bytes): (n: nat)
    ensures n <= |s| && AllDigits(s[..n]) && (n < |s| ==> !IsDigit(s[n]))
  {
    if s != [] && IsDigit(s[0]) then
      var n := 1 + DigitRun(s[1..]);
      assert forall i :: 1 <= i < n ==> s[i] == s[1..][i - 1];
      n
    else 0
  }

  predicate StartsDigit(s: bytes) {
    s != [] && IsDigit(s[0])
  }

  /** The whole part: a zero, or digits that do not start with one. */
  function ScanUnsigned(t: bytes): (r: Scan<bytes>)
    ensures r.Ok? ==> |r.rest| < |t|
    ensures r.Err? ==> Fixed(r.reason)
  {
    if !StartsDigit(t) then Err(NoDigitAfterSign)
    else if t[0] == ZERO then
      if StartsDigit(t[1..]) then Err(LeadingZero) else Ok([ZERO], t[1..])
    else Ok(t[..DigitRun(t)], t[DigitRun(t)..])
  }

  function ScanWhole(s: bytes): (r: Scan<(bool, bytes)>)
    ensures r.Ok? ==> |r.rest| < |s|
    ensures r.Err? ==> Fixed(r.reason)
  {
    var neg := s != [] && s[0] == MINUS;
    var u := ScanUnsigned(if neg then s[1..] else s);
    if u.Err? then Err(u.reason) else Ok((neg, u.value), u.rest)
  }

  function ScanFraction(s: bytes): (r: Scan<Option<bytes>>)
    ensures r.Ok? ==> |r.rest| <= |s|
    ensures r.Err? ==> Fixed(r.reason)
  {
    if s != [] && s[0] == POINT then
      if !StartsDigit(s[1..]) then Err(NoDigitAfterPoint)
      else Ok(Some(s[1..][..DigitRun(s[1..])]), s[1..][DigitRun(s[1..])..])
    else Ok(None, s)
  }

  predicate HasSign(s: bytes) {
    s != [] && (s[0] == PLUS || s[0] == MINUS)
  }

  function ScanPower(u: bytes): (r: Scan<(Option<byte>, bytes)>)
    ensures r.Ok? ==> |r.rest| < |u|
    ensures r.Err? ==> Fixed(r.reason)
  {
    var sign := if HasSign(u) then Some(u[0]) else None;
    var t := if HasSign(u) then u[1..] else u;
    if !StartsDigit(t) then Err(NoDigitAfterExponent)
    else Ok((sign, t[..DigitRun(t)]), t[DigitRun(t)..])
  }

  function ScanExponent(s: bytes): (r: Scan<Option<Exponent>>)
    ensures r.Ok? ==> |r.rest| <= |s|
    ensures r.Err? ==> Fixed(r.reason)
  {
    if s != [] && (s[0] == 0x65 || s[0] == 0x45) then
      var p := ScanPower(s[1..]);
      if p.Err? then Err(p.reason) else Ok(Some(Exponent(s[0], p.value.0, p.value.1)), p.rest)
    else Ok(None, s)
  }

  /** `scan_number` once the whitespace is behind it and a sign or a digit is in sight. */
  function ScanToken(s: bytes): (r: Scan<Number>)
    ensures r.Ok? ==> |r.rest| < |s|
    ensures r.Err? ==> Fixed(r.reason)
  {
    var w := ScanWhole(s);
    if w.Err? then Err(w.reason) else
    var f := ScanFraction(w.rest);
    if f.Err? then Err(f.reason) else
    var e := ScanExponent(f.rest);
    if e.Err? then Err(e.reason) else
    Ok(Number(w.value.0, w.value.1, f.value, e.value), e.rest)
  }

  function ScanNumber(s: bytes): (r: Scan<Number>)
    ensures r.Ok? ==> |r.rest| < |s|
    ensures r.Err? ==> Fixed(r.reason)
  {
    var t := SkipSpace(s);
    if t == [] then Err(NumberAtEnd)
    else if t[0] != MINUS && !IsDigit(t[0]) then Err(NotANumber)
    else ScanToken(t)
  }

  // ------------------------------------------------- the scanner is the grammar

  /** What may follow a number: nothing that could continue it. */
  predicate Delimited(rest: bytes) {
    rest == [] || !(IsDigit(rest[0]) || rest[0] == POINT || rest[0] == 0x65 || rest[0] == 0x45)
  }

  lemma {:induction false} DigitRunOver(d: bytes, s: bytes)
    requires AllDigits(d) && !StartsDigit(s)
    ensures DigitRun(d + s) == |d| && (d + s)[..|d|] == d && (d + s)[|d|..] == s
  {
    if d == [] {
      assert d + s == s;
    } else {
      assert (d + s)[1..] == d[1..] + s;
      DigitRunOver(d[1..], s);
    }
  }

  lemma UnsignedScans(whole: bytes, s: bytes)
    requires Digits(whole) && (whole[0] == ZERO ==> |whole| == 1) && !StartsDigit(s)
    ensures ScanUnsigned(whole + s) == Ok(whole, s)
  {
    hide DigitRun;
    DigitRunOver(whole, s);
    if whole[0] == ZERO {
      assert (whole + s)[1..] == s && whole == [ZERO];
    }
  }

  lemma WholeScans(neg: bool, whole: bytes, s: bytes)
    requires Digits(whole) && (whole[0] == ZERO ==> |whole| == 1) && !StartsDigit(s)
    ensures ScanWhole(PrintMantissa(neg, whole) + s) == Ok((neg, whole), s)
  {
    hide ScanUnsigned, DigitRun;
    UnsignedScans(whole, s);
    if neg {
      assert (PrintMantissa(neg, whole) + s)[1..] == whole + s;
    } else {
      assert PrintMantissa(neg, whole) + s == whole + s;
    }
  }

  lemma FractionScans(f: Option<bytes>, s: bytes)
    requires f.Some? ==> Digits(f.value)
    requires !StartsDigit(s) && (f.None? ==> s == [] || s[0] != POINT)
    ensures ScanFraction(PrintFraction(f) + s) == Ok(f, s)
  {
    hide DigitRun;
    if f.Some? {
      DigitRunOver(f.value, s);
      assert (PrintFraction(f) + s)[1..] == f.value + s;
    } else {
      assert PrintFraction(f) + s == s;
    }
  }

  lemma PowerScans(sign: Option<byte>, d: bytes, s: bytes)
    requires Digits(d) && (sign.Some? ==> sign.value == PLUS || sign.value == MINUS) && !StartsDigit(s)
    ensures ScanPower(SignText(sign) + d + s) == Ok((sign, d), s)
  {
    hide DigitRun;
    DigitRunOver(d, s);
    if sign.Some? {
      assert (SignText(sign) + d + s)[1..] == d + s;
    } else {
      assert SignText(sign) + d + s == d + s;
    }
  }

  lemma ExponentScans(e: Option<Exponent>, s: bytes)
    requires e.Some? ==> ValidExponent(e.value)
    requires Delimited(s)
    ensures ScanExponent(PrintExponent(e) + s) == Ok(e, s)
  {
    if e.Some? {
      var power := SignText(e.value.sign) + e.value.digits;
      PowerScans(e.value.sign, e.value.digits, s);
      Front(e.value.marker, power, s);
    } else {
      assert PrintExponent(e) + s == s;
    }
  }

  lemma TailShape(e: Option<Exponent>, rest: bytes)
    requires (e.Some? ==> ValidExponent(e.value)) && Delimited(rest)
    ensures var t := PrintExponent(e) + rest; t == [] || (!IsDigit(t[0]) && t[0] != POINT)
  {
  }

  lemma FractionShape(f: Option<bytes>, t: bytes)
    requires t == [] || !IsDigit(t[0])
    ensures !StartsDigit(PrintFraction(f) + t)
  {
  }

  lemma NumberRegroup(a: bytes, b: bytes, c: bytes, d: bytes)
    ensures a + (b + c) + d == a + (b + (c + d))
  {
  }

  /** Every number of the grammar is consumed exactly when a delimiter follows. */
  lemma ScanTokenComplete(n: Number, rest: bytes)
    requires ValidNumber(n) && Delimited(rest)
    ensures ScanToken(PrintNumber(n) + rest) == Ok(n, rest)
  {
    var tail := PrintExponent(n.exp) + rest;
    TailShape(n.exp, rest);
    FractionShape(n.frac, tail);
    NumberRegroup(PrintMantissa(n.neg, n.whole), PrintFraction(n.frac), PrintExponent(n.exp), rest);
    WholeScans(n.neg, n.whole, PrintFraction(n.frac) + tail);
    FractionScans(n.frac, tail);
    ExponentScans(n.exp, rest);
  }

  lemma ScanNumberSkips(w: bytes, t: bytes)
    requires AllSpace(w) && t != [] && (t[0] == MINUS || IsDigit(t[0]))
    ensures ScanNumber(w + t) == ScanToken(t)
  {
    SkipSpaceOver(w, t);
  }

  lemma NumberStarts(n: Number)
    requires ValidNumber(n)
    ensures PrintNumber(n) != [] && (PrintNumber(n)[0] == MINUS || IsDigit(PrintNumber(n)[0]))
  {
  }

  lemma ScanNumberComplete(w: bytes, n: Number, rest: bytes)
    requires AllSpace(w) && ValidNumber(n) && Delimited(rest)
    ensures ScanNumber(w + PrintNumber(n) + rest) == Ok(n, rest)
  {
    hide ScanNumber, ScanToken, PrintNumber;
    var text := PrintNumber(n);
    NumberStarts(n);
    ScanTokenComplete(n, rest);
    ScanNumberSkips(w, text + rest);
    assert w + text + rest == w + (text + rest);
  }

  lemma UnsignedSound(t: bytes)
    requires ScanUnsigned(t).Ok?
    ensures var whole := ScanUnsigned(t).value;
      Digits(whole) && (whole[0] == ZERO ==> |whole| == 1) && t == whole + ScanUnsigned(t).rest
  {
    hide DigitRun;
    if t[0] != ZERO {
      assert t[..DigitRun(t)][0] == t[0];
    }
  }

  lemma WholeSound(s: bytes)
    requires ScanWhole(s).Ok?
    ensures var (neg, whole) := ScanWhole(s).value;
      Digits(whole) && (whole[0] == ZERO ==> |whole| == 1) && s == PrintMantissa(neg, whole) + ScanWhole(s).rest
  {
    hide ScanUnsigned, DigitRun;
    if s[0] == MINUS {
      UnsignedSound(s[1..]);
      assert s == [MINUS] + s[1..];
    } else {
      UnsignedSound(s);
    }
  }

  lemma FractionSound(s: bytes)
    requires ScanFraction(s).Ok?
    ensures var f := ScanFraction(s).value;
      (f.Some? ==> Digits(f.value)) && s == PrintFraction(f) + ScanFraction(s).rest
  {
    hide DigitRun;
    if s != [] && s[0] == POINT {
      var t := s[1..];
      assert t[..DigitRun(t)] + t[DigitRun(t)..] == t && s == [POINT] + t;
    }
  }

  lemma PowerSound(u: bytes)
    requires ScanPower(u).Ok?
    ensures var (sign, d) := ScanPower(u).value;
      && Digits(d) && (sign.Some? ==> sign.value == PLUS || sign.value == MINUS)
      && u == SignText(sign) + d + ScanPower(u).rest
  {
    hide DigitRun;
    var (sign, d) := ScanPower(u).value;
    if HasSign(u) {
      HeadTail(u);
      Assoc(SignText(sign), d, ScanPower(u).rest);
    } else {
      assert SignText(sign) + d == d;
    }
  }

  lemma ExponentSound(s: bytes)
    requires ScanExponent(s).Ok?
    ensures var e := ScanExponent(s).value;
      (e.Some? ==> ValidExponent(e.value)) && s == PrintExponent(e) + ScanExponent(s).rest
  {
    if s != [] && (s[0] == 0x65 || s[0] == 0x45) {
      PowerSound(s[1..]);
      HeadTail(s);
      var p := ScanPower(s[1..]);
      Front(s[0], SignText(p.value.0) + p.value.1, p.rest);
    }
  }

  /** Every token the scanner takes is a number of the grammar. */
  lemma ScanTokenSound(s: bytes)
    requires ScanToken(s).Ok?
    ensures ValidNumber(ScanToken(s).value) && s == PrintNumber(ScanToken(s).value) + ScanToken(s).rest
  {
    WholeSound(s);
    FractionSound(ScanWhole(s).rest);
    ExponentSound(ScanFraction(ScanWhole(s).rest).rest);
    var n, rest := ScanToken(s).value, ScanToken(s).rest;
    NumberRegroup(PrintMantissa(n.neg, n.whole), PrintFraction(n.frac), PrintExponent(n.exp), rest);
  }

  lemma ScanNumberSound(s: bytes)
    requires ScanNumber(s).Ok?
    ensures ValidNumber(ScanNumber(s).value)
    ensures s == Blank(s) + PrintNumber(ScanNumber(s).value) + ScanNumber(s).rest
  {
    hide ScanToken, PrintNumber, ValidNumber;
    ScanTokenSound(SkipSpace(s));
  }

  /** A number token is ASCII, so a message may quote it. */
  lemma NumberIsAscii(n: Number)
    requires ValidNumber(n)
    ensures Utf8.WellFormed(PrintNumber(n))
  {
    Utf8.AsciiWellFormed(PrintNumber(n));
  }

  // ------------------------------------------------------------------- values

  function DigitsValue(s: bytes): (v: nat)
    requires AllDigits(s)
  {
    if s == [] then 0 else DigitsValue(s[..|s| - 1]) * 10 + (s[|s| - 1] - 0x30)
  }

  function Pow10(e: int): (p: real)
    ensures p > 0.0
    decreases if e < 0 then -e else e
  {
    if e == 0 then 1.0 else if e > 0 then 10.0 * Pow10(e - 1) else Pow10(e + 1) / 10.0
  }

  /** The digits read as an integer, times a power of ten. */
  function Scaled(digits: bytes, e: int): (v: real)
    requires AllDigits(digits)
  {
    DigitsValue(digits) as real * Pow10(e)
  }

  function ExponentValue(e: Option<Exponent>): (v: int)
    requires e.Some? ==> ValidExponent(e.value)
  {
    if e.None? then 0
    else if e.value.sign == Some(MINUS) then -(DigitsValue(e.value.digits) as int)
    else DigitsValue(e.value.digits)
  }

  function FractionDigits(f: Option<bytes>): (d: bytes) {
    if f.None? then [] else f.value
  }

  /** The absolute value a number denotes. */
  function Magnitude(n: Number): (v: real)
    requires ValidNumber(n)
  {
    var f := FractionDigits(n.frac);
    Scaled(n.whole + f, ExponentValue(n.exp) - |f|)
  }

  function IntegerValue(n: Number): (v: int)
    requires ValidNumber(n)
  {
    if n.neg then -(DigitsValue(n.whole) as int) else DigitsValue(n.whole)
  }

  const INT64_MIN: int := -0x8000_0000_0000_0000
  const INT64_MAX: int := 0x7FFF_FFFF_FFFF_FFFF

  predicate IsInt64(v: int) {
    INT64_MIN <= v <= INT64_MAX
  }

  // ----------------------------------------------------------------- integers

  /** `append_int`, by way of `std::to_chars`. */
  function IntNumber(v: int): (n: Number)
    ensures ValidNumber(n) && Integral(n)
  {
    Number(v < 0, NatText(if v < 0 then -v else v), None, None)
  }

  lemma {:induction false} NatTextValue(n: nat)
    ensures DigitsValue(NatText(n)) == n
  {
    if n < 10 {
      assert [ZERO + n][..0] == [];
    } else {
      NatTextValue(n / 10);
      var t := NatText(n / 10);
      assert NatText(n)[..|t|] == t;
    }
  }

  lemma IntNumberValue(v: int)
    ensures IntegerValue(IntNumber(v)) == v
  {
    NatTextValue(if v < 0 then -v else v);
  }

  function PowInt(k: nat): (p: nat)
    ensures p > 0
  {
    if k == 0 then 1 else 10 * PowInt(k - 1)
  }

  lemma {:induction false} NatTextLength(n: nat, k: nat)
    requires k >= 1 && n < PowInt(k)
    ensures |NatText(n)| <= k
  {
    if n >= 10 {
      assert k != 1;
      NatTextLength(n / 10, k - 1);
    }
  }

  /** An int64 takes at most twenty bytes, sign included. */
  lemma IntTextLength(v: int)
    requires IsInt64(v)
    ensures 1 <= |PrintNumber(IntNumber(v))| <= 20
  {
    assert PowInt(19) == 1000_0000_0000_0000_0000 by {
      assert PowInt(4) == 1_0000;
      assert PowInt(8) == 1_0000_0000;
      assert PowInt(12) == 1_0000_0000_0000;
      assert PowInt(16) == 1_0000_0000_0000_0000;
    }
    NatTextLength(if v < 0 then -v else v, 19);
  }

  // ------------------------------------------------------------------ doubles

  /** A double as `std::to_chars` describes it: the shortest digits that identify it, and the power
      of ten of the first one. */
  datatype Double = Finite(neg: bool, digits: bytes, exponent: int) | Infinity(neg: bool) | NaN

  predicate ValidDouble(d: Double) {
    d.Finite? ==>
      && 1 <= |d.digits| <= 17 && AllDigits(d.digits)
      && (d.digits[0] == ZERO ==> d.digits == [ZERO] && d.exponent == 0)
      && (|d.digits| > 1 ==> d.digits[|d.digits| - 1] != ZERO)
      && -324 <= d.exponent <= 308
  }

  /** A double that is a number. */
  predicate IsNumber(d: Double) {
    d.Finite? && ValidDouble(d)
  }

  function DoubleMagnitude(d: Double): (v: real)
    requires d.Finite? && ValidDouble(d)
  {
    Scaled(d.digits, d.exponent - (|d.digits| - 1))
  }

  function Zeros(k: nat): (s: bytes)
    ensures |s| == k && AllDigits(s) && (forall i :: 0 <= i < k ==> s[i] == ZERO)
  {
    seq(k, _ => ZERO)
  }

  /** The three layouts of `format_double`: fixed at or above one, fixed below one, scientific. */
  function Layout(d: Double): (n: Number)
    requires d.Finite? && ValidDouble(d)
  {
    var digits, e := d.digits, d.exponent;
    if 0 <= e < 16 then
      if |digits| > e + 1 then Number(d.neg, digits[..e + 1], Some(digits[e + 1..]), None)
      else Number(d.neg, digits + Zeros(e + 1 - |digits|), Some([ZERO]), None)
    else if -5 <= e < 0 then Number(d.neg, [ZERO], Some(Zeros(-e - 1) + digits), None)
    else
      Number(d.neg, [digits[0]], if |digits| > 1 then Some(digits[1..]) else None,
        Some(Exponent(LOWER_E, Some(if e >= 0 then PLUS else MINUS), NatText(if e >= 0 then e else -e))))
  }

  lemma LayoutValid(d: Double)
    requires d.Finite? && ValidDouble(d)
    ensures ValidNumber(Layout(d)) && !Integral(Layout(d)) && Layout(d).neg == d.neg
  {
  }

  lemma SmallNatText(n: nat)
    requires n < 1000
    ensures |NatText(n)| <= 3
  {
    if n >= 10 {
      assert |NatText(n)| == |NatText(n / 10)| + 1;
      if n / 10 >= 10 {
        assert |NatText(n / 10)| == |NatText(n / 10 / 10)| + 1;
      }
    }
  }

  /** The text never needs more than 24 bytes. */
  lemma LayoutLength(d: Double)
    requires d.Finite? && ValidDouble(d)
    ensures |PrintNumber(Layout(d))| <= 24
  {
    if !(-5 <= d.exponent < 16) {
      SmallNatText(if d.exponent >= 0 then d.exponent else -d.exponent);
    }
  }

  /** A zero appended to the digits is a power of ten taken from the exponent. */
  lemma {:induction false} AppendZero(s: bytes, e: int)
    requires AllDigits(s)
    ensures Scaled(s + [ZERO], e) == Scaled(s, e + 1)
  {
    assert (s + [ZERO])[..|s|] == s;
    assert DigitsValue(s + [ZERO]) == DigitsValue(s) * 10;
    NextPower(e);
    assert DigitsValue(s) as real * 10.0 * Pow10(e) == DigitsValue(s) as real * (10.0 * Pow10(e));
  }

  lemma NextPower(e: int)
    ensures Pow10(e + 1) == 10.0 * Pow10(e)
  {
  }

  lemma {:induction false} ShiftDigits(s: bytes, k: nat, e: int)
    requires AllDigits(s)
    ensures Scaled(s + Zeros(k), e) == Scaled(s, e + k)
  {
    if k == 0 {
      assert s + Zeros(0) == s;
    } else {
      assert s + Zeros(k) == s + Zeros(k - 1) + [ZERO];
      AppendZero(s + Zeros(k - 1), e);
      ShiftDigits(s, k - 1, e + 1);
    }
  }

  lemma {:induction false} LeadingZeros(k: nat, s: bytes)
    requires AllDigits(s)
    ensures DigitsValue(Zeros(k) + s) == DigitsValue(s)
    decreases k + |s|
  {
    var t := Zeros(k) + s;
    if s == [] {
      if k > 0 {
        assert t[..|t| - 1] == Zeros(k - 1) + s;
        LeadingZeros(k - 1, s);
      }
    } else {
      assert t[..|t| - 1] == Zeros(k) + s[..|s| - 1];
      LeadingZeros(k, s[..|s| - 1]);
    }
  }

  lemma ScaledLeadingZeros(k: nat, s: bytes, e: int)
    requires AllDigits(s)
    ensures Scaled(Zeros(k) + s, e) == Scaled(s, e)
  {
    LeadingZeros(k, s);
  }

  lemma FixedValue(d: Double)
    requires d.Finite? && ValidDouble(d) && 0 <= d.exponent < 16
    ensures ValidNumber(Layout(d)) && Magnitude(Layout(d)) == DoubleMagnitude(d)
  {
    hide Scaled, Pow10, DigitsValue;
    LayoutValid(d);
    var digits, n := d.digits, Layout(d);
    var k := d.exponent + 1 - |digits|;
    if k < 0 {
      assert n.whole + FractionDigits(n.frac) == digits;
    } else {
      assert n.whole + FractionDigits(n.frac) == digits + Zeros(k + 1);
      ShiftDigits(digits, k + 1, -1);
    }
  }

  lemma SmallValue(d: Double)
    requires d.Finite? && ValidDouble(d) && -5 <= d.exponent < 0
    ensures ValidNumber(Layout(d)) && Magnitude(Layout(d)) == DoubleMagnitude(d)
  {
    hide Scaled, Pow10, DigitsValue;
    LayoutValid(d);
    var n := Layout(d);
    assert n.whole + FractionDigits(n.frac) == Zeros(-d.exponent) + d.digits;
    ScaledLeadingZeros(-d.exponent, d.digits, d.exponent - (|d.digits| - 1));
  }

  lemma ScientificValue(d: Double)
    requires d.Finite? && ValidDouble(d) && !(-5 <= d.exponent < 16)
    ensures ValidNumber(Layout(d)) && Magnitude(Layout(d)) == DoubleMagnitude(d)
  {
    hide Scaled, Pow10, Layout, DigitsValue, NatText, ExponentValue;
    LayoutValid(d);
    ScientificDigits(d);
    ScientificPower(d);
  }

  lemma ScientificDigits(d: Double)
    requires d.Finite? && ValidDouble(d) && !(-5 <= d.exponent < 16)
    ensures var n := Layout(d);
      n.whole + FractionDigits(n.frac) == d.digits && |FractionDigits(n.frac)| == |d.digits| - 1
  {
    hide NatText;
  }

  lemma ScientificPower(d: Double)
    requires d.Finite? && ValidDouble(d) && !(-5 <= d.exponent < 16)
    ensures ValidNumber(Layout(d)) && ExponentValue(Layout(d).exp) == d.exponent
  {
    hide NatText, DigitsValue;
    LayoutValid(d);
    NatTextValue(if d.exponent >= 0 then d.exponent else -d.exponent);
  }

  /** The laid-out text denotes exactly the decimal value of the digits, on all three branches. */
  lemma LayoutValue(d: Double)
    requires d.Finite? && ValidDouble(d)
    ensures ValidNumber(Layout(d)) && Magnitude(Layout(d)) == DoubleMagnitude(d)
  {
    if 0 <= d.exponent < 16 {
      FixedValue(d);
    } else if d.exponent < 0 && -5 <= d.exponent {
      SmallValue(d);
    } else {
      ScientificValue(d);
    }
  }

  /** What `format_double` writes is a number of the grammar, short, read back whole as non-integral, and equal in
      sign and value to what was written. */
  lemma FormattedDoubleScans(d: Double, rest: bytes)
    requires d.Finite? && ValidDouble(d) && Delimited(rest)
    ensures var text, r := PrintNumber(Layout(d)), ScanNumber(PrintNumber(Layout(d)) + rest);
      && |text| <= 24 && r == Ok(Layout(d), rest) && ValidNumber(r.value) && !Integral(r.value)
      && r.value.neg == d.neg && Magnitude(r.value) == DoubleMagnitude(d)
  {
    hide Layout, PrintNumber, ScanNumber, Magnitude, DoubleMagnitude;
    LayoutValid(d);
    LayoutLength(d);
    LayoutValue(d);
    ScanNumberComplete([], Layout(d), rest);
    assert [] + PrintNumber(Layout(d)) == PrintNumber(Layout(d));
  }

  // ------------------------------------------- shortest digits identify a double

  lemma {:induction false} LeadingDigitPositive(s: bytes)
    requires Digits(s) && s[0] != ZERO
    ensures DigitsValue(s) >= 1
  {
    if |s| > 1 {
      LeadingDigitPositive(s[..|s| - 1]);
    }
  }

  lemma {:induction false} SameDigits(s: bytes, t: bytes)
    requires Digits(s) && Digits(t) && s[0] != ZERO && t[0] != ZERO && DigitsValue(s) == DigitsValue(t)
    ensures s == t
  {
    var a, b := s[..|s| - 1], t[..|t| - 1];
    assert DigitsValue(a) == DigitsValue(b) && s[|s| - 1] == t[|t| - 1];
    if a != [] {
      LeadingDigitPositive(a);
    }
    if b != [] {
      LeadingDigitPositive(b);
    }
    if a != [] && b != [] {
      SameDigits(a, b);
    }
    assert s == a + [s[|s| - 1]] && t == b + [t[|t| - 1]];
  }

  lemma Cancel(a: real, b: real, p: real)
    requires p > 0.0 && a * p == b * p
    ensures a == b
  {
    assert a * p / p == a && b * p / p == b;
  }

  lemma CancelScale(s: bytes, t: bytes, e: int)
    requires AllDigits(s) && AllDigits(t) && Scaled(s, e) == Scaled(t, e)
    ensures DigitsValue(s) == DigitsValue(t)
  {
    hide DigitsValue, Pow10;
    Cancel(DigitsValue(s) as real, DigitsValue(t) as real, Pow10(e));
  }

  lemma ShiftedEndsInZero(s: bytes, p: int, t: bytes, k: nat)
    requires Digits(s) && Digits(t) && k >= 1 && Scaled(s, p) == Scaled(t, p + k)
    ensures s[|s| - 1] == ZERO
  {
    hide Scaled;
    ShiftDigits(t, k, p);
    var u := t + Zeros(k);
    CancelScale(s, u, p);
    assert u[|u| - 1] == ZERO;
  }

  /** Digits that do not end in zero are not a multiple of ten. */
  lemma NoLowerPower(s: bytes, p: int, t: bytes, q: int)
    requires Digits(s) && Digits(t) && s[|s| - 1] != ZERO && Scaled(s, p) == Scaled(t, q)
    ensures q <= p
  {
    hide Scaled;
    if q > p {
      ShiftedEndsInZero(s, p, t, q - p);
    }
  }

  lemma {:induction false} ZeroIsZero(d: Double)
    requires d.Finite? && ValidDouble(d)
    ensures DoubleMagnitude(d) == 0.0 <==> d.digits == [ZERO]
  {
    if d.digits[0] != ZERO {
      LeadingDigitPositive(d.digits);
      assert DigitsValue(d.digits) as real * Pow10(d.exponent - (|d.digits| - 1)) > 0.0;
    } else {
      assert d.digits[..0] == [];
    }
  }

  /** Two doubles with the same sign and decimal value are the same double. */
  lemma DoubleUnique(c: Double, d: Double)
    requires c.Finite? && d.Finite? && ValidDouble(c) && ValidDouble(d)
    requires c.neg == d.neg && DoubleMagnitude(c) == DoubleMagnitude(d)
    ensures c == d
  {
    hide Scaled;
    ZeroIsZero(c);
    ZeroIsZero(d);
    if c.digits != [ZERO] {
      var p, q := c.exponent - (|c.digits| - 1), d.exponent - (|d.digits| - 1);
      NoLowerPower(c.digits, p, d.digits, q);
      NoLowerPower(d.digits, q, c.digits, p);
      CancelScale(c.digits, d.digits, p);
      SameDigits(c.digits, d.digits);
    }
  }
}
