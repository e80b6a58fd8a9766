/** Whatever the field readers accept is a well-typed value of the RFC 8259 grammar. */
module WireSoundness {
  import opened Bytes
  import opened Errors
  import opened JsonStrings
  import opened JsonNumbers
  import opened JsonGrammar
  import opened WireKeys
  import opened WireText
  import opened WireGrammar

  lemma NextSound(s: bytes, first: bool, close: byte)
    requires (close == CLOSE_BRACE || close == CLOSE_BRACKET) && Next(s, first, close).Ok?
    ensures var m := Next(s, first, close);
      && (!m.value ==> s == Blank(s) + ([close] + m.rest))
      && (m.value && !first ==> s == Blank(s) + ([COMMA] + m.rest))
      && (m.value && first ==> s == Blank(s) + m.rest && SkipSpace(s) == m.rest)
  {
    HeadTail(SkipSpace(s));
  }

  lemma ExpectSound(c: byte, s: bytes)
    requires c < 128 && Expect(c, s).Ok?
    ensures s == Blank(s) + ([c] + Expect(c, s).rest)
  {
    HeadTail(SkipSpace(s));
  }

  lemma DoubleSound(fc: FromChars, s: bytes, x: Double, rest: bytes) returns (v: Value)
    requires ReadDouble(fc, s) == Ok(x, rest)
    ensures ValidValue(v) && NumberOf(fc, v) == Some(x) && s == Blank(s) + PrintValue(v) + rest
  {
    ScanNumberSound(s);
    v := Num(ScanNumber(s).value);
  }

  lemma ConsElem(w: bytes, e: Elem, es: seq<Elem>, rest: bytes)
    requires ValidElem(e) && ValidElems(es)
    ensures ValidElems([e] + es)
    ensures ElemTail(w, [e] + es, rest) == w + ([COMMA] + ElemText(e.before, e, es, rest))
    ensures Elems([], [e] + es, rest) == ElemText(e.before, e, es, rest)
  {
    assert ([e] + es)[1..] == es;
    ElemTailCons(w, [e] + es, rest);
  }

  lemma NoMoreElems(w: bytes, rest: bytes)
    ensures ElemTail(w, [], rest) == w + ([CLOSE_BRACKET] + rest) == Elems(w, [], rest)
  {
    assert [] + ([CLOSE_BRACKET] + rest) == [CLOSE_BRACKET] + rest;
  }

  lemma ConsNumbers(fc: FromChars, e: Elem, es: seq<Elem>)
    requires ValidElem(e) && ValidElems(es) && NumberOf(fc, e.value).Some? && AllNumbers(fc, es)
    ensures ValidElems([e] + es) && AllNumbers(fc, [e] + es)
    ensures NumbersOf(fc, [e] + es) == [NumberOf(fc, e.value).value] + NumbersOf(fc, es)
  {
    assert ([e] + es)[1..] == es;
  }

  lemma NoNumbers(fc: FromChars)
    ensures AllNumbers(fc, []) && NumbersOf(fc, []) == []
  {
  }

  lemma {:induction false} BoundsSound(fc: FromChars, s: bytes, n: nat, xs: seq<Double>, mid: bytes, rest: bytes)
    returns (w: bytes, es: seq<Elem>)
    requires ReadBounds(fc, s, false, n) == Ok(xs, mid) && Next(mid, false, CLOSE_BRACKET) == Ok(false, rest)
    ensures AllSpace(w) && ValidElems(es) && AllNumbers(fc, es) && NumbersOf(fc, es) == xs
    ensures s == ElemTail(w, es, rest)
    decreases n, 1
  {
    hide NumberOf, AllNumbers, ElemTail, Next;
    hide ReadDouble;
    w := Blank(s);
    if n == 0 {
      es := [];
      assert AllNumbers(fc, es) && NumbersOf(fc, es) == [] by { NoNumbers(fc); }
      NextSound(s, false, CLOSE_BRACKET);
      NoMoreElems(w, rest);
    } else {
      NextSound(s, false, CLOSE_BRACKET);
      var u, t := BoundsInverse(fc, s, false, n, xs, mid);
      var e, tail := FirstBound(fc, u, xs[0], t, n - 1, xs[1..], mid, rest);
      es := [e] + tail;
      ConsElem(w, e, tail, rest);
      ConsNumbers(fc, e, tail);
    }
  }

  lemma {:induction false} FirstBound(fc: FromChars, u: bytes, x: Double, t: bytes, n: nat, xs: seq<Double>, mid: bytes, rest: bytes)
    returns (e: Elem, es: seq<Elem>)
    requires ReadDouble(fc, u) == Ok(x, t) && ReadBounds(fc, t, false, n) == Ok(xs, mid)
    requires Next(mid, false, CLOSE_BRACKET) == Ok(false, rest)
    ensures ValidElem(e) && ValidElems(es) && NumberOf(fc, e.value) == Some(x) && AllNumbers(fc, es) && NumbersOf(fc, es) == xs
    ensures e.before == Blank(u) && u == ElemText(e.before, e, es, rest)
    decreases n, 2
  {
    var v := DoubleSound(fc, u, x, t);
    var w, tail := BoundsSound(fc, t, n, xs, mid, rest);
    e := MakeElem(u, v, t, w, tail, rest);
    es := tail;
  }

  lemma MakeElem(u: bytes, v: Value, t: bytes, w: bytes, tail: seq<Elem>, rest: bytes) returns (e: Elem)
    requires ValidValue(v) && AllSpace(w) && ValidElems(tail)
    requires u == Blank(u) + PrintValue(v) + t && t == ElemTail(w, tail, rest)
    ensures e == Elem(Blank(u), v, w) && ValidElem(e) && u == ElemText(e.before, e, tail, rest)
  {
    e := Elem(Blank(u), v, w);
  }

  lemma BoundsInverse(fc: FromChars, s: bytes, first: bool, n: nat, xs: seq<Double>, mid: bytes) returns (u: bytes, t: bytes)
    requires n > 0 && ReadBounds(fc, s, first, n) == Ok(xs, mid)
    ensures |xs| == n && Next(s, first, CLOSE_BRACKET) == Ok(true, u) && ReadDouble(fc, u) == Ok(xs[0], t)
    ensures ReadBounds(fc, t, false, n - 1) == Ok(xs[1..], mid)
  {
    u := Next(s, first, CLOSE_BRACKET).rest;
    t := ReadDouble(fc, u).rest;
    assert xs[1..] == ReadBounds(fc, t, false, n - 1).value;
  }

  lemma ArraySound(s: bytes, u: bytes, pad: bytes, es: seq<Elem>, rest: bytes) returns (v: Value)
    requires s == Blank(s) + ([OPEN_BRACKET] + u) && AllSpace(pad) && ValidElems(es) && u == Elems(pad, es, rest)
    ensures v == Arr(pad, es) && ValidValue(v) && s == Blank(s) + PrintValue(v) + rest
  {
    v := Arr(pad, es);
    ArrayText(pad, es, rest);
    Assoc(Blank(s), PrintValue(v), rest);
  }

  lemma RangeSound(fc: FromChars, s: bytes, x: PriceRange, rest: bytes) returns (v: Value)
    requires ReadRange(fc, s) == Ok(x, rest)
    ensures ValidValue(v) && IsRange(fc, v) && RangeOf(fc, v) == x && s == Blank(s) + PrintValue(v) + rest
  {
    ExpectSound(OPEN_BRACKET, s);
    var u, xs, mid := RangeInverse(fc, s, x, rest);
    var es := FirstBoundsSound(fc, u, 3, xs, mid, rest);
    v := ArraySound(s, u, [], es, rest);
  }

  lemma RangeInverse(fc: FromChars, s: bytes, x: PriceRange, rest: bytes) returns (u: bytes, xs: seq<Double>, mid: bytes)
    requires ReadRange(fc, s) == Ok(x, rest)
    ensures Expect(OPEN_BRACKET, s) == Ok((), u) && ReadBounds(fc, u, true, 3) == Ok(xs, mid)
    ensures Next(mid, false, CLOSE_BRACKET) == Ok(false, rest)
    ensures |xs| == 3 && x == PriceRange(xs[0], xs[1], xs[2])
  {
    u := Expect(OPEN_BRACKET, s).rest;
    var r := ReadBounds(fc, u, true, 3);
    xs, mid := r.value, r.rest;
  }

  lemma FirstBoundsSound(fc: FromChars, s: bytes, n: nat, xs: seq<Double>, mid: bytes, rest: bytes) returns (es: seq<Elem>)
    requires n > 0
    requires ReadBounds(fc, s, true, n) == Ok(xs, mid) && Next(mid, false, CLOSE_BRACKET) == Ok(false, rest)
    ensures ValidElems(es) && AllNumbers(fc, es) && NumbersOf(fc, es) == xs && s == Elems([], es, rest)
  {
    hide ReadBounds, Next, NumberOf, ElemText, Elems, AllNumbers, NumbersOf;
    hide ReadDouble;
    var u, t := BoundsInverse(fc, s, true, n, xs, mid);
    var e, tail := FirstBound(fc, u, xs[0], t, n - 1, xs[1..], mid, rest);
    NextSound(s, true, CLOSE_BRACKET);
    es := FirstElem(s, e, tail, rest);
    ConsNumbers(fc, es[0], tail);
    assert [xs[0]] + xs[1..] == xs;
  }

  /** The whitespace before the first element is skipped early; it belongs to the element. */
  lemma FirstElem(s: bytes, e: Elem, tail: seq<Elem>, rest: bytes) returns (es: seq<Elem>)
    requires ValidElem(e) && ValidElems(tail)
    requires SkipSpace(s) == ElemText(e.before, e, tail, rest) && e.before == Blank(SkipSpace(s))
    ensures es == [e.(before := Blank(s))] + tail && ValidElems(es) && s == Elems([], es, rest)
  {
    var t := SkipSpace(s);
    assert e.before == [] by { SkipTwice(s); }
    var d := e.(before := Blank(s));
    es := [d] + tail;
    ConsElem([], d, tail, rest);
    assert [] + PrintValue(e.value) == PrintValue(e.value);
    Assoc(Blank(s), PrintValue(e.value), ElemTail(e.after, tail, rest));
  }

  lemma ConsRanges(fc: FromChars, e: Elem, es: seq<Elem>)
    requires ValidElem(e) && ValidElems(es) && IsRange(fc, e.value) && AllRanges(fc, es)
    ensures ValidElems([e] + es) && AllRanges(fc, [e] + es)
    ensures RangesOf(fc, [e] + es) == [RangeOf(fc, e.value)] + RangesOf(fc, es)
  {
    hide RangeOf, IsRange;
    assert ([e] + es)[1..] == es;
  }

  lemma {:induction false} RangesTailSound(fc: FromChars, s: bytes, rs: seq<PriceRange>, rest: bytes)
    returns (w: bytes, es: seq<Elem>)
    requires ReadRangesRest(fc, s, false) == Ok(rs, rest)
    ensures AllSpace(w) && ValidElems(es) && AllRanges(fc, es) && RangesOf(fc, es) == rs
    ensures s == ElemTail(w, es, rest)
    decreases |s|, 1
  {
    w := Blank(s);
    NextSound(s, false, CLOSE_BRACKET);
    if Next(s, false, CLOSE_BRACKET).value {
      var e, tail := FirstRange(fc, s, false, rs, rest);
      es := [e] + tail;
      ConsElem(w, e, tail, rest);
      ConsRanges(fc, e, tail);
    } else {
      es := [];
      NoMoreElems(w, rest);
    }
  }

  lemma {:induction false} FirstRange(fc: FromChars, s: bytes, first: bool, rs: seq<PriceRange>, rest: bytes)
    returns (e: Elem, es: seq<Elem>)
    requires ReadRangesRest(fc, s, first) == Ok(rs, rest) && Next(s, first, CLOSE_BRACKET).value
    ensures ValidElem(e) && ValidElems(es) && IsRange(fc, e.value) && AllRanges(fc, es)
    ensures [RangeOf(fc, e.value)] + RangesOf(fc, es) == rs
    ensures e.before == Blank(Next(s, first, CLOSE_BRACKET).rest)
    ensures Next(s, first, CLOSE_BRACKET) == Ok(true, ElemText(e.before, e, es, rest))
    decreases |s|, 0
  {
    var u := Next(s, first, CLOSE_BRACKET).rest;
    var x := ReadRange(fc, u);
    var v := RangeSound(fc, u, x.value, x.rest);
    var w, tail := RangesTailSound(fc, x.rest, rs[1..], rest);
    e := MakeElem(u, v, x.rest, w, tail, rest);
    es := tail;
  }

  lemma RangesSound(fc: FromChars, s: bytes, rs: seq<PriceRange>, rest: bytes) returns (v: Value)
    requires ReadRanges(fc, s) == Ok(rs, rest)
    ensures ValidValue(v) && v.Arr? && AllRanges(fc, v.elems) && RangesOf(fc, v.elems) == rs
    ensures s == Blank(s) + PrintValue(v) + rest
  {
    ExpectSound(OPEN_BRACKET, s);
    var u := Expect(OPEN_BRACKET, s).rest;
    NextSound(u, true, CLOSE_BRACKET);
    if Next(u, true, CLOSE_BRACKET).value {
      var e, tail := FirstRange(fc, u, true, rs, rest);
      var es := FirstElem(u, e, tail, rest);
      ConsRanges(fc, es[0], tail);
      v := ArraySound(s, u, [], es, rest);
    } else {
      NoMoreElems(Blank(u), rest);
      v := ArraySound(s, u, Blank(u), [], rest);
    }
  }

  lemma LiteralSound(s: bytes, token: bytes)
    requires StartsWith(SkipSpace(s), token)
    ensures s == Blank(s) + token + SkipSpace(s)[|token|..]
  {
    var t := SkipSpace(s);
    assert t == token + t[|token|..];
    Assoc(Blank(s), token, t[|token|..]);
  }

  lemma StringSound(s: bytes, v: bytes, rest: bytes) returns (r: Value)
    requires ScanString(s) == Ok(v, rest)
    ensures r.Str? && ValidValue(r) && DenotePieces(r.pieces) == v && s == Blank(s) + PrintValue(r) + rest
  {
    var ps := ScanStringSound(s, v, rest);
    r := Str(ps);
  }

  lemma IntSound(s: bytes, i: int, rest: bytes) returns (v: Value)
    requires ReadInt(s) == Ok(i, rest)
    ensures v.Num? && ValidValue(v) && Integral(v.n) && IsInt64(i) && IntegerValue(v.n) == i
    ensures s == Blank(s) + PrintValue(v) + rest
  {
    ScanNumberSound(s);
    v := Num(ScanNumber(s).value);
  }

  lemma BoolSound(s: bytes, b: bool, rest: bytes) returns (v: Value)
    requires ReadBool(s) == Ok(b, rest)
    ensures v == (if b then True else False) && s == Blank(s) + PrintValue(v) + rest
  {
    v := if b then True else False;
    LiteralSound(s, PrintValue(v));
  }

  lemma ReasonSound(s: bytes, o: Option<bytes>, rest: bytes) returns (v: Value)
    requires ReadReason(s) == Ok(o, rest)
    ensures ValidValue(v) && s == Blank(s) + PrintValue(v) + rest
    ensures (v.Null? && o == None) || (v.Str? && o == Some(DenotePieces(v.pieces)))
  {
    if o.None? {
      v := Null;
      LiteralSound(s, NULL);
    } else {
      v := StringSound(s, o.value, rest);
    }
  }

  /** Every value a field reader accepts is one of the grammar, well-typed for the key. */
  lemma FieldSound(fc: FromChars, k: Key, s: bytes, f: FieldValue, rest: bytes) returns (v: Value)
    requires ReadField(fc, k, s) == Ok(f, rest)
    ensures ValidValue(v) && WellTyped(fc, KindOf(k), v) && FieldOf(fc, KindOf(k), v) == f
    ensures s == Blank(s) + PrintValue(v) + rest
  {
    hide ScanString, ReadInt, ReadDouble, ReadBool, ReadRanges, ReadReason, DenotePieces, NumberOf, AllRanges;
    match KindOf(k)
    case IntKind => v := IntSound(s, f.i, rest);
    case DoubleKind => v := DoubleSound(fc, s, f.x, rest);
    case BoolKind => v := BoolSound(s, f.b, rest);
    case RangesKind => v := RangesSound(fc, s, f.ranges, rest);
    case ReasonKind => v := ReasonSound(s, f.reason, rest);
    case _ => v := StringSound(s, ScanString(s).value, rest);
  }
}
