/** The field readers accept exactly the well-typed values of the RFC 8259 grammar. */
module WireGrammar {
  import opened Bytes
  import opened Errors
  import opened JsonStrings
  import opened JsonNumbers
  import opened JsonGrammar
  import opened WireKeys
  import opened WireText

  // ------------------------------------------------- well-typed grammar values

  function NumberOf(fc: FromChars, v: Value): (x: Option<Double>)
    requires ValidValue(v)
  {
    if v.Num? then fc(v.n.neg, Magnitude(v.n)) else None
  }

  predicate AllNumbers(fc: FromChars, es: seq<Elem>)
    requires ValidElems(es)
  {
    forall i :: 0 <= i < |es| ==> NumberOf(fc, es[i].value).Some?
  }

  function NumbersOf(fc: FromChars, es: seq<Elem>): (xs: seq<Double>)
    requires ValidElems(es) && AllNumbers(fc, es)
    ensures |xs| == |es|
  {
    seq(|es|, i requires 0 <= i < |es| => NumberOf(fc, es[i].value).value)
  }

  /** An array of exactly three numbers in range. */
  predicate IsRange(fc: FromChars, v: Value)
    requires ValidValue(v)
  {
    v.Arr? && |v.elems| == 3 && AllNumbers(fc, v.elems)
  }

  function RangeOf(fc: FromChars, v: Value): (r: PriceRange)
    requires ValidValue(v) && IsRange(fc, v)
  {
    var xs := NumbersOf(fc, v.elems);
    PriceRange(xs[0], xs[1], xs[2])
  }

  predicate AllRanges(fc: FromChars, es: seq<Elem>)
    requires ValidElems(es)
  {
    forall i :: 0 <= i < |es| ==> IsRange(fc, es[i].value)
  }

  function RangesOf(fc: FromChars, es: seq<Elem>): (rs: seq<PriceRange>)
    requires ValidElems(es) && AllRanges(fc, es)
    ensures |rs| == |es|
  {
    seq(|es|, i requires 0 <= i < |es| => RangeOf(fc, es[i].value))
  }

  /** A value of the type its key calls for, in range. */
  predicate WellTyped(fc: FromChars, t: Kind, v: Value)
    requires ValidValue(v)
  {
    match t
    case IntKind => v.Num? && Integral(v.n) && IsInt64(IntegerValue(v.n))
    case StringKind => v.Str?
    case DirectionKind => v.Str? && (DenotePieces(v.pieces) == YES || DenotePieces(v.pieces) == NO)
    case DoubleKind => NumberOf(fc, v).Some?
    case BoolKind => v.True? || v.False?
    case RangesKind => v.Arr? && AllRanges(fc, v.elems)
    case StatusKind => v.Str? && (DenotePieces(v.pieces) == ACCEPTED || DenotePieces(v.pieces) == REJECTED)
    case ReasonKind => v.Null? || v.Str?
  }

  function FieldOf(fc: FromChars, t: Kind, v: Value): (f: FieldValue)
    requires ValidValue(v) && WellTyped(fc, t, v)
    ensures HasKind(f, t)
  {
    match t
    case IntKind => IntField(IntegerValue(v.n))
    case StringKind => StringField(DenotePieces(v.pieces))
    case DirectionKind => DirectionField(if DenotePieces(v.pieces) == YES then Yes else No)
    case DoubleKind => DoubleField(NumberOf(fc, v).value)
    case BoolKind => BoolField(v.True?)
    case RangesKind => RangesField(RangesOf(fc, v.elems))
    case StatusKind => StatusField(if DenotePieces(v.pieces) == ACCEPTED then Accepted else Rejected)
    case ReasonKind => ReasonField(if v.Null? then None else Some(DenotePieces(v.pieces)))
  }

  /** What follows a value inside an array or an object. */
  predicate Follows(rest: bytes) {
    rest != [] && (IsSpace(rest[0]) || rest[0] == COMMA || rest[0] == CLOSE_BRACE || rest[0] == CLOSE_BRACKET)
  }

  lemma ValueStarts(v: Value)
    requires ValidValue(v)
    ensures PrintValue(v) != [] && !IsSpace(PrintValue(v)[0])
    ensures PrintValue(v)[0] != CLOSE_BRACKET && PrintValue(v)[0] != CLOSE_BRACE && PrintValue(v)[0] != COMMA
  {
    if v.Num? {
      NumberStarts(v.n);
    }
  }

  // ------------------------------------------------------------ array elements

  /** The rest of an array after an element: whitespace, more elements, the bracket, what follows. */
  function ElemTail(w: bytes, es: seq<Elem>, rest: bytes): (s: bytes)
    requires ValidElems(es)
  {
    w + (PrintElemTail(es) + ([CLOSE_BRACKET] + rest))
  }

  lemma ElemTailFollows(w: bytes, es: seq<Elem>, rest: bytes)
    requires AllSpace(w) && ValidElems(es)
    ensures Follows(ElemTail(w, es, rest))
  {
  }

  /** An element with the tail after it. */
  function ElemText(before: bytes, e: Elem, es: seq<Elem>, rest: bytes): (s: bytes)
    requires ValidElem(e) && ValidElems(es)
  {
    before + PrintValue(e.value) + ElemTail(e.after, es, rest)
  }

  lemma SixParts(w: bytes, c: byte, a: bytes, b: bytes, d: bytes, t: bytes, r: bytes)
    ensures w + ([c] + (a + b + d) + t + r) == w + ([c] + (a + b + (d + (t + r))))
  {
  }

  lemma ElemTailCons(w: bytes, es: seq<Elem>, rest: bytes)
    requires ValidElems(es) && es != []
    ensures ElemTail(w, es, rest) == w + ([COMMA] + ElemText(es[0].before, es[0], es[1..], rest))
  {
    var e := es[0];
    assert PrintElemTail(es) == [COMMA] + PrintElem(e) + PrintElemTail(es[1..]);
    assert PrintElem(e) == e.before + PrintValue(e.value) + e.after;
    SixParts(w, COMMA, e.before, PrintValue(e.value), e.after, PrintElemTail(es[1..]), [CLOSE_BRACKET] + rest);
  }

  lemma NextStops(w: bytes, first: bool, close: byte, rest: bytes)
    requires AllSpace(w) && (close == CLOSE_BRACE || close == CLOSE_BRACKET)
    ensures Next(w + ([close] + rest), first, close) == Ok(false, rest)
  {
    SkipSpaceOver(w, [close] + rest);
    assert ([close] + rest)[1..] == rest;
  }

  lemma NextComma(w: bytes, close: byte, rest: bytes)
    requires AllSpace(w) && (close == CLOSE_BRACE || close == CLOSE_BRACKET)
    ensures Next(w + ([COMMA] + rest), false, close) == Ok(true, rest)
  {
    SkipSpaceOver(w, [COMMA] + rest);
    assert ([COMMA] + rest)[1..] == rest;
  }

  lemma NextFirst(w: bytes, close: byte, t: bytes)
    requires AllSpace(w) && (close == CLOSE_BRACE || close == CLOSE_BRACKET)
    requires t != [] && !IsSpace(t[0]) && t[0] != close
    ensures Next(w + t, true, close) == Ok(true, t)
  {
    SkipSpaceOver(w, t);
  }

  lemma NextInTail(w: bytes, es: seq<Elem>, rest: bytes)
    requires AllSpace(w) && ValidElems(es)
    ensures Next(ElemTail(w, es, rest), false, CLOSE_BRACKET) ==
      if es == [] then Ok(false, rest) else Ok(true, ElemText(es[0].before, es[0], es[1..], rest))
  {
    if es == [] {
      assert PrintElemTail(es) + ([CLOSE_BRACKET] + rest) == [CLOSE_BRACKET] + rest;
      NextStops(w, false, CLOSE_BRACKET, rest);
    } else {
      ElemTailCons(w, es, rest);
      NextComma(w, CLOSE_BRACKET, ElemText(es[0].before, es[0], es[1..], rest));
    }
  }

  /** The inside of an array, its bracket and what follows. */
  function Elems(pad: bytes, es: seq<Elem>, rest: bytes): (s: bytes)
    requires ValidElems(es)
  {
    if es == [] then pad + ([CLOSE_BRACKET] + rest) else ElemText(es[0].before, es[0], es[1..], rest)
  }

  lemma ArrayText(pad: bytes, es: seq<Elem>, rest: bytes)
    requires AllSpace(pad) && ValidElems(es)
    ensures PrintValue(Arr(pad, es)) + rest == [OPEN_BRACKET] + Elems(pad, es, rest)
  {
    if es == [] {
      assert [OPEN_BRACKET] + pad + [CLOSE_BRACKET] + rest == [OPEN_BRACKET] + (pad + ([CLOSE_BRACKET] + rest));
    } else {
      var e := es[0];
      ArrayParts(e.before, PrintValue(e.value), e.after, PrintElemTail(es[1..]), rest);
    }
  }

  lemma ArrayParts(a: bytes, b: bytes, d: bytes, t: bytes, rest: bytes)
    ensures [OPEN_BRACKET] + ((a + b + d) + t) + [CLOSE_BRACKET] + rest ==
      [OPEN_BRACKET] + (a + b + (d + (t + ([CLOSE_BRACKET] + rest))))
  {
  }

  lemma NextInArray(pad: bytes, es: seq<Elem>, rest: bytes)
    requires AllSpace(pad) && ValidElems(es)
    ensures Next(Elems(pad, es, rest), true, CLOSE_BRACKET) ==
      if es == [] then Ok(false, rest) else Ok(true, ElemText([], es[0], es[1..], rest))
  {
    if es == [] {
      NextStops(pad, true, CLOSE_BRACKET, rest);
    } else {
      var e := es[0];
      ValueStarts(e.value);
      var t := ElemText([], e, es[1..], rest);
      NextFirst(e.before, CLOSE_BRACKET, t);
      Assoc(e.before, PrintValue(e.value), ElemTail(e.after, es[1..], rest));
      assert [] + PrintValue(e.value) == PrintValue(e.value);
    }
  }

  lemma ExpectScans(w: bytes, c: byte, rest: bytes)
    requires AllSpace(w) && c < 128 && !IsSpace(c)
    ensures Expect(c, w + ([c] + rest)) == Ok((), rest)
  {
    SkipSpaceOver(w, [c] + rest);
    assert ([c] + rest)[1..] == rest;
  }

  // ---------------------------------------------------- completeness, by type

  lemma DoubleComplete(fc: FromChars, w: bytes, v: Value, rest: bytes)
    requires AllSpace(w) && ValidValue(v) && NumberOf(fc, v).Some? && Follows(rest)
    ensures ReadDouble(fc, w + PrintValue(v) + rest) == Ok(NumberOf(fc, v).value, rest)
  {
    ScanNumberComplete(w, v.n, rest);
  }

  lemma BoundsStep(fc: FromChars, s: bytes, first: bool, n: nat, u: bytes, x: Double, t: bytes, xs: seq<Double>, r: bytes)
    requires Next(s, first, CLOSE_BRACKET) == Ok(true, u) && ReadDouble(fc, u) == Ok(x, t)
    requires ReadBounds(fc, t, false, n) == Ok(xs, r)
    ensures ReadBounds(fc, s, first, n + 1) == Ok([x] + xs, r)
  {
  }

  lemma NumbersCons(fc: FromChars, es: seq<Elem>)
    requires ValidElems(es) && AllNumbers(fc, es) && es != []
    ensures NumbersOf(fc, es) == [NumberOf(fc, es[0].value).value] + NumbersOf(fc, es[1..])
  {
  }

  lemma {:induction false} BoundsComplete(fc: FromChars, w: bytes, es: seq<Elem>, rest: bytes) returns (r: Scan<seq<Double>>)
    requires AllSpace(w) && ValidElems(es) && AllNumbers(fc, es)
    ensures r == ReadBounds(fc, ElemTail(w, es, rest), false, |es|)
    ensures r.Ok? && r.value == NumbersOf(fc, es) && Next(r.rest, false, CLOSE_BRACKET) == Ok(false, rest)
    decreases |es|, 1
  {
    NextInTail(w, es, rest);
    if es == [] {
      r := Ok([], ElemTail(w, es, rest));
    } else {
      r := BoundsFrom(fc, ElemTail(w, es, rest), false, es[0].before, es, rest);
    }
  }

  lemma {:induction false} BoundsFrom(fc: FromChars, s: bytes, first: bool, before: bytes, es: seq<Elem>, rest: bytes)
    returns (r: Scan<seq<Double>>)
    requires AllSpace(before) && ValidElems(es) && AllNumbers(fc, es) && es != []
    requires Next(s, first, CLOSE_BRACKET) == Ok(true, ElemText(before, es[0], es[1..], rest))
    ensures r == ReadBounds(fc, s, first, |es|)
    ensures r.Ok? && r.value == NumbersOf(fc, es) && Next(r.rest, false, CLOSE_BRACKET) == Ok(false, rest)
    decreases |es|, 0
  {
    var e := es[0];
    var t := ElemTail(e.after, es[1..], rest);
    ElemTailFollows(e.after, es[1..], rest);
    DoubleComplete(fc, before, e.value, t);
    var x := NumberOf(fc, e.value).value;
    var tail := BoundsComplete(fc, e.after, es[1..], rest);
    BoundsStep(fc, s, first, |es| - 1, before + PrintValue(e.value) + t, x, t, tail.value, tail.rest);
    NumbersCons(fc, es);
    r := Ok([x] + tail.value, tail.rest);
  }

  lemma FirstBoundsComplete(fc: FromChars, pad: bytes, es: seq<Elem>, rest: bytes) returns (r: Scan<seq<Double>>)
    requires AllSpace(pad) && ValidElems(es) && AllNumbers(fc, es) && es != []
    ensures r == ReadBounds(fc, Elems(pad, es, rest), true, |es|)
    ensures r.Ok? && r.value == NumbersOf(fc, es) && Next(r.rest, false, CLOSE_BRACKET) == Ok(false, rest)
  {
    NextInArray(pad, es, rest);
    r := BoundsFrom(fc, Elems(pad, es, rest), true, [], es, rest);
  }

  lemma RangeComplete(fc: FromChars, w: bytes, v: Value, rest: bytes)
    requires AllSpace(w) && ValidValue(v) && IsRange(fc, v)
    ensures ReadRange(fc, w + PrintValue(v) + rest) == Ok(RangeOf(fc, v), rest)
  {
    ArrayText(v.pad, v.elems, rest);
    Assoc(w, PrintValue(v), rest);
    ExpectScans(w, OPEN_BRACKET, Elems(v.pad, v.elems, rest));
    var r := FirstBoundsComplete(fc, v.pad, v.elems, rest);
  }

  lemma RangesStep(fc: FromChars, s: bytes, first: bool, u: bytes, x: PriceRange, t: bytes)
    requires Next(s, first, CLOSE_BRACKET) == Ok(true, u) && ReadRange(fc, u) == Ok(x, t)
    ensures ReadRangesRest(fc, s, first) ==
      MapScan(ReadRangesRest(fc, t, false), (xs: seq<PriceRange>) => [x] + xs)
  {
  }

  lemma RangesCons(fc: FromChars, es: seq<Elem>)
    requires ValidElems(es) && AllRanges(fc, es) && es != []
    ensures RangesOf(fc, es) == [RangeOf(fc, es[0].value)] + RangesOf(fc, es[1..])
  {
    hide RangeOf, IsRange;
  }

  lemma {:induction false} RangesTailComplete(fc: FromChars, w: bytes, es: seq<Elem>, rest: bytes)
    requires AllSpace(w) && ValidElems(es) && AllRanges(fc, es)
    ensures ReadRangesRest(fc, ElemTail(w, es, rest), false) == Ok(RangesOf(fc, es), rest)
    decreases |es|, 1
  {
    NextInTail(w, es, rest);
    if es != [] {
      RangesFrom(fc, ElemTail(w, es, rest), false, es[0].before, es, rest);
    }
  }

  lemma {:induction false} RangesFrom(fc: FromChars, s: bytes, first: bool, before: bytes, es: seq<Elem>, rest: bytes)
    requires AllSpace(before) && ValidElems(es) && AllRanges(fc, es) && es != []
    requires Next(s, first, CLOSE_BRACKET) == Ok(true, ElemText(before, es[0], es[1..], rest))
    ensures ReadRangesRest(fc, s, first) == Ok(RangesOf(fc, es), rest)
    decreases |es|, 0
  {
    hide ReadRange, Next, RangeOf, IsRange, ElemTail;
    var e := es[0];
    var t := ElemTail(e.after, es[1..], rest);
    RangeComplete(fc, before, e.value, t);
    RangesStep(fc, s, first, before + PrintValue(e.value) + t, RangeOf(fc, e.value), t);
    RangesTailComplete(fc, e.after, es[1..], rest);
    RangesCons(fc, es);
  }

  lemma RangesComplete(fc: FromChars, w: bytes, v: Value, rest: bytes)
    requires AllSpace(w) && ValidValue(v) && v.Arr? && AllRanges(fc, v.elems)
    ensures ReadRanges(fc, w + PrintValue(v) + rest) == Ok(RangesOf(fc, v.elems), rest)
  {
    var es := v.elems;
    ArrayText(v.pad, es, rest);
    Assoc(w, PrintValue(v), rest);
    ExpectScans(w, OPEN_BRACKET, Elems(v.pad, es, rest));
    FirstRangesComplete(fc, v.pad, es, rest);
  }

  lemma FirstRangesComplete(fc: FromChars, pad: bytes, es: seq<Elem>, rest: bytes)
    requires AllSpace(pad) && ValidElems(es) && AllRanges(fc, es)
    ensures ReadRangesRest(fc, Elems(pad, es, rest), true) == Ok(RangesOf(fc, es), rest)
  {
    NextInArray(pad, es, rest);
    if es != [] {
      RangesFrom(fc, Elems(pad, es, rest), true, [], es, rest);
    }
  }

  lemma LiteralSkips(w: bytes, token: bytes, rest: bytes)
    requires AllSpace(w) && token != [] && !IsSpace(token[0])
    ensures var t := SkipSpace(w + token + rest);
      t == token + rest && StartsWith(t, token) && t[|token|..] == rest
  {
    Assoc(w, token, rest);
    SkipSpaceOver(w, token + rest);
  }

  lemma BoolComplete(w: bytes, v: Value, rest: bytes)
    requires AllSpace(w) && (v.True? || v.False?)
    ensures ReadBool(w + PrintValue(v) + rest) == Ok(v.True?, rest)
  {
    LiteralSkips(w, PrintValue(v), rest);
  }

  lemma ReasonComplete(w: bytes, v: Value, rest: bytes)
    requires AllSpace(w) && ValidValue(v) && (v.Null? || v.Str?)
    ensures ReadReason(w + PrintValue(v) + rest) == Ok(if v.Null? then None else Some(DenotePieces(v.pieces)), rest)
  {
    hide ScanString, PrintString, DenotePieces;
    LiteralSkips(w, PrintValue(v), rest);
    if v.Str? {
      assert SkipSpace(w + PrintValue(v) + rest)[0] == QUOTE;
      ScanStringComplete(w, v.pieces, rest);
    }
  }

  /** Every well-typed value is read, and read as what it denotes. */
  lemma FieldComplete(fc: FromChars, k: Key, w: bytes, v: Value, rest: bytes)
    requires AllSpace(w) && ValidValue(v) && WellTyped(fc, KindOf(k), v) && Follows(rest)
    ensures ReadField(fc, k, w + PrintValue(v) + rest) == Ok(FieldOf(fc, KindOf(k), v), rest)
  {
    hide ScanString, ScanNumber, ReadDouble, ReadBool, ReadRanges, ReadReason, DenotePieces, PrintString, PrintNumber, NumberOf, AllRanges;
    match KindOf(k)
    case IntKind => ScanNumberComplete(w, v.n, rest);
    case StringKind => ScanStringComplete(w, v.pieces, rest);
    case DirectionKind => ScanStringComplete(w, v.pieces, rest);
    case DoubleKind => DoubleComplete(fc, w, v, rest);
    case BoolKind => BoolComplete(w, v, rest);
    case RangesKind => RangesComplete(fc, w, v, rest);
    case StatusKind => ScanStringComplete(w, v.pieces, rest);
    case ReasonKind => ReasonComplete(w, v, rest);
  }
}
