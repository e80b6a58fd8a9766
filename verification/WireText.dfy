/** What the decoders of src/protocol.cpp read, as functions of the text still to be read. */
module WireText {
  import opened Bytes
  import opened Errors
  import opened JsonStrings
  import opened JsonNumbers
  import opened JsonGrammar
  import opened WireKeys
  import Utf8

  /** `std::from_chars` for doubles: it sees only a sign and a decimal value, and refuses a value that
      overflows or underflows. */
  type FromChars = (bool, real) -> Option<Double>

  const YES: bytes := [0x79, 0x65, 0x73]
  const NO: bytes := [0x6E, 0x6F]
  const ACCEPTED: bytes := [0x61, 0x63, 0x63, 0x65, 0x70, 0x74, 0x65, 0x64]
  const REJECTED: bytes := [0x72, 0x65, 0x6A, 0x65, 0x63, 0x74, 0x65, 0x64]

  predicate StartsWith(s: bytes, token: bytes) {
    |s| >= |token| && s[..|token|] == token
  }

  /** `expect`. */
  function Expect(c: byte, s: bytes): (r: Scan<()>)
    requires c < 128
    ensures r.Ok? ==> |r.rest| < |s|
    ensures r.Err? ==> Fixed(r.reason)
  {
    var t := SkipSpace(s);
    if t == [] then Err(ExpectedAtEnd(c))
    else if t[0] != c then Err(Expected(c, t[0]))
    else Ok((), t[1..])
  }

  /** `next_element`, and the part of `next_member` before the key: true when there is one more. */
  function Next(s: bytes, first: bool, close: byte): (r: Scan<bool>)
    requires close == CLOSE_BRACE || close == CLOSE_BRACKET
    ensures r.Ok? ==> |r.rest| <= |s| && (!r.value || !first ==> |r.rest| < |s|)
    ensures r.Err? ==> Fixed(r.reason)
  {
    var t := SkipSpace(s);
    if t == [] then Err(if close == CLOSE_BRACE then UnterminatedObject else UnterminatedArray)
    else if t[0] == close then Ok(false, t[1..])
    else if first then Ok(true, t)
    else if t[0] != COMMA then Err(Expected(COMMA, t[0]))
    else Ok(true, t[1..])
  }

  function ReadInt(s: bytes): (r: Scan<int>)
    ensures r.Ok? ==> |r.rest| < |s| && IsInt64(r.value)
    ensures r.Err? ==> Clean(r.reason)
  {
    var t := ScanNumber(s);
    if t.Err? then Err(t.reason) else
    ScanNumberSound(s);
    NumberIsAscii(t.value);
    if !Integral(t.value) then Err(NotAnInteger(PrintNumber(t.value)))
    else if !IsInt64(IntegerValue(t.value)) then Err(IntegerRange(PrintNumber(t.value)))
    else Ok(IntegerValue(t.value), t.rest)
  }

  function ReadDouble(fc: FromChars, s: bytes): (r: Scan<Double>)
    ensures r.Ok? ==> |r.rest| < |s|
    ensures r.Err? ==> Clean(r.reason)
  {
    var t := ScanNumber(s);
    if t.Err? then Err(t.reason) else
    ScanNumberSound(s);
    NumberIsAscii(t.value);
    var x := fc(t.value.neg, Magnitude(t.value));
    if x.None? then Err(NumberRange(PrintNumber(t.value))) else Ok(x.value, t.rest)
  }

  function ReadBool(s: bytes): (r: Scan<bool>)
    ensures r.Ok? ==> |r.rest| < |s|
    ensures r.Err? ==> Fixed(r.reason)
  {
    var t := SkipSpace(s);
    if t == [] then Err(BooleanAtEnd)
    else if StartsWith(t, TRUE) then Ok(true, t[4..])
    else if StartsWith(t, FALSE) then Ok(false, t[5..])
    else Err(NotABoolean)
  }

  function ReadDirection(s: bytes): (r: Scan<Direction>)
    ensures r.Ok? ==> |r.rest| < |s|
    ensures r.Err? ==> Clean(r.reason)
  {
    var t := ScanString(s);
    if t.Err? then Err(t.reason)
    else if t.value == YES then Ok(Yes, t.rest)
    else if t.value == NO then Ok(No, t.rest)
    else Err(BadDirection(t.value))
  }

  function ReadStatus(s: bytes): (r: Scan<AckStatus>)
    ensures r.Ok? ==> |r.rest| < |s|
    ensures r.Err? ==> Clean(r.reason)
  {
    var t := ScanString(s);
    if t.Err? then Err(t.reason)
    else if t.value == ACCEPTED then Ok(Accepted, t.rest)
    else if t.value == REJECTED then Ok(Rejected, t.rest)
    else Err(BadStatus(t.value))
  }

  /** The `reason` member of an ack: null or a string. */
  function ReadReason(s: bytes): (r: Scan<Option<bytes>>)
    ensures r.Ok? ==> |r.rest| < |s|
    ensures r.Err? ==> Fixed(r.reason)
  {
    var t := SkipSpace(s);
    if StartsWith(t, NULL) then Ok(None, t[4..]) else
    var u := ScanString(s);
    if u.Err? then Err(u.reason) else Ok(Some(u.value), u.rest)
  }

  /** `n` bounds of a price range; fewer than that is an arity error. */
  function ReadBounds(fc: FromChars, s: bytes, first: bool, n: nat): (r: Scan<seq<Double>>)
    ensures r.Ok? ==> |r.rest| <= |s| && |r.value| == n
    ensures r.Err? ==> Clean(r.reason)
    decreases n
  {
    if n == 0 then Ok([], s) else
    var m := Next(s, first, CLOSE_BRACKET);
    if m.Err? then Err(m.reason)
    else if !m.value then Err(RangeArity) else
    var x := ReadDouble(fc, m.rest);
    if x.Err? then Err(x.reason) else
    var xs := ReadBounds(fc, x.rest, false, n - 1);
    if xs.Err? then xs else Ok([x.value] + xs.value, xs.rest)
  }

  /** One `[start, end, step]` entry. */
  function ReadRange(fc: FromChars, s: bytes): (r: Scan<PriceRange>)
    ensures r.Ok? ==> |r.rest| < |s|
    ensures r.Err? ==> Clean(r.reason)
  {
    var open := Expect(OPEN_BRACKET, s);
    if open.Err? then Err(open.reason) else
    var xs := ReadBounds(fc, open.rest, true, 3);
    if xs.Err? then Err(xs.reason) else
    var m := Next(xs.rest, false, CLOSE_BRACKET);
    if m.Err? then Err(m.reason)
    else if m.value then Err(RangeArity)
    else Ok(PriceRange(xs.value[0], xs.value[1], xs.value[2]), m.rest)
  }

  function ReadRangesRest(fc: FromChars, s: bytes, first: bool): (r: Scan<seq<PriceRange>>)
    ensures r.Ok? ==> |r.rest| < |s|
    ensures r.Err? ==> Clean(r.reason)
    decreases |s|
  {
    var m := Next(s, first, CLOSE_BRACKET);
    if m.Err? then Err(m.reason)
    else if !m.value then Ok([], m.rest) else
    var x := ReadRange(fc, m.rest);
    if x.Err? then Err(x.reason) else
    var xs := ReadRangesRest(fc, x.rest, false);
    if xs.Err? then xs else Ok([x.value] + xs.value, xs.rest)
  }

  /** `read_price_ranges`. */
  function ReadRanges(fc: FromChars, s: bytes): (r: Scan<seq<PriceRange>>)
    ensures r.Ok? ==> |r.rest| < |s|
    ensures r.Err? ==> Clean(r.reason)
  {
    var open := Expect(OPEN_BRACKET, s);
    if open.Err? then Err(open.reason) else ReadRangesRest(fc, open.rest, true)
  }

  function MapScan<T, U>(r: Scan<T>, f: T -> U): (q: Scan<U>)
    ensures q.Ok? <==> r.Ok?
    ensures r.Ok? ==> q == Ok(f(r.value), r.rest)
    ensures r.Err? ==> q == Err(r.reason)
  {
    if r.Ok? then Ok(f(r.value), r.rest) else Err(r.reason)
  }

  /** The value of a member, by the type its key calls for. */
  function ReadField(fc: FromChars, k: Key, s: bytes): (r: Scan<FieldValue>)
    ensures r.Ok? ==> |r.rest| < |s| && HasKind(r.value, KindOf(k))
    ensures r.Err? ==> Clean(r.reason)
  {
    match KindOf(k)
    case IntKind => MapScan(ReadInt(s), v => IntField(v))
    case StringKind => MapScan(ScanString(s), v => StringField(v))
    case DirectionKind => MapScan(ReadDirection(s), v => DirectionField(v))
    case DoubleKind => MapScan(ReadDouble(fc, s), v => DoubleField(v))
    case BoolKind => MapScan(ReadBool(s), v => BoolField(v))
    case RangesKind => MapScan(ReadRanges(fc, s), v => RangesField(v))
    case StatusKind => MapScan(ReadStatus(s), v => StatusField(v))
    case ReasonKind => MapScan(ReadReason(s), v => ReasonField(v))
  }

  /** A member name and the colon after it. */
  function ReadName(s: bytes): (r: Scan<bytes>)
    ensures r.Ok? ==> |r.rest| < |s| && Utf8.WellFormed(r.value)
    ensures r.Err? ==> Clean(r.reason)
  {
    var name := ScanString(s);
    if name.Err? then name else
    var colon := Expect(COLON, name.rest);
    if colon.Err? then Err(colon.reason) else Ok(name.value, colon.rest)
  }

  /** A member name the record knows. */
  ghost function ReadKey(schema: set<Key>, s: bytes): (r: Scan<Key>)
    ensures r.Ok? ==> |r.rest| < |s| && r.value in schema
    ensures r.Err? ==> Clean(r.reason)
  {
    var name := ReadName(s);
    if name.Err? then Err(name.reason) else
    var k := KeyOf(name.value);
    if k.None? || k.value !in schema then Err(UnexpectedField(name.value)) else Ok(k.value, name.rest)
  }

  /** The members from here to the closing brace; a repeated key takes the last value. */
  ghost function ReadMembers(fc: FromChars, schema: set<Key>, s: bytes, first: bool, env: Env): (r: Scan<Env>)
    ensures r.Ok? ==> |r.rest| < |s|
    ensures r.Err? ==> Clean(r.reason)
    decreases |s|
  {
    var m := Next(s, first, CLOSE_BRACE);
    if m.Err? then Err(m.reason)
    else if !m.value then Ok(env, m.rest) else
    var k := ReadKey(schema, m.rest);
    if k.Err? then Err(k.reason) else
    var v := ReadField(fc, k.value, k.rest);
    if v.Err? then Err(v.reason) else
    ReadMembers(fc, schema, v.rest, false, env[k.value := v.value])
  }

  /** The first required key that is absent, in the order the record lists them. */
  function FirstMissing(required: seq<Key>, seen: set<Key>): (k: Option<Key>)
    ensures k.None? <==> forall i :: 0 <= i < |required| ==> required[i] in seen
    ensures k.Some? ==> k.value in required && k.value !in seen
  {
    if required == [] then None
    else if required[0] !in seen then Some(required[0])
    else FirstMissing(required[1..], seen)
  }

  datatype Decoded<+T> = Good(value: T) | Bad(reason: Reason)

  /** A whole body: one object, nothing after it but whitespace, no required key missing. */
  ghost function DecodeRecord(fc: FromChars, schema: set<Key>, required: seq<Key>, body: bytes): (r: Decoded<Env>)
    ensures r.Bad? ==> Clean(r.reason)
    ensures r.Good? ==> forall i :: 0 <= i < |required| ==> required[i] in r.value
  {
    var open := Expect(OPEN_BRACE, body);
    if open.Err? then Bad(open.reason) else
    var env := ReadMembers(fc, schema, open.rest, true, map[]);
    if env.Err? then Bad(env.reason)
    else if SkipSpace(env.rest) != [] then Bad(TrailingContent) else
    var missing := FirstMissing(required, env.value.Keys);
    if missing.Some? then
      KeyTextIsPlain(missing.value);
      Bad(MissingRequired(KeyText(missing.value)))
    else Good(env.value)
  }
}
