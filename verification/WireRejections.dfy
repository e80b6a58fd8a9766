/** How long a rejected ack can get, and which wakes are sure to be answered within the frame cap. */
module WireRejections {
  import opened Bytes
  import opened Errors
  import opened JsonStrings
  import opened JsonNumbers
  import opened JsonGrammar
  import opened WireKeys
  import opened WireText
  import opened WireGrammar
  import opened Wire
  import opened WireRoundTrip
  import opened WireLengths
  import Utf8

  /** The bytes of a reason as the ack spells them, quotes aside. */
  function Shown(r: Reason): (n: nat) {
    |EscapeAll(Message(r))|
  }

  /** The part of the reason that repeats the frame takes at most `n` bytes; a key the record names is short. */
  ghost predicate Echoes(r: Reason, n: int) {
    match r
    case NotAnInteger(token) => |EscapeAll(token)| <= n
    case IntegerRange(token) => |EscapeAll(token)| <= n
    case NumberRange(token) => |EscapeAll(token)| <= n
    case BadDirection(text) => |EscapeAll(text)| + 2 <= n
    case BadStatus(text) => |EscapeAll(text)| + 2 <= n
    case UnexpectedField(text) => |EscapeAll(text)| + 2 <= n
    case MissingRequired(text) => |text| <= 24
    case FrameLength(_) => false
    case _ => Fixed(r)
  }

  lemma EchoesMore(r: Reason, m: int, n: int)
    requires Echoes(r, m) && m <= n
    ensures Echoes(r, n)
  {
  }

  lemma FixedEchoes(r: Reason, n: int)
    requires Fixed(r)
    ensures Echoes(r, n)
  {
  }

  // ---------------------------------------------------------- what is repeated

  lemma TokenEcho(s: bytes)
    requires ScanNumber(s).Ok?
    ensures |EscapeAll(PrintNumber(ScanNumber(s).value))| <= |s|
  {
    hide ScanNumber, PrintNumber, EscapeAll;
    var n := ScanNumber(s).value;
    ScanNumberSound(s);
    NumberNeedsNoEscape(n);
  }

  lemma NumberNeedsNoEscape(n: Number)
    requires ValidNumber(n)
    ensures EscapeAll(PrintNumber(n)) == PrintNumber(n)
  {
    hide EscapeAll;
    var text := PrintNumber(n);
    forall i | 0 <= i < |text|
      ensures EscapeByte(text[i]) == [text[i]]
    {
      NumberByte(n, i);
    }
    EscapeRaw(text);
  }

  lemma NumberByte(n: Number, i: nat)
    requires ValidNumber(n) && i < |PrintNumber(n)|
    ensures var b := PrintNumber(n)[i];
      IsDigit(b) || b == MINUS || b == PLUS || b == POINT || b == 0x65 || b == 0x45
  {
  }

  lemma LiteralEcho(s: bytes)
    requires ScanString(s).Ok?
    ensures |EscapeAll(ScanString(s).value)| + 2 + |ScanString(s).rest| <= |s|
  {
    hide ScanString, EscapeAll, PrintString, DenotePieces;
    var v, rest := ScanString(s).value, ScanString(s).rest;
    var ps := ScanStringSound(s, v, rest);
    ReencodingNotLonger(ps);
    StringTextLength(v);
  }

  lemma StringTextLength(s: bytes)
    ensures |StringText(s)| == |EscapeAll(s)| + 2
  {
  }

  lemma IntEcho(s: bytes)
    requires ReadInt(s).Err?
    ensures var r := ReadInt(s).reason;
      Echoes(r, |s|) && (Fixed(r) || r.NotAnInteger? || r.IntegerRange?)
  {
    hide ScanNumber, PrintNumber, EscapeAll, IntegerValue;
    if ScanNumber(s).Ok? {
      TokenEcho(s);
    }
  }

  /** Reasons that come from numbers and punctuation. */
  ghost predicate Numeric(r: Reason, n: int) {
    Echoes(r, n) && (Fixed(r) || r.NumberRange?)
  }

  lemma DoubleEcho(fc: FromChars, s: bytes)
    requires ReadDouble(fc, s).Err?
    ensures Numeric(ReadDouble(fc, s).reason, |s|)
  {
    hide ScanNumber, PrintNumber, EscapeAll, Magnitude;
    if ScanNumber(s).Ok? {
      TokenEcho(s);
    }
  }

  lemma {:induction false} BoundsEcho(fc: FromChars, s: bytes, first: bool, n: nat)
    requires ReadBounds(fc, s, first, n).Err?
    ensures Numeric(ReadBounds(fc, s, first, n).reason, |s|)
    decreases n
  {
    hide Next, ReadDouble, EscapeAll;
    var m := Next(s, first, CLOSE_BRACKET);
    if m.Ok? && m.value {
      var x := ReadDouble(fc, m.rest);
      if x.Err? {
        DoubleEcho(fc, m.rest);
      } else {
        BoundsEcho(fc, x.rest, false, n - 1);
      }
    }
  }

  lemma RangeEcho(fc: FromChars, s: bytes)
    requires ReadRange(fc, s).Err?
    ensures Numeric(ReadRange(fc, s).reason, |s|)
  {
    hide Next, Expect, ReadBounds, EscapeAll;
    var open := Expect(OPEN_BRACKET, s);
    if open.Ok? && ReadBounds(fc, open.rest, true, 3).Err? {
      BoundsEcho(fc, open.rest, true, 3);
    }
  }

  lemma {:induction false} RangesRestEcho(fc: FromChars, s: bytes, first: bool)
    requires ReadRangesRest(fc, s, first).Err?
    ensures Numeric(ReadRangesRest(fc, s, first).reason, |s|)
    decreases |s|
  {
    hide Next, ReadRange, EscapeAll;
    var m := Next(s, first, CLOSE_BRACKET);
    if m.Ok? && m.value {
      var x := ReadRange(fc, m.rest);
      if x.Err? {
        RangeEcho(fc, m.rest);
      } else {
        RangesRestEcho(fc, x.rest, false);
      }
    }
  }

  lemma RangesEcho(fc: FromChars, s: bytes)
    requires ReadRanges(fc, s).Err?
    ensures Numeric(ReadRanges(fc, s).reason, |s|)
  {
    hide Expect, ReadRangesRest, EscapeAll;
    var open := Expect(OPEN_BRACKET, s);
    if open.Ok? {
      RangesRestEcho(fc, open.rest, true);
    }
  }

  lemma DirectionEcho(s: bytes)
    requires ReadDirection(s).Err?
    ensures Echoes(ReadDirection(s).reason, |s|) && (Fixed(ReadDirection(s).reason) || ReadDirection(s).reason.BadDirection?)
  {
    hide ScanString, EscapeAll;
    if ScanString(s).Ok? {
      LiteralEcho(s);
    }
  }

  /** The fewest bytes a member takes before its value, by the kind of reason its value can give. */
  function Before(r: Reason): (n: nat) {
    match r
    case NotAnInteger(_) | IntegerRange(_) => 10
    case NumberRange(_) => 6
    case BadDirection(_) => 12
    case _ => 0
  }

  lemma FieldNameLengths(k: Key)
    requires WireIndex(k) < 20
    ensures KindOf(k) != StatusKind && KindOf(k) != ReasonKind && NameLength(k) >= 3
    ensures KindOf(k) == IntKind ==> NameLength(k) >= 7
    ensures KindOf(k) == DirectionKind ==> NameLength(k) >= 9
  {
  }

  lemma WakeKeyIndex(k: Key)
    requires k in KeysOf(WAKE_ORDER)
    ensures WireIndex(k) < 20
  {
    WakeOrderIsIndexed();
  }

  /** A value that does not read: what it repeats, and how long the name before it must have been. */
  lemma FieldEcho(fc: FromChars, k: Key, s: bytes)
    requires WireIndex(k) < 20 && ReadField(fc, k, s).Err?
    ensures var r := ReadField(fc, k, s).reason;
      && Echoes(r, |s|) && Before(r) <= NameLength(k) + 3 && !r.UnexpectedField? && !r.MissingRequired? && !r.BadStatus?
  {
    hide ReadInt, ScanString, ReadDirection, ReadDouble, ReadBool, ReadRanges, ReadStatus, ReadReason, EscapeAll, NameLength, WireIndex;
    FieldNameLengths(k);
    match KindOf(k)
    case IntKind => IntEcho(s);
    case DirectionKind => DirectionEcho(s);
    case DoubleKind => DoubleEcho(fc, s);
    case RangesKind => RangesEcho(fc, s);
    case _ =>
  }

  lemma KeyEcho(schema: set<Key>, s: bytes)
    ensures var k := ReadKey(schema, s);
      && (k.Err? ==> Echoes(k.reason, |s| - 1) && Before(k.reason) == 0 && !k.reason.BadStatus?)
      && (k.Ok? ==> |k.rest| + NameLength(k.value) + 3 <= |s|)
  {
    hide ScanString, Expect, KeyOf, EscapeAll, NameLength, KeyText;
    var name := ScanString(s);
    if name.Ok? {
      LiteralEcho(s);
      var k := ReadKey(schema, s);
      if k.Ok? {
        NameLengths(k.value);
        EscapedAtLeast(name.value);
      }
    }
  }

  // ------------------------------------------------------- how long a reason is

  lemma {:induction false} EscapedAtMost(s: bytes)
    ensures |EscapeAll(s)| <= 6 * |s|
  {
    if s != [] {
      EscapedAtMost(s[1..]);
    }
  }

  lemma EchoWordingLength(r: Reason)
    ensures r.NotAnInteger? ==> |Wording(r)| == 25
    ensures r.IntegerRange? ==> |Wording(r)| == 22
    ensures r.NumberRange? ==> |Wording(r)| == 21
    ensures r.BadDirection? ==> |Wording(r)| == 33
    ensures r.UnexpectedField? ==> |Wording(r)| == 18
    ensures r.MissingRequired? ==> |Wording(r)| == 24
  {
    hide StringWording, LiteralWording, StructureWording;
  }

  lemma StructureWordingLength(r: Reason)
    ensures r.ExpectedAtEnd? || r.Expected? ==> |Wording(r)| == 10
  {
    hide StringWording, LiteralWording, EchoWording;
  }

  lemma StringWordingLength(r: Reason)
    ensures r.InvalidEscape? ==> |Wording(r)| == 23
  {
    hide StructureWording, LiteralWording, EchoWording;
  }

  /** A reason that repeats nothing, or only a key of the record, is short however it is escaped. */
  lemma ShortReason(r: Reason)
    requires Fixed(r) || (r.MissingRequired? && |r.text| <= 24)
    ensures Shown(r) <= 300
  {
    hide EscapeAll, Wording;
    EchoWordingLength(r);
    StructureWordingLength(r);
    StringWordingLength(r);
    assert |Message(r)| <= 48;
    EscapedAtMost(Message(r));
  }

  predicate PlainText(s: string) {
    forall i :: 0 <= i < |s| ==> ' ' <= s[i] <= 'z' && s[i] != '"' && s[i] != '\\'
  }

  /** Reasons that repeat part of the frame. */
  predicate Repeats(r: Reason) {
    r.NotAnInteger? || r.IntegerRange? || r.NumberRange? || r.BadDirection? || r.UnexpectedField?
  }

  lemma PlainIntWording(r: Reason)
    requires r.NotAnInteger? || r.IntegerRange?
    ensures PlainText(Wording(r))
  {
    hide StringWording, LiteralWording, StructureWording;
  }

  lemma PlainNumberWording(r: Reason)
    requires r.NumberRange? || r.UnexpectedField?
    ensures PlainText(Wording(r))
  {
    hide StringWording, LiteralWording, StructureWording;
  }

  lemma PlainDirectionWording(r: Reason)
    requires r.BadDirection?
    ensures PlainText(Wording(r))
  {
    hide StringWording, LiteralWording, StructureWording;
  }

  lemma PlainNeedsNoEscape(s: string)
    requires PlainText(s)
    ensures EscapeAll(Ascii(s)) == Ascii(s)
  {
    hide EscapeAll;
    forall i | 0 <= i < |s|
      ensures EscapeByte(Ascii(s)[i]) == [Ascii(s)[i]]
    {
      assert ' ' <= s[i] <= 'z';
    }
    EscapeRaw(Ascii(s));
  }

  lemma RepeatedLength(r: Reason)
    requires Repeats(r)
    ensures Shown(r) == |Wording(r)| + |EscapeAll(Detail(r))|
  {
    hide EscapeAll, Wording, Detail;
    if r.BadDirection? {
      PlainDirectionWording(r);
    } else if r.NotAnInteger? || r.IntegerRange? {
      PlainIntWording(r);
    } else {
      PlainNumberWording(r);
    }
    PlainNeedsNoEscape(Wording(r));
    EscapeAllConcat(Ascii(Wording(r)), Detail(r));
  }

  /** The length of a reason, by the length of the text it came from. */
  ghost predicate Within(r: Reason, n: int) {
    Shown(r) <= 300 || Shown(r) <= n
  }

  lemma EchoLength(r: Reason, n: int)
    requires Echoes(r, n - Before(r)) && !r.BadStatus?
    ensures Within(r, n + 19)
  {
    hide EscapeAll, Wording, Shown;
    EchoWordingLength(r);
    if Repeats(r) {
      RepeatedLength(r);
    } else {
      ShortReason(r);
    }
  }

  lemma {:induction false} MembersWithin(fc: FromChars, s: bytes, first: bool, env: Env)
    requires ReadMembers(fc, KeysOf(WAKE_ORDER), s, first, env).Err?
    ensures Within(ReadMembers(fc, KeysOf(WAKE_ORDER), s, first, env).reason, |s| + 19)
    decreases |s|
  {
    hide Next, ReadKey, ReadField, Shown, Echoes, Fixed, KeysOf, NameLength;
    var schema := KeysOf(WAKE_ORDER);
    var m := Next(s, first, CLOSE_BRACE);
    if m.Err? {
      ShortReason(m.reason);
    } else if m.value {
      KeyEcho(schema, m.rest);
      var k := ReadKey(schema, m.rest);
      if k.Err? {
        EchoesMore(k.reason, |m.rest| - 1, |s| - Before(k.reason));
        EchoLength(k.reason, |s|);
      } else {
        WakeKeyIndex(k.value);
        var v := ReadField(fc, k.value, k.rest);
        if v.Err? {
          FieldEcho(fc, k.value, k.rest);
          EchoesMore(v.reason, |k.rest|, |s| - Before(v.reason));
          EchoLength(v.reason, |s|);
        } else {
          MembersWithin(fc, v.rest, false, env[k.value := v.value]);
        }
      }
    }
  }

  /** Every reason a wake is rejected for is short, or at most 18 bytes longer than the body. */
  lemma ReasonWithin(fc: FromChars, body: bytes)
    requires DecodeWake(fc, body).Bad?
    ensures Within(DecodeWake(fc, body).reason, |body| + 18)
  {
    hide Expect, ReadMembers, Shown, Fixed, KeysOf, SkipSpace, FirstMissing, KeyText, WakeOf;
    var open := Expect(OPEN_BRACE, body);
    if open.Err? {
      ShortReason(open.reason);
    } else {
      var env := ReadMembers(fc, KeysOf(WAKE_ORDER), open.rest, true, map[]);
      if env.Err? {
        MembersWithin(fc, open.rest, true, map[]);
      } else if SkipSpace(env.rest) != [] {
        TrailingIsFixed();
        ShortReason(TrailingContent);
      } else {
        var missing := FirstMissing(WAKE_REQUIRED, env.value.Keys);
        NameLengths(missing.value);
        NameAtMost(missing.value);
        ShortReason(MissingRequired(KeyText(missing.value)));
      }
    }
  }

  lemma TrailingIsFixed()
    ensures Fixed(TrailingContent)
  {
  }

  lemma NameAtMost(k: Key)
    ensures NameLength(k) <= 24
  {
  }

  // ---------------------------------------------------------- how long an ack is

  function IntText(v: int): (s: bytes) {
    PrintNumber(IntNumber(v))
  }

  function RejectedSize(r: Reason, receivedAtMs: int, k: Key): (n: nat) {
    match k
    case SchemaVersion => 1
    case CorrelationId => 2
    case ReceivedAtMs => |IntText(receivedAtMs)|
    case Status => 10
    case _ => Shown(r) + 2
  }

  lemma RejectedTexts()
    ensures |PrintNumber(IntNumber(SCHEMA_VERSION))| == 1 && |StringText(REJECTED)| == 10 && |StringText([])| == 2
  {
    EscapeRaw(REJECTED);
  }

  lemma RejectedText(r: Reason, receivedAtMs: int, k: Key)
    requires k in ACK_ORDER
    ensures |FieldText(AckField(RejectedAck(r, receivedAtMs), k))| == RejectedSize(r, receivedAtMs, k)
  {
    hide StringText, PrintNumber, IntNumber, Message, EscapeAll;
    RejectedTexts();
    StringTextLength(Message(r));
  }

  lemma MemberGrows(order: seq<Key>, fields: Key -> FieldValue, n: nat)
    requires 1 <= n <= |order| && forall i :: 0 <= i < |order| ==> ValidField(fields(order[i]))
    ensures |FieldsText(order, fields, n)| == |FieldsText(order, fields, n - 1)| + (if n == 1 then 0 else 1)
      + NameLength(order[n - 1]) + 3 + |FieldText(fields(order[n - 1]))|
  {
    hide FieldText, KeyText, NameLength;
    NameLengths(order[n - 1]);
  }

  lemma RejectedMember(r: Reason, receivedAtMs: int, n: nat)
    requires 1 <= n <= 5
    ensures var f := AckFields(RejectedAck(r, receivedAtMs));
      && (forall i :: 0 <= i < |ACK_ORDER| ==> ValidField(f(ACK_ORDER[i])))
      && |FieldsText(ACK_ORDER, f, n)| == |FieldsText(ACK_ORDER, f, n - 1)| + (if n == 1 then 0 else 1)
           + NameLength(ACK_ORDER[n - 1]) + 3 + RejectedSize(r, receivedAtMs, ACK_ORDER[n - 1])
  {
    hide FieldText, FieldsText, RejectedAck, AckField, NameLength, RejectedSize;
    var a := RejectedAck(r, receivedAtMs);
    AckFieldsValid(a);
    RejectedText(r, receivedAtMs, ACK_ORDER[n - 1]);
    MemberGrows(ACK_ORDER, AckFields(a), n);
  }

  /** The exact length of a rejected ack. */
  lemma RejectedAckLength(r: Reason, receivedAtMs: int)
    ensures |AckBody(RejectedAck(r, receivedAtMs))| == 90 + |IntText(receivedAtMs)| + Shown(r)
  {
    hide FieldsText, FieldText, AckFields, RejectedAck, Shown, IntText;
    var f := AckFields(RejectedAck(r, receivedAtMs));
    AckFieldsValid(RejectedAck(r, receivedAtMs));
    OpeningBrace(f);
    RejectedMember(r, receivedAtMs, 1);
    RejectedMember(r, receivedAtMs, 2);
    RejectedMember(r, receivedAtMs, 3);
    RejectedMember(r, receivedAtMs, 4);
    RejectedMember(r, receivedAtMs, 5);
  }

  /** What a rejection adds to the length of the body, at most. */
  const REJECTION_OVERHEAD: nat := 128

  /** For every body that does not decode, the rejected ack is short, or not much longer than the body. */
  lemma RejectionLength(fc: FromChars, body: bytes, receivedAtMs: int)
    requires IsInt64(receivedAtMs) && DecodeWake(fc, body).Bad?
    ensures var n := |AckBody(RejectedAck(DecodeWake(fc, body).reason, receivedAtMs))|;
      && (n <= 410 || n <= |body| + 108 + |IntText(receivedAtMs)|)
      && (|body| + REJECTION_OVERHEAD <= MAX_FRAME_BYTES ==> n <= MAX_FRAME_BYTES)
  {
    hide DecodeWake, Shown, RejectedAck, AckBody;
    ReasonWithin(fc, body);
    RejectedAckLength(DecodeWake(fc, body).reason, receivedAtMs);
    IntTextLength(receivedAtMs);
  }

  // ------------------------------------------------------------------- the worst

  function Letters(n: nat): (s: bytes)
    ensures |s| == n && forall i :: 0 <= i < n ==> s[i] == 0x78
  {
    seq<byte>(n, _ => 0x78)
  }

  lemma LettersArePlain(n: nat)
    ensures EscapeAll(Letters(n)) == Letters(n) && Utf8.WellFormed(Letters(n))
  {
    hide EscapeAll, Utf8.WellFormed;
    EscapeRaw(Letters(n));
    Utf8.AsciiWellFormed(Letters(n));
  }

  /** An object whose only member is a direction of `n` letters, cut off before its closing brace. */
  function LongDirection(n: nat): (body: bytes) {
    [OPEN_BRACE] + StringText(KeyText(DirectionKey)) + ([COLON] + StringText(Letters(n)))
  }

  lemma LongDirectionLength(n: nat)
    ensures |LongDirection(n)| == n + 15
  {
    hide EscapeAll, KeyText;
    LettersArePlain(n);
    StringTextLength(Letters(n));
    KeyTextIsPlain(DirectionKey);
    NameLengths(DirectionKey);
  }

  lemma DirectionIsRefused(fc: FromChars, n: nat)
    requires n >= 4
    ensures ReadField(fc, DirectionKey, StringText(Letters(n))) == Err(BadDirection(Letters(n)))
  {
    hide ScanString, StringText, Utf8.WellFormed;
    LettersArePlain(n);
    EncodedStringRoundTrip(Letters(n), [], []);
    assert [] + StringText(Letters(n)) + [] == StringText(Letters(n));
    assert |YES| == 3 && |NO| == 2;
  }

  lemma DirectionIsFound(schema: set<Key>, t: bytes)
    requires DirectionKey in schema
    ensures ReadKey(schema, StringText(KeyText(DirectionKey)) + ([COLON] + t)) == Ok(DirectionKey, t)
  {
    hide ScanString, StringText, KeyText, KeyOf, Expect, Utf8.WellFormed;
    var name := KeyText(DirectionKey);
    KeyTextIsPlain(DirectionKey);
    KeyOfName(DirectionKey);
    EncodedStringRoundTrip(name, [], [COLON] + t);
    assert [] + StringText(name) + ([COLON] + t) == StringText(name) + ([COLON] + t);
    ExpectScans([], COLON, t);
    assert [] + ([COLON] + t) == [COLON] + t;
  }

  lemma MemberRefused(fc: FromChars, schema: set<Key>, s: bytes, k: Key, t: bytes, r: Reason)
    requires s != [] && s[0] == QUOTE && ReadKey(schema, s) == Ok(k, t) && ReadField(fc, k, t) == Err(r)
    ensures ReadMembers(fc, schema, s, true, map[]) == Err(r)
  {
    hide ReadKey, ReadField;
    assert SkipSpace(s) == s;
  }

  /** That body is rejected, and its ack is as long as any rejection of a body of that length. */
  lemma LongestRejection(fc: FromChars, n: nat, receivedAtMs: int)
    requires n >= 4
    ensures DecodeWake(fc, LongDirection(n)) == Bad(BadDirection(Letters(n)))
    ensures |AckBody(RejectedAck(BadDirection(Letters(n)), receivedAtMs))| ==
      |LongDirection(n)| + 108 + |IntText(receivedAtMs)|
  {
    hide ReadMembers, ReadField, ReadKey, Expect, StringText, KeyText, AckBody, RejectedAck, IntText, EscapeAll, Wording, KeysOf;
    var t := StringText(Letters(n));
    var s := StringText(KeyText(DirectionKey)) + ([COLON] + t);
    assert LongDirection(n) == [OPEN_BRACE] + s;
    ExpectScans([], OPEN_BRACE, s);
    assert [] + ([OPEN_BRACE] + s) == [OPEN_BRACE] + s;
    assert DirectionKey in KeysOf(WAKE_ORDER) by { WakeKeysListed(DirectionKey); InKeys(WAKE_ORDER, DirectionKey); }
    DirectionIsFound(KeysOf(WAKE_ORDER), t);
    DirectionIsRefused(fc, n);
    MemberRefused(fc, KeysOf(WAKE_ORDER), s, DirectionKey, t, BadDirection(Letters(n)));
    LongDirectionLength(n);
    RejectedAckLength(BadDirection(Letters(n)), receivedAtMs);
    RepeatedLength(BadDirection(Letters(n)));
    EchoWordingLength(BadDirection(Letters(n)));
    LettersArePlain(n);
  }

  lemma InKeys(order: seq<Key>, k: Key)
    requires k in order
    ensures k in KeysOf(order)
  {
  }

  /** Every rejection of a body of this length is within the frame cap. */
  ghost predicate RejectionsFit(fc: FromChars, length: nat, receivedAtMs: int) {
    forall body :: |body| == length && DecodeWake(fc, body).Bad? ==>
      |AckBody(RejectedAck(DecodeWake(fc, body).reason, receivedAtMs))| <= MAX_FRAME_BYTES
  }

  /** Rejections of a body length all fit exactly when that length leaves room for the overhead. */
  lemma RejectionsFitExactly(fc: FromChars, length: nat, receivedAtMs: int)
    requires IsInt64(receivedAtMs)
    ensures RejectionsFit(fc, length, receivedAtMs) <==> length + 108 + |IntText(receivedAtMs)| <= MAX_FRAME_BYTES
  {
    hide DecodeWake, AckBody, RejectedAck, LongDirection, IntText;
    if length + 108 + |IntText(receivedAtMs)| <= MAX_FRAME_BYTES {
      forall body | |body| == length && DecodeWake(fc, body).Bad?
        ensures |AckBody(RejectedAck(DecodeWake(fc, body).reason, receivedAtMs))| <= MAX_FRAME_BYTES
      {
        RejectionLength(fc, body, receivedAtMs);
      }
    } else {
      assert |IntText(receivedAtMs)| <= 20 by { IntTextBound(receivedAtMs); }
      LongDirectionLength(length - 15);
      LongestRejection(fc, length - 15, receivedAtMs);
      assert DecodeWake(fc, LongDirection(length - 15)).Bad?;
    }
  }

  lemma IntTextBound(v: int)
    requires IsInt64(v)
    ensures |IntText(v)| <= 20
  {
    IntTextLength(v);
  }

  /** A body within the cap whose rejection is not. */
  lemma RejectionMayNotFit(fc: FromChars, receivedAtMs: int)
    ensures var body := LongDirection(MAX_FRAME_BYTES - 15);
      && |body| == MAX_FRAME_BYTES && DecodeWake(fc, body).Bad?
      && |AckBody(RejectedAck(DecodeWake(fc, body).reason, receivedAtMs))| > MAX_FRAME_BYTES
  {
    hide DecodeWake, AckBody, RejectedAck, LongDirection, IntText;
    LongDirectionLength(MAX_FRAME_BYTES - 15);
    LongestRejection(fc, MAX_FRAME_BYTES - 15, receivedAtMs);
  }
}
