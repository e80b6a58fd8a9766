/** Decoding what was encoded gives back the message, for every message. */
module WireRoundTrip {
  import opened Bytes
  import opened Errors
  import opened JsonStrings
  import opened JsonNumbers
  import opened JsonGrammar
  import opened WireKeys
  import opened WireText
  import opened WireGrammar
  import opened WireRecords
  import opened Wire
  import Utf8

  /** What `std::to_chars` and `std::from_chars` promise of a finite double: its shortest digits read back as it. */
  predicate ReadsBack(fc: FromChars, x: Double) {
    IsNumber(x) && fc(x.neg, DoubleMagnitude(x)) == Some(x)
  }

  predicate RangeReadsBack(fc: FromChars, r: PriceRange) {
    ReadsBack(fc, r.start) && ReadsBack(fc, r.end) && ReadsBack(fc, r.step)
  }

  predicate RangesReadBack(fc: FromChars, rs: seq<PriceRange>) {
    forall i :: 0 <= i < |rs| ==> RangeReadsBack(fc, rs[i])
  }

  /** The promise can be kept for any doubles together: exact lookup by sign and value does. */
  lemma AllCanReadBack() returns (fc: FromChars)
    ensures forall x: Double :: IsNumber(x) ==> ReadsBack(fc, x)
  {
    hide DoubleMagnitude, ValidDouble;
    fc := (neg: bool, v: real) => ExactDouble(neg, v);
    forall d: Double | IsNumber(d)
      ensures ExactDouble(d.neg, DoubleMagnitude(d)) == Some(d)
    {
      assert Denotes(d, d.neg, DoubleMagnitude(d));
      DoubleUnique(ExactDouble(d.neg, DoubleMagnitude(d)).value, d);
    }
  }

  ghost predicate Denotes(d: Double, neg: bool, v: real) {
    IsNumber(d) && d.neg == neg && DoubleMagnitude(d) == v
  }

  ghost function ExactDouble(neg: bool, v: real): (r: Option<Double>)
    ensures r.Some? ==> Denotes(r.value, neg, v)
    ensures r.None? ==> forall d :: !Denotes(d, neg, v)
  {
    if exists d :: Denotes(d, neg, v) then
      var d :| Denotes(d, neg, v);
      Some(d)
    else None
  }

  /** A value the wire can carry: an int64, UTF-8 text, finite doubles. */
  predicate Encodable(fc: FromChars, f: FieldValue) {
    match f
    case IntField(i) => IsInt64(i)
    case StringField(s) => Utf8.WellFormed(s)
    case DoubleField(x) => ReadsBack(fc, x)
    case RangesField(rs) => RangesReadBack(fc, rs)
    case ReasonField(o) => o.Some? ==> Utf8.WellFormed(o.value)
    case _ => true
  }

  /** The literal the encoder writes for UTF-8 text is one of the grammar. */
  lemma StringPieces(s: bytes) returns (ps: seq<Piece>)
    requires Utf8.WellFormed(s)
    ensures ValidPieces(ps) && DenotePieces(ps) == s && PrintString(ps) == StringText(s)
  {
    hide ScanChars, EscapeAll, PrintPieces, DenotePieces, Utf8.WellFormed;
    EncodedStringScans(s, []);
    ps := ScanSound(Quoted(s, []), s, []);
    assert EscapeAll(s) + [QUOTE] == Quoted(s, []) && PrintPieces(ps) + [QUOTE] == PrintPieces(ps) + [QUOTE] + [];
    Assoc([QUOTE], EscapeAll(s), [QUOTE]);
    Assoc([QUOTE], PrintPieces(ps), [QUOTE]);
  }

  lemma NumberValue(fc: FromChars, x: Double) returns (v: Value)
    requires ReadsBack(fc, x)
    ensures v == Num(Layout(x)) && ValidValue(v) && NumberOf(fc, v) == Some(x) && PrintValue(v) == DoubleText(x)
  {
    hide Layout, Magnitude, DoubleMagnitude, PrintNumber;
    LayoutValid(x);
    LayoutValue(x);
    v := Num(Layout(x));
  }

  function Bare(v: Value): (e: Elem) {
    Elem([], v, [])
  }

  lemma BareText(v: Value)
    requires ValidValue(v)
    ensures ValidElem(Bare(v)) && PrintElem(Bare(v)) == PrintValue(v)
  {
    hide PrintValue;
    assert [] + PrintValue(v) + [] == PrintValue(v);
  }

  /** What stands between the brackets. */
  function Inside(es: seq<Elem>): (s: bytes)
    requires ValidElems(es)
  {
    if es == [] then [] else PrintElem(es[0]) + PrintElemTail(es[1..])
  }

  lemma {:induction false} TailSnoc(es: seq<Elem>, e: Elem)
    requires ValidElems(es) && ValidElem(e)
    ensures ValidElems(es + [e]) && PrintElemTail(es + [e]) == PrintElemTail(es) + ([COMMA] + PrintElem(e))
  {
    hide PrintElem;
    if es == [] {
      assert (es + [e])[1..] == [] && es + [e] == [e];
    } else {
      assert (es + [e])[1..] == es[1..] + [e];
      TailSnoc(es[1..], e);
    }
  }

  lemma InsideSnoc(es: seq<Elem>, e: Elem)
    requires ValidElems(es) && ValidElem(e)
    ensures ValidElems(es + [e])
    ensures Inside(es + [e]) == Inside(es) + (if es == [] then [] else [COMMA]) + PrintElem(e)
  {
    hide PrintElem;
    if es == [] {
      assert es + [e] == [e] && [e][1..] == [];
    } else {
      assert (es + [e])[1..] == es[1..] + [e];
      TailSnoc(es[1..], e);
    }
  }

  lemma ThreeInside(a: Elem, b: Elem, c: Elem)
    requires ValidElem(a) && ValidElem(b) && ValidElem(c)
    ensures ValidElems([a, b, c])
    ensures Inside([a, b, c]) == PrintElem(a) + [COMMA] + PrintElem(b) + [COMMA] + PrintElem(c)
  {
    hide PrintElem, PrintElemTail;
    InsideSnoc([], a);
    InsideSnoc([a], b);
    InsideSnoc([a, b], c);
    assert [] + [a] == [a] && [a] + [b] == [a, b] && [a, b] + [c] == [a, b, c];
    assert Inside([]) + [] + PrintElem(a) == PrintElem(a);
  }

  lemma ArrayPrints(es: seq<Elem>)
    requires ValidElems(es)
    ensures ValidValue(Arr([], es)) && PrintValue(Arr([], es)) == [OPEN_BRACKET] + Inside(es) + [CLOSE_BRACKET]
  {
  }

  lemma RangeValue(fc: FromChars, r: PriceRange) returns (v: Value)
    requires RangeReadsBack(fc, r)
    ensures ValidValue(v) && IsRange(fc, v) && RangeOf(fc, v) == r && PrintValue(v) == RangeText(r)
  {
    hide PrintElem, PrintValue, DoubleText, NumberOf, Inside;
    var a := NumberValue(fc, r.start);
    var b := NumberValue(fc, r.end);
    var c := NumberValue(fc, r.step);
    BareText(a);
    BareText(b);
    BareText(c);
    var es := [Bare(a), Bare(b), Bare(c)];
    ThreeInside(es[0], es[1], es[2]);
    ArrayPrints(es);
    v := Arr([], es);
    RangeParts(DoubleText(r.start), DoubleText(r.end), DoubleText(r.step));
  }

  lemma RangeParts(a: bytes, b: bytes, c: bytes)
    ensures [OPEN_BRACKET] + (a + [COMMA] + b + [COMMA] + c) + [CLOSE_BRACKET] ==
      [OPEN_BRACKET] + a + [COMMA] + b + [COMMA] + c + [CLOSE_BRACKET]
  {
  }

  lemma {:induction false} RangeElems(fc: FromChars, rs: seq<PriceRange>) returns (es: seq<Elem>)
    requires RangesReadBack(fc, rs)
    ensures ValidElems(es) && AllRanges(fc, es) && RangesOf(fc, es) == rs && Inside(es) == RangesText(rs)
  {
    hide RangeOf, IsRange, RangeText, PrintElem, PrintElemTail, PrintValue, RangeReadsBack;
    if rs == [] {
      es := [];
    } else {
      var n := |rs| - 1;
      var front := RangeElems(fc, rs[..n]);
      var v := RangeValue(fc, rs[n]);
      BareText(v);
      es := front + [Bare(v)];
      InsideSnoc(front, Bare(v));
      assert rs == rs[..n] + [rs[n]];
    }
  }

  /** Every encodable value is written as a value of the grammar that reads back as itself. */
  lemma ValueFor(fc: FromChars, t: Kind, f: FieldValue) returns (v: Value)
    requires ValidField(f) && Encodable(fc, f) && HasKind(f, t)
    ensures ValidValue(v) && WellTyped(fc, t, v) && FieldOf(fc, t, v) == f && PrintValue(v) == FieldText(f)
  {
    hide Utf8.WellFormed, PrintString, StringText, DenotePieces, PrintNumber, DoubleText, NumberOf, IntNumber, IntegerValue, RangesText, RangesOf, AllRanges, RangesReadBack, Inside, ValidPieces;
    match f
    case IntField(i) =>
      IntNumberValue(i);
      v := Num(IntNumber(i));
    case StringField(s) =>
      var ps := StringPieces(s);
      v := Str(ps);
    case DirectionField(d) =>
      WordsAreText();
      var ps := StringPieces(DirectionText(d));
      v := Str(ps);
    case DoubleField(x) =>
      v := NumberValue(fc, x);
    case BoolField(b) =>
      v := if b then True else False;
    case RangesField(rs) =>
      var es := RangeElems(fc, rs);
      v := Arr([], es);
      ArrayPrints(es);
    case StatusField(st) =>
      WordsAreText();
      var ps := StringPieces(StatusText(st));
      v := Str(ps);
    case ReasonField(o) =>
      if o.None? {
        v := Null;
      } else {
        var ps := StringPieces(o.value);
        v := Str(ps);
      }
  }

  lemma WordsAreText()
    ensures Utf8.WellFormed(YES) && Utf8.WellFormed(NO) && Utf8.WellFormed(ACCEPTED) && Utf8.WellFormed(REJECTED)
    ensures YES != NO && ACCEPTED != REJECTED
  {
    hide Utf8.WellFormed;
    Utf8.AsciiWellFormed(YES);
    Utf8.AsciiWellFormed(NO);
    Utf8.AsciiWellFormed(ACCEPTED);
    Utf8.AsciiWellFormed(REJECTED);
    assert |YES| != |NO| && ACCEPTED[0] != REJECTED[0];
  }

  // ------------------------------------------------------------------- members

  function InsideObject(ms: seq<Member>): (s: bytes)
    requires ValidMembers(ms)
  {
    if ms == [] then [] else PrintMember(ms[0]) + PrintMemberTail(ms[1..])
  }

  lemma {:induction false} MemberTailSnoc(ms: seq<Member>, m: Member)
    requires ValidMembers(ms) && ValidMember(m)
    ensures ValidMembers(ms + [m]) && PrintMemberTail(ms + [m]) == PrintMemberTail(ms) + ([COMMA] + PrintMember(m))
  {
    hide PrintMember;
    if ms == [] {
      assert (ms + [m])[1..] == [] && ms + [m] == [m];
    } else {
      assert (ms + [m])[1..] == ms[1..] + [m];
      MemberTailSnoc(ms[1..], m);
    }
  }

  lemma InsideObjectSnoc(ms: seq<Member>, m: Member)
    requires ValidMembers(ms) && ValidMember(m)
    ensures ValidMembers(ms + [m])
    ensures InsideObject(ms + [m]) == InsideObject(ms) + (if ms == [] then [] else [COMMA]) + PrintMember(m)
  {
    hide PrintMember;
    if ms == [] {
      assert ms + [m] == [m] && [m][1..] == [];
    } else {
      assert (ms + [m])[1..] == ms[1..] + [m];
      MemberTailSnoc(ms[1..], m);
    }
  }

  predicate EncodableFields(fc: FromChars, order: seq<Key>, fields: Key -> FieldValue) {
    forall i :: 0 <= i < |order| ==>
      ValidField(fields(order[i])) && Encodable(fc, fields(order[i])) && HasKind(fields(order[i]), KindOf(order[i]))
  }

  /** One member of the encoded record, as a member of the grammar. */
  lemma MemberFor(fc: FromChars, schema: set<Key>, k: Key, f: FieldValue) returns (m: Member)
    requires ValidField(f) && Encodable(fc, f) && HasKind(f, KindOf(k)) && k in schema
    ensures TypedMember(fc, schema, m) && ValidMember(m) && PrintMember(m) == MemberBytes(k, f)
    ensures MemberKey(fc, schema, m) == k && MemberField(fc, schema, m) == f
  {
    hide Utf8.WellFormed, PrintString, StringText, DenotePieces, PrintValue, FieldText, WellTyped, FieldOf, KeyOf, KeyText, Encodable, ValidPieces, ValidValue;
    KeyTextIsPlain(k);
    KeyOfName(k);
    var key := StringPieces(KeyText(k));
    var v := ValueFor(fc, KindOf(k), f);
    m := Member([], key, [], [], v, []);
    assert [] + PrintValue(v) + [] == PrintValue(v) && [] + PrintString(key) == PrintString(key);
    MemberForParts(KeyText(k), PrintValue(v));
  }

  lemma MemberForParts(name: bytes, v: bytes)
    ensures [QUOTE] + name + [QUOTE] + ([] + [COLON]) + v == [QUOTE] + name + [QUOTE, COLON] + v
  {
  }

  lemma {:induction false} MembersFor(fc: FromChars, order: seq<Key>, fields: Key -> FieldValue, n: nat) returns (ms: seq<Member>)
    requires n <= |order|
    requires EncodableFields(fc, order, fields)
    ensures |ms| == n && TypedMembers(fc, KeysOf(order), ms) && ValidMembers(ms)
    ensures forall i :: 0 <= i < n ==>
      MemberKey(fc, KeysOf(order), ms[i]) == order[i] && MemberField(fc, KeysOf(order), ms[i]) == fields(order[i])
    ensures [OPEN_BRACE] + InsideObject(ms) == FieldsText(order, fields, n)
  {
    hide TypedMember, MemberKey, MemberField, PrintMember, PrintMemberTail, MemberBytes, Encodable, ValidMember;
    if n == 0 {
      ms := [];
    } else {
      var front := MembersFor(fc, order, fields, n - 1);
      var k := order[n - 1];
      assert k in KeysOf(order);
      var m := MemberFor(fc, KeysOf(order), k, fields(k));
      ms := front + [m];
      InsideObjectSnoc(front, m);
      InsertParts(InsideObject(front), if front == [] then [] else [COMMA], PrintMember(m));
    }
  }

  lemma InsertParts(a: bytes, b: bytes, c: bytes)
    ensures [OPEN_BRACE] + (a + b + c) == [OPEN_BRACE] + a + b + c
  {
  }

  predicate Distinct(order: seq<Key>) {
    forall i, j :: 0 <= i < j < |order| ==> order[i] != order[j]
  }

  /** Every record with encodable values decodes to exactly those values. */
  lemma RecordRoundTrip(fc: FromChars, order: seq<Key>, required: seq<Key>, fields: Key -> FieldValue) returns (env: Env)
    requires Distinct(order)
    requires EncodableFields(fc, order, fields)
    requires forall i :: 0 <= i < |required| ==> required[i] in order
    ensures DecodeRecord(fc, KeysOf(order), required, RecordText(order, fields)) == Good(env)
    ensures forall i :: 0 <= i < |order| ==> order[i] in env && env[order[i]] == fields(order[i])
    ensures forall k :: k in env ==> k in order
  {
    hide TypedMember, MemberKey, MemberField, InsideObject, FieldsText, DecodeRecord, Assign, Encodable, ValidMember, PrintMember, PrintMemberTail;
    var schema := KeysOf(order);
    var ms := MembersFor(fc, order, fields, |order|);
    var d := RecordDocument(ms, order, fields);
    env := Assign(fc, schema, ms, map[]);
    forall i | 0 <= i < |required|
      ensures HasKey(fc, schema, ms, required[i])
    {
      var j :| 0 <= j < |order| && order[j] == required[i];
      assert MemberKey(fc, schema, ms[j]) == required[i];
    }
    RecordComplete(fc, schema, required, d);
    forall i | 0 <= i < |order|
      ensures order[i] in env && env[order[i]] == fields(order[i])
    {
      AssignLast(fc, schema, ms, map[], i);
    }
    forall k | k in env
      ensures k in order
    {
      AssignKeys(fc, schema, ms, map[], k);
      var i :| 0 <= i < |ms| && MemberKey(fc, schema, ms[i]) == k;
    }
  }

  lemma RecordDocument(ms: seq<Member>, order: seq<Key>, fields: Key -> FieldValue) returns (d: Document)
    requires ValidMembers(ms)
    requires forall i :: 0 <= i < |order| ==> ValidField(fields(order[i]))
    requires [OPEN_BRACE] + InsideObject(ms) == FieldsText(order, fields, |order|)
    ensures d == Document([], Obj([], ms), []) && ValidDocument(d) && PrintDocument(d) == RecordText(order, fields)
  {
    hide PrintMember, PrintMemberTail, FieldsText;
    d := Document([], Obj([], ms), []);
    assert PrintValue(d.root) == [OPEN_BRACE] + InsideObject(ms) + [CLOSE_BRACE];
    assert [] + PrintValue(d.root) + [] == PrintValue(d.root);
  }

  // ------------------------------------------------------------------ messages

  predicate EncodableWake(fc: FromChars, m: WakeMessage) {
    && IsInt64(m.schemaVersion) && Utf8.WellFormed(m.correlationId) && Utf8.WellFormed(m.marketTicker)
    && Utf8.WellFormed(m.asset) && ReadsBack(fc, m.kalshiPrice) && ReadsBack(fc, m.modelProbability)
    && ReadsBack(fc, m.fee) && ReadsBack(fc, m.edge) && IsInt64(m.decisionTsMs) && IsInt64(m.sentAtMs)
    && IsInt64(m.sentAtNs) && IsInt64(m.recvNs) && Utf8.WellFormed(m.clockDomain) && ReadsBack(fc, m.wirePrice)
    && IsInt64(m.exchangeIndex) && ReadsBack(fc, m.availableSize) && RangesReadBack(fc, m.priceRanges)
    && Utf8.WellFormed(m.correlationGroup)
  }

  predicate EncodableAck(a: WakeAck) {
    && IsInt64(a.schemaVersion) && Utf8.WellFormed(a.correlationId) && IsInt64(a.receivedAtMs)
    && (a.reason.Some? ==> Utf8.WellFormed(a.reason.value))
  }

  lemma WakeFieldsEncodable(fc: FromChars, m: WakeMessage)
    requires EncodableWake(fc, m)
    ensures EncodableFields(fc, WAKE_ORDER, WakeFields(m))
  {
    hide Utf8.WellFormed, ValidDouble, DoubleMagnitude, RangesReadBack, ValidRanges, IsInt64;
    assert ValidRanges(m.priceRanges) by { WakeIsValid(fc, m); }
  }

  /** The place of a key in the wire order of a wake message. */
  function WireIndex(k: Key): (i: nat) {
    match k {
      case SchemaVersion => 0 case CorrelationId => 1 case MarketTicker => 2 case Asset => 3 case DirectionKey => 4
      case KalshiPrice => 5 case ModelProbability => 6 case Fee => 7 case Edge => 8 case DecisionTsMs => 9
      case SentAtMs => 10 case SentAtNs => 11 case RecvNs => 12 case ClockDomain => 13 case DryRun => 14
      case WirePrice => 15 case ExchangeIndex => 16 case AvailableSize => 17 case PriceRanges => 18
      case CorrelationGroup => 19 case _ => 20
    }
  }

  lemma WakeKeysListed(k: Key)
    requires WireIndex(k) < 20
    ensures k in WAKE_ORDER
  {
    assert WAKE_ORDER[WireIndex(k)] == k;
  }

  lemma WakeOrderIsIndexed()
    ensures forall i :: 0 <= i < |WAKE_ORDER| ==> WireIndex(WAKE_ORDER[i]) == i
  {
  }

  lemma WakeOrderFacts()
    ensures Distinct(WAKE_ORDER) && forall i :: 0 <= i < |WAKE_REQUIRED| ==> WAKE_REQUIRED[i] in WAKE_ORDER
  {
    assert Distinct(WAKE_ORDER) by { WakeOrderIsIndexed(); }
    forall i | 0 <= i < |WAKE_REQUIRED|
      ensures WAKE_REQUIRED[i] in WAKE_ORDER
    {
      assert WireIndex(WAKE_REQUIRED[i]) < 20;
      WakeKeysListed(WAKE_REQUIRED[i]);
    }
  }

  lemma AckOrderFacts()
    ensures Distinct(ACK_ORDER) && forall i :: 0 <= i < |ACK_REQUIRED| ==> ACK_REQUIRED[i] in ACK_ORDER
  {
    assert forall i :: 0 <= i < 4 ==> ACK_REQUIRED[i] == ACK_ORDER[i];
  }

  ghost predicate HoldsFields(m: WakeMessage, env: Env) {
    forall k :: WireIndex(k) < 20 ==> Lookup(env, k) == WakeField(m, k)
  }

  lemma WakeInts(m: WakeMessage, env: Env)
    requires HoldsFields(m, env)
    ensures WakeOf(env).schemaVersion == m.schemaVersion
    ensures WakeOf(env).decisionTsMs == m.decisionTsMs
    ensures WakeOf(env).sentAtMs == m.sentAtMs
    ensures WakeOf(env).sentAtNs == m.sentAtNs
    ensures WakeOf(env).recvNs == m.recvNs
    ensures WakeOf(env).exchangeIndex == m.exchangeIndex
  {
    hide Lookup, TextAt, DoubleAt;
    assert WireIndex(SchemaVersion) < 20 && WireIndex(DecisionTsMs) < 20 && WireIndex(SentAtMs) < 20 && WireIndex(SentAtNs) < 20 && WireIndex(RecvNs) < 20 && WireIndex(ExchangeIndex) < 20;
  }

  lemma WakeTexts(m: WakeMessage, env: Env)
    requires HoldsFields(m, env)
    ensures WakeOf(env).correlationId == m.correlationId
    ensures WakeOf(env).marketTicker == m.marketTicker
    ensures WakeOf(env).asset == m.asset
    ensures WakeOf(env).clockDomain == m.clockDomain
    ensures WakeOf(env).correlationGroup == m.correlationGroup
  {
    hide Lookup, IntAt, DoubleAt;
    assert WireIndex(CorrelationId) < 20 && WireIndex(MarketTicker) < 20 && WireIndex(Asset) < 20 && WireIndex(ClockDomain) < 20 && WireIndex(CorrelationGroup) < 20;
  }

  lemma WakeDoubles(m: WakeMessage, env: Env)
    requires HoldsFields(m, env)
    ensures WakeOf(env).kalshiPrice == m.kalshiPrice
    ensures WakeOf(env).modelProbability == m.modelProbability
    ensures WakeOf(env).fee == m.fee
    ensures WakeOf(env).edge == m.edge
    ensures WakeOf(env).wirePrice == m.wirePrice
    ensures WakeOf(env).availableSize == m.availableSize
  {
    hide Lookup, IntAt, TextAt;
    assert WireIndex(KalshiPrice) < 20 && WireIndex(ModelProbability) < 20 && WireIndex(Fee) < 20 && WireIndex(Edge) < 20 && WireIndex(WirePrice) < 20 && WireIndex(AvailableSize) < 20;
  }

  lemma WakeOthers(m: WakeMessage, env: Env)
    requires HoldsFields(m, env)
    ensures WakeOf(env).direction == m.direction
    ensures WakeOf(env).dryRun == m.dryRun
    ensures WakeOf(env).priceRanges == m.priceRanges
  {
    hide Lookup, IntAt, TextAt, DoubleAt;
    assert WireIndex(DirectionKey) < 20 && WireIndex(DryRun) < 20 && WireIndex(PriceRanges) < 20;
  }

  lemma WakeFromFields(m: WakeMessage, env: Env)
    requires HoldsFields(m, env)
    ensures WakeOf(env) == m
  {
    hide Lookup, HoldsFields, WakeOf;
    WakeInts(m, env);
    WakeTexts(m, env);
    WakeDoubles(m, env);
    WakeOthers(m, env);
  }

  /** Decoding the encoded body of a message returns that message. */
  lemma WakeRoundTrip(fc: FromChars, m: WakeMessage)
    requires EncodableWake(fc, m)
    ensures ValidWake(m) && DecodeWake(fc, WakeBody(m)) == Good(m)
  {
    hide DecodeRecord, RecordText, WakeOf, Encodable, Distinct, EncodableWake;
    assert ValidWake(m) by { WakeIsValid(fc, m); }
    WakeFieldsEncodable(fc, m);
    WakeOrderFacts();
    var env := RecordRoundTrip(fc, WAKE_ORDER, WAKE_REQUIRED, WakeFields(m));
    forall k | WireIndex(k) < 20
      ensures Lookup(env, k) == WakeField(m, k)
    {
      WakeKeysListed(k);
    }
    WakeFromFields(m, env);
  }

  lemma WakeIsValid(fc: FromChars, m: WakeMessage)
    requires EncodableWake(fc, m)
    ensures ValidWake(m)
  {
    hide Utf8.WellFormed, ValidDouble;
  }

  lemma AckFieldsEncodable(fc: FromChars, a: WakeAck)
    requires EncodableAck(a)
    ensures EncodableFields(fc, ACK_ORDER, AckFields(a))
  {
    hide Utf8.WellFormed, IsInt64;
  }

  /** Decoding the encoded body of an ack returns that ack. */
  lemma AckRoundTrip(fc: FromChars, a: WakeAck)
    requires EncodableAck(a)
    ensures DecodeAck(fc, AckBody(a)) == Good(a)
  {
    hide DecodeRecord, RecordText, Encodable, Distinct, EncodableAck;
    AckFieldsEncodable(fc, a);
    AckOrderFacts();
    var env := RecordRoundTrip(fc, ACK_ORDER, ACK_REQUIRED, AckFields(a));
    assert env[ACK_ORDER[0]] == AckField(a, SchemaVersion) && env[ACK_ORDER[1]] == AckField(a, CorrelationId);
    assert env[ACK_ORDER[2]] == AckField(a, ReceivedAtMs) && env[ACK_ORDER[3]] == AckField(a, Status);
    assert env[ACK_ORDER[4]] == AckField(a, ReasonKey);
  }

  /** The ack `serve_connection` builds for a frame that does not decode. */
  function RejectedAck(reason: Reason, receivedAtMs: int): (a: WakeAck) {
    WakeAck(SCHEMA_VERSION, [], receivedAtMs, Rejected, Some(Message(reason)))
  }

  /** Whatever bytes failed to decode, the rejection goes out as text the peer can decode. */
  lemma RejectionDecodes(fc: FromChars, body: bytes, receivedAtMs: int)
    requires IsInt64(receivedAtMs) && DecodeWake(fc, body).Bad?
    ensures DecodeAck(fc, AckBody(RejectedAck(DecodeWake(fc, body).reason, receivedAtMs))) ==
      Good(RejectedAck(DecodeWake(fc, body).reason, receivedAtMs))
    ensures Utf8.WellFormed(Message(DecodeWake(fc, body).reason))
  {
    hide DecodeAck, AckBody, Message, DecodeRecord;
    var reason := DecodeWake(fc, body).reason;
    MessageWellFormed(reason);
    AckRoundTrip(fc, RejectedAck(reason, receivedAtMs));
  }
}
