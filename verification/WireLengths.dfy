/** The accepted ack is always shorter than the wake it answers, so it always fits the frame cap. */
module WireLengths {
  import opened Bytes
  import opened JsonStrings
  import opened JsonNumbers
  import opened JsonGrammar
  import opened WireKeys
  import opened WireText
  import opened WireGrammar
  import opened WireRecords
  import opened Wire
  import opened WireRoundTrip

  /** The fewest bytes any text of this value takes; for a string, its canonical literal. */
  function FieldMin(f: FieldValue): (n: nat) {
    match f
    case StringField(s) => |StringText(s)|
    case DirectionField(d) => |DirectionText(d)| + 2
    case _ => 1
  }

  lemma TypedLength(fc: FromChars, t: Kind, v: Value)
    requires ValidValue(v) && WellTyped(fc, t, v) && (t == IntKind || t == StringKind || t == DirectionKind || t == DoubleKind)
    ensures |PrintValue(v)| >= FieldMin(FieldOf(fc, t, v))
  {
    hide StringText, DenotePieces, EscapeAll, Magnitude;
    if v.Str? {
      ReencodingNotLonger(v.pieces);
      if t == DirectionKind {
        WordLengths(DenotePieces(v.pieces));
      }
    } else {
      NumberStarts(v.n);
    }
  }

  lemma WordLengths(s: bytes)
    requires s == YES || s == NO
    ensures |StringText(s)| >= |s| + 2
  {
    hide EscapeAll;
    EscapedAtLeast(s);
  }

  lemma {:induction false} EscapedAtLeast(s: bytes)
    ensures |EscapeAll(s)| >= |s|
  {
    if s != [] {
      EscapedAtLeast(s[1..]);
    }
  }

  /** The keys every wake carries. */
  predicate Needed(k: Key) {
    match k
    case SchemaVersion | CorrelationId | MarketTicker | Asset | DirectionKey | KalshiPrice
    | ModelProbability | Fee | Edge | DecisionTsMs | SentAtMs | SentAtNs => true
    case _ => false
  }

  /** A member costs its name, two quotes, a colon, a separator and its value. */
  function Cost(env: Env, k: Key): (n: nat) {
    if k in env then NameLength(k) + 4 + FieldMin(env[k]) else 0
  }

  function TotalCost(env: Env): (n: nat) {
    Cost(env, SchemaVersion) + Cost(env, CorrelationId) + Cost(env, MarketTicker) + Cost(env, Asset)
    + Cost(env, DirectionKey) + Cost(env, KalshiPrice) + Cost(env, ModelProbability) + Cost(env, Fee)
    + Cost(env, Edge) + Cost(env, DecisionTsMs) + Cost(env, SentAtMs) + Cost(env, SentAtNs)
  }

  lemma CostElsewhere(env: Env, k: Key, f: FieldValue, j: Key)
    ensures j != k ==> Cost(env[k := f], j) == Cost(env, j)
    ensures j == k ==> Cost(env[k := f], j) == NameLength(k) + 4 + FieldMin(f)
  {
  }

  /** Assigning one key raises the total by at most the cost of that member. */
  lemma CostStep(env: Env, k: Key, f: FieldValue)
    ensures TotalCost(env[k := f]) <= TotalCost(env) + (if Needed(k) then NameLength(k) + 4 + FieldMin(f) else 0)
  {
    hide Cost, FieldMin, NameLength;
    CostElsewhere(env, k, f, SchemaVersion);
    CostElsewhere(env, k, f, CorrelationId);
    CostElsewhere(env, k, f, MarketTicker);
    CostElsewhere(env, k, f, Asset);
    CostElsewhere(env, k, f, DirectionKey);
    CostElsewhere(env, k, f, KalshiPrice);
    CostElsewhere(env, k, f, ModelProbability);
    CostElsewhere(env, k, f, Fee);
    CostElsewhere(env, k, f, Edge);
    CostElsewhere(env, k, f, DecisionTsMs);
    CostElsewhere(env, k, f, SentAtMs);
    CostElsewhere(env, k, f, SentAtNs);
  }

  lemma NameLiteralLength(ps: seq<Piece>, k: Key)
    requires ValidPieces(ps) && KeyOf(DenotePieces(ps)) == Some(k)
    ensures |PrintString(ps)| >= NameLength(k) + 2
  {
    hide DenotePieces, EscapeAll, PrintPieces, NameLength, KeyText;
    ReencodingNotLonger(ps);
    EscapedAtLeast(DenotePieces(ps));
    NameLengths(k);
  }

  lemma MemberLength(fc: FromChars, schema: set<Key>, m: Member)
    requires TypedMember(fc, schema, m)
    ensures var k := MemberKey(fc, schema, m);
      |PrintMember(m)| + 1 >= (if Needed(k) then NameLength(k) + 4 + FieldMin(MemberField(fc, schema, m)) else 0)
  {
    hide PrintString, PrintValue, DenotePieces, NameLength, FieldMin, WellTyped, FieldOf, KeyOf;
    var k := MemberKey(fc, schema, m);
    NameLiteralLength(m.key, k);
    if Needed(k) {
      TypedLength(fc, KindOf(k), m.value);
    }
  }

  lemma {:induction false} TailLength(fc: FromChars, schema: set<Key>, ms: seq<Member>, env: Env)
    requires TypedMembers(fc, schema, ms) && ValidMembers(ms)
    ensures |PrintMemberTail(ms)| + TotalCost(env) >= TotalCost(Assign(fc, schema, ms, env))
  {
    hide TotalCost, PrintMember, NameLength, FieldMin, TypedMember, MemberKey, MemberField;
    if ms != [] {
      var k, f := MemberKey(fc, schema, ms[0]), MemberField(fc, schema, ms[0]);
      MemberLength(fc, schema, ms[0]);
      CostStep(env, k, f);
      TailLength(fc, schema, ms[1..], env[k := f]);
    }
  }

  lemma ObjectLength(fc: FromChars, schema: set<Key>, d: Document)
    requires ValidDocument(d) && d.root.Obj? && TypedMembers(fc, schema, d.root.members) && d.root.members != []
    ensures |PrintDocument(d)| >= 1 + TotalCost(Assign(fc, schema, d.root.members, map[]))
  {
    hide TotalCost, PrintMember, PrintMemberTail, TypedMember;
    var ms := d.root.members;
    assert ValidMembers(ms);
    TailLength(fc, schema, ms, map[]);
    assert TotalCost(map[]) == 0 by { EmptyCost(); }
    assert |PrintMemberTail(ms)| == 1 + |PrintMember(ms[0])| + |PrintMemberTail(ms[1..])| by { TailHead(ms); }
  }

  lemma EmptyCost()
    ensures TotalCost(map[]) == 0
  {
  }

  lemma TailHead(ms: seq<Member>)
    requires ValidMembers(ms) && ms != []
    ensures |PrintMemberTail(ms)| == 1 + |PrintMember(ms[0])| + |PrintMemberTail(ms[1..])|
  {
    hide PrintMember;
  }

  /** The fewest bytes the member of a required key can take, its separator included. */
  function LeastCost(k: Key): (n: nat) {
    match k
    case SchemaVersion | MarketTicker | DecisionTsMs => 19
    case Asset => 11
    case DirectionKey | KalshiPrice => 17
    case ModelProbability => 22
    case Fee => 8
    case Edge => 9
    case SentAtMs | SentAtNs => 15
    case _ => 0
  }

  lemma AtLeastCost(env: Env, k: Key)
    requires Needed(k) && k in env && HasKind(env[k], KindOf(k))
    ensures Cost(env, k) >= LeastCost(k)
    ensures k == CorrelationId ==> Cost(env, k) == 18 + |StringText(env[k].s)|
  {
    hide StringText;
  }

  /** With all twelve required keys present, everything but the correlation id takes 190 bytes. */
  lemma RequiredCost(env: Env)
    requires forall k :: Needed(k) ==> k in env && HasKind(env[k], KindOf(k))
    ensures 1 + TotalCost(env) >= 190 + |StringText(WakeOf(env).correlationId)|
  {
    hide StringText, WakeOf, Cost, HasKind, KindOf;
    assert Needed(CorrelationId);
    StringKindIs(env[CorrelationId]);
    CorrelationOf(env);
    AtLeastCost(env, CorrelationId);
    AtLeastCost(env, SchemaVersion);
    AtLeastCost(env, MarketTicker);
    AtLeastCost(env, Asset);
    AtLeastCost(env, DirectionKey);
    AtLeastCost(env, KalshiPrice);
    AtLeastCost(env, ModelProbability);
    AtLeastCost(env, Fee);
    AtLeastCost(env, Edge);
    AtLeastCost(env, DecisionTsMs);
    AtLeastCost(env, SentAtMs);
    AtLeastCost(env, SentAtNs);
  }

  lemma StringKindIs(f: FieldValue)
    requires HasKind(f, KindOf(CorrelationId))
    ensures f.StringField?
  {
  }

  lemma CorrelationOf(env: Env)
    requires CorrelationId in env && env[CorrelationId].StringField?
    ensures WakeOf(env).correlationId == env[CorrelationId].s
  {
  }

  lemma {:induction false} AssignKinds(fc: FromChars, schema: set<Key>, ms: seq<Member>, env: Env)
    requires TypedMembers(fc, schema, ms) && forall k :: k in env ==> HasKind(env[k], KindOf(k))
    ensures forall k :: k in Assign(fc, schema, ms, env) ==> HasKind(Assign(fc, schema, ms, env)[k], KindOf(k))
  {
    hide TypedMember, HasKind, KindOf;
    if ms != [] {
      var k, f := MemberKey(fc, schema, ms[0]), MemberField(fc, schema, ms[0]);
      MemberKind(fc, schema, ms[0]);
      AssignKinds(fc, schema, ms[1..], env[k := f]);
    }
  }

  lemma MemberKind(fc: FromChars, schema: set<Key>, m: Member)
    requires TypedMember(fc, schema, m)
    ensures HasKind(MemberField(fc, schema, m), KindOf(MemberKey(fc, schema, m)))
  {
  }

  /** The ack `serve_connection` sends for a message it accepts. */
  function AcceptedAck(m: WakeMessage, receivedAtMs: int): (a: WakeAck) {
    WakeAck(SCHEMA_VERSION, m.correlationId, receivedAtMs, Accepted, None)
  }

  lemma NextMember(order: seq<Key>, fields: Key -> FieldValue, n: nat, size: nat)
    requires 1 <= n <= |order| && forall i :: 0 <= i < |order| ==> ValidField(fields(order[i]))
    requires |FieldText(fields(order[n - 1]))| <= size
    ensures |FieldsText(order, fields, n)| <=
      |FieldsText(order, fields, n - 1)| + (if n == 1 then 0 else 1) + NameLength(order[n - 1]) + 3 + size
  {
    hide FieldText, KeyText, NameLength;
    NameLengths(order[n - 1]);
  }

  function AcceptedSize(m: WakeMessage, k: Key): (n: nat) {
    match k
    case SchemaVersion => 1
    case CorrelationId => |StringText(m.correlationId)|
    case ReceivedAtMs => 20
    case Status => 10
    case ReasonKey => 4
    case _ => 5
  }

  lemma AcceptedText(m: WakeMessage, receivedAtMs: int, k: Key)
    requires IsInt64(receivedAtMs)
    ensures |FieldText(AckField(AcceptedAck(m, receivedAtMs), k))| <= AcceptedSize(m, k)
  {
    hide StringText, PrintNumber, IntNumber;
    IntTextLength(receivedAtMs);
    SmallTexts();
  }

  lemma AckFieldsValid(a: WakeAck)
    ensures forall i :: 0 <= i < |ACK_ORDER| ==> ValidField(AckFields(a)(ACK_ORDER[i]))
  {
  }

  lemma AcceptedMember(m: WakeMessage, receivedAtMs: int, n: nat)
    requires IsInt64(receivedAtMs) && 1 <= n <= 5
    ensures var f := AckFields(AcceptedAck(m, receivedAtMs));
      && (forall i :: 0 <= i < |ACK_ORDER| ==> ValidField(f(ACK_ORDER[i])))
      && |FieldsText(ACK_ORDER, f, n)| <= |FieldsText(ACK_ORDER, f, n - 1)| + (if n == 1 then 0 else 1)
           + NameLength(ACK_ORDER[n - 1]) + 3 + AcceptedSize(m, ACK_ORDER[n - 1])
  {
    hide StringText, FieldText, AcceptedAck, AckField, NameLength;
    var a := AcceptedAck(m, receivedAtMs);
    var k := ACK_ORDER[n - 1];
    AckFieldsValid(a);
    AcceptedText(m, receivedAtMs, k);
    assert AckFields(a)(k) == AckField(a, k);
    NextMember(ACK_ORDER, AckFields(a), n, |FieldText(AckField(a, k))|);
  }

  lemma AcceptedAckLength(m: WakeMessage, receivedAtMs: int)
    requires IsInt64(receivedAtMs)
    ensures |AckBody(AcceptedAck(m, receivedAtMs))| <= 110 + |StringText(m.correlationId)|
  {
    hide StringText, FieldsText, FieldText, AckFields, AcceptedAck;
    var a := AcceptedAck(m, receivedAtMs);
    var f := AckFields(a);
    AckFieldsValid(a);
    OpeningBrace(f);
    AcceptedMember(m, receivedAtMs, 1);
    AcceptedMember(m, receivedAtMs, 2);
    AcceptedMember(m, receivedAtMs, 3);
    AcceptedMember(m, receivedAtMs, 4);
    AcceptedMember(m, receivedAtMs, 5);
  }

  lemma OpeningBrace(f: Key -> FieldValue)
    requires forall i :: 0 <= i < |ACK_ORDER| ==> ValidField(f(ACK_ORDER[i]))
    ensures |FieldsText(ACK_ORDER, f, 0)| == 1
  {
  }

  lemma SmallTexts()
    ensures |PrintNumber(IntNumber(SCHEMA_VERSION))| == 1 && |StringText(ACCEPTED)| == 10
  {
    EscapeRaw(ACCEPTED);
  }

  lemma NeededListed(k: Key)
    requires Needed(k)
    ensures k in WAKE_REQUIRED
  {
    assert WAKE_REQUIRED[WireIndex(k)] == k;
  }

  /** For every accepted wake, the ack body is shorter than the wake body. */
  lemma AckShorterThanWake(fc: FromChars, body: bytes, receivedAtMs: int)
    requires IsInt64(receivedAtMs) && DecodeWake(fc, body).Good?
    ensures |AckBody(AcceptedAck(DecodeWake(fc, body).value, receivedAtMs))| < |body|
  {
    hide DecodeRecord, WakeOf, AckBody, TypedMembers, TotalCost, StringText, Assign, PrintDocument, ValidDocument, KindOf;
    var schema := KeysOf(WAKE_ORDER);
    var d := RecordSound(fc, schema, WAKE_REQUIRED, body);
    RecordComplete(fc, schema, WAKE_REQUIRED, d);
    var ms := d.root.members;
    var env := Assign(fc, schema, ms, map[]);
    assert HasKey(fc, schema, ms, WAKE_REQUIRED[0]);
    ObjectLength(fc, schema, d);
    AssignKinds(fc, schema, ms, map[]);
    forall k | Needed(k)
      ensures k in env
    {
      NeededListed(k);
    }
    RequiredCost(env);
    AcceptedAckLength(WakeOf(env), receivedAtMs);
  }
}
