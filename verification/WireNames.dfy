/** The two records with their member names and words written out, as src/protocol.cpp spells them: what is accepted,
    which field each member sets, and the text the encoders write. */
module WireNames {
  import opened Bytes
  import opened JsonStrings
  import opened JsonNumbers
  import opened JsonGrammar
  import opened WireKeys
  import opened WireText
  import opened WireGrammar
  import opened WireRecords
  import opened Wire
  import opened WireRoundTrip
  import opened WireLengths
  import opened WireRejections
  import opened WireDecoding
  import opened JsonSpelling
  import opened Codec

  // ------------------------------------------------------------------- by name

  ghost predicate HasName(m: Member, name: string) {
    ValidPieces(m.key) && DenotePieces(m.key) == Ascii(name)
  }

  ghost predicate SomeNamed(ms: seq<Member>, name: string) {
    exists i :: 0 <= i < |ms| && HasName(ms[i], name)
  }

  /** Member `i` is the last one with this name. */
  ghost predicate LastNamed(ms: seq<Member>, name: string, i: int) {
    0 <= i < |ms| && HasName(ms[i], name) && forall j :: i < j < |ms| ==> !HasName(ms[j], name)
  }

  lemma NameIsKey(fc: FromChars, schema: set<Key>, m: Member, k: Key)
    requires TypedMember(fc, schema, m)
    ensures HasName(m, KeyName(k)) <==> MemberKey(fc, schema, m) == k
  {
    hide KeyName, DenotePieces, WellTyped, ValidPieces, KeyOf;
    KeyOfName(k);
    KeyOfInverts(DenotePieces(m.key));
  }

  lemma KeyOfInverts(text: bytes)
    ensures KeyOf(text).Some? ==> KeyText(KeyOf(text).value) == text
  {
  }

  lemma NamedIsKeyed(fc: FromChars, schema: set<Key>, ms: seq<Member>, k: Key)
    requires TypedMembers(fc, schema, ms)
    ensures SomeNamed(ms, KeyName(k)) <==> HasKey(fc, schema, ms, k)
    ensures forall i :: LastNamed(ms, KeyName(k), i) ==> IsLast(fc, schema, ms, i) && MemberKey(fc, schema, ms[i]) == k
  {
    hide KeyName, HasName, MemberKey, TypedMember;
    forall i | 0 <= i < |ms|
      ensures HasName(ms[i], KeyName(k)) <==> MemberKey(fc, schema, ms[i]) == k
    {
      NameIsKey(fc, schema, ms[i], k);
    }
  }

  // -------------------------------------------------------------- what is accepted

  ghost predicate OneOf(text: bytes, names: seq<string>) {
    exists i :: 0 <= i < |names| && text == Ascii(names[i])
  }

  const INT_NAMES: seq<string> :=
    ["schema_version", "decision_ts_ms", "sent_at_ms", "sent_at_ns", "recv_ns", "exchange_index"]
  const TEXT_NAMES: seq<string> := ["correlation_id", "market_ticker", "asset", "clock_domain", "correlation_group"]
  const DOUBLE_NAMES: seq<string> :=
    ["kalshi_price", "model_probability", "fee", "edge", "wire_price_yes_dollars", "available_size_contracts"]
  const REQUIRED_NAMES: seq<string> :=
    ["schema_version", "correlation_id", "market_ticker", "asset", "direction", "kalshi_price", "model_probability", "fee",
     "edge", "decision_ts_ms", "sent_at_ms", "sent_at_ns"]
  const ACK_REQUIRED_NAMES: seq<string> := ["schema_version", "correlation_id", "received_at_ms", "status"]

  ghost predicate IsInteger(v: Value)
    requires ValidValue(v)
  {
    v.Num? && Integral(v.n) && IsInt64(IntegerValue(v.n))
  }

  ghost predicate IsWord(v: Value, word: string)
    requires ValidValue(v)
  {
    v.Str? && DenotePieces(v.pieces) == Ascii(word)
  }

  /** A member of a wake: a name on the list, and a value of its type. */
  ghost predicate WakeMember(fc: FromChars, m: Member) {
    && ValidMember(m)
    && var name, v := DenotePieces(m.key), m.value;
      || (OneOf(name, INT_NAMES) && IsInteger(v))
      || (OneOf(name, TEXT_NAMES) && v.Str?)
      || (OneOf(name, DOUBLE_NAMES) && NumberOf(fc, v).Some?)
      || (name == Ascii("direction") && (IsWord(v, "yes") || IsWord(v, "no")))
      || (name == Ascii("dry_run") && (v.True? || v.False?))
      || (name == Ascii("price_ranges") && v.Arr? && AllRanges(fc, v.elems))
  }

  ghost predicate AckMember(m: Member) {
    && ValidMember(m)
    && var name, v := DenotePieces(m.key), m.value;
      || (OneOf(name, ["schema_version", "received_at_ms"]) && IsInteger(v))
      || (name == Ascii("correlation_id") && v.Str?)
      || (name == Ascii("status") && (IsWord(v, "accepted") || IsWord(v, "rejected")))
      || (name == Ascii("reason") && (v.Null? || v.Str?))
  }

  const INT_KEYS: seq<Key> := [SchemaVersion, DecisionTsMs, SentAtMs, SentAtNs, RecvNs, ExchangeIndex]
  const TEXT_KEYS: seq<Key> := [CorrelationId, MarketTicker, Asset, ClockDomain, CorrelationGroup]
  const DOUBLE_KEYS: seq<Key> := [KalshiPrice, ModelProbability, Fee, Edge, WirePrice, AvailableSize]

  /** The names are those of the keys, one for one. */
  ghost predicate NamesOf(names: seq<string>, keys: seq<Key>) {
    |names| == |keys| && forall i :: 0 <= i < |names| ==> names[i] == KeyName(keys[i])
  }

  lemma IntNames()
    ensures NamesOf(INT_NAMES, INT_KEYS)
  {
  }

  lemma TextNames()
    ensures NamesOf(TEXT_NAMES, TEXT_KEYS)
  {
  }

  lemma DoubleNames()
    ensures NamesOf(DOUBLE_NAMES, DOUBLE_KEYS)
  {
  }

  lemma SingleNames()
    ensures KeyName(DirectionKey) == "direction" && KeyName(DryRun) == "dry_run" && KeyName(PriceRanges) == "price_ranges"
  {
  }

  lemma OneOfKeys(text: bytes, names: seq<string>, keys: seq<Key>)
    requires NamesOf(names, keys)
    ensures OneOf(text, names) <==> KeyOf(text).Some? && KeyOf(text).value in keys
  {
    hide KeyName, KeyOf;
    KeyOfInverts(text);
    if OneOf(text, names) {
      var i :| 0 <= i < |names| && text == Ascii(names[i]);
      KeyOfName(keys[i]);
    }
    if KeyOf(text).Some? && KeyOf(text).value in keys {
      var i :| 0 <= i < |keys| && keys[i] == KeyOf(text).value;
      assert text == Ascii(names[i]);
    }
  }

  lemma NameIs(text: bytes, k: Key)
    ensures text == Ascii(KeyName(k)) <==> KeyOf(text) == Some(k)
  {
    hide KeyName, KeyOf;
    KeyOfInverts(text);
    KeyOfName(k);
  }

  /** The kinds of the keys of a wake, as lists. */
  lemma KindLists(k: Key)
    ensures k in KeysOf(WAKE_ORDER) <==> WireIndex(k) < 20
    ensures k in INT_KEYS <==> WireIndex(k) < 20 && KindOf(k) == IntKind
    ensures k in TEXT_KEYS <==> WireIndex(k) < 20 && KindOf(k) == StringKind
    ensures k in DOUBLE_KEYS <==> WireIndex(k) < 20 && KindOf(k) == DoubleKind
  {
    hide WireIndex, KindOf, KeysOf;
    if k in KeysOf(WAKE_ORDER) {
      WakeKeyIndex(k);
    }
    if WireIndex(k) < 20 {
      WakeKeysListed(k);
      InKeys(WAKE_ORDER, k);
    }
    InIntKeys(k);
    InTextKeys(k);
    InDoubleKeys(k);
  }

  lemma InIntKeys(k: Key)
    ensures k in INT_KEYS <==> WireIndex(k) < 20 && KindOf(k) == IntKind
  {
    assert INT_KEYS[0] == SchemaVersion;
    assert INT_KEYS[1] == DecisionTsMs;
    assert INT_KEYS[2] == SentAtMs;
    assert INT_KEYS[3] == SentAtNs;
    assert INT_KEYS[4] == RecvNs;
    assert INT_KEYS[5] == ExchangeIndex;
  }

  lemma InTextKeys(k: Key)
    ensures k in TEXT_KEYS <==> WireIndex(k) < 20 && KindOf(k) == StringKind
  {
    assert TEXT_KEYS[0] == CorrelationId;
    assert TEXT_KEYS[1] == MarketTicker;
    assert TEXT_KEYS[2] == Asset;
    assert TEXT_KEYS[3] == ClockDomain;
    assert TEXT_KEYS[4] == CorrelationGroup;
  }

  lemma InDoubleKeys(k: Key)
    ensures k in DOUBLE_KEYS <==> WireIndex(k) < 20 && KindOf(k) == DoubleKind
  {
    assert DOUBLE_KEYS[0] == KalshiPrice;
    assert DOUBLE_KEYS[1] == ModelProbability;
    assert DOUBLE_KEYS[2] == Fee;
    assert DOUBLE_KEYS[3] == Edge;
    assert DOUBLE_KEYS[4] == WirePrice;
    assert DOUBLE_KEYS[5] == AvailableSize;
  }

  /** A typed member is one of the written-out ones. */
  lemma WakeMemberIsTyped(fc: FromChars, m: Member)
    ensures WakeMember(fc, m) <==> TypedMember(fc, KeysOf(WAKE_ORDER), m)
  {
    hide KeyName, KeyOf, DenotePieces, KeysOf, OneOf, NumberOf, AllRanges, IntegerValue, ValidPieces, NamesOf, WireIndex;
    if ValidMember(m) {
      var text := DenotePieces(m.key);
      IntNames();
      TextNames();
      DoubleNames();
      SingleNames();
      WordsSpelledOut();
      OneOfKeys(text, INT_NAMES, INT_KEYS);
      OneOfKeys(text, TEXT_NAMES, TEXT_KEYS);
      OneOfKeys(text, DOUBLE_NAMES, DOUBLE_KEYS);
      NameIs(text, DirectionKey);
      NameIs(text, DryRun);
      NameIs(text, PriceRanges);
      if KeyOf(text).Some? {
        KindLists(KeyOf(text).value);
        OtherKinds(KeyOf(text).value);
      }
    }
  }

  lemma OtherKinds(k: Key)
    ensures KindOf(k) == DirectionKind <==> k == DirectionKey
    ensures KindOf(k) == BoolKind <==> k == DryRun
    ensures KindOf(k) == RangesKind <==> k == PriceRanges
    ensures WireIndex(DirectionKey) < 20 && WireIndex(DryRun) < 20 && WireIndex(PriceRanges) < 20
    ensures KindOf(k) == StatusKind || KindOf(k) == ReasonKind ==> WireIndex(k) >= 20
  {
  }

  /** The documents that are wakes, written out. */
  ghost predicate SpelledWake(fc: FromChars, d: Document) {
    && ValidDocument(d) && d.root.Obj?
    && (forall i :: 0 <= i < |d.root.members| ==> WakeMember(fc, d.root.members[i]))
    && (forall r :: 0 <= r < |REQUIRED_NAMES| ==> SomeNamed(d.root.members, REQUIRED_NAMES[r]))
  }

  lemma RequiredNames()
    ensures NamesOf(REQUIRED_NAMES, WAKE_REQUIRED)
  {
  }

  /** `decode_wake_message` accepts a body exactly when it is the text of a written-out wake. */
  lemma AcceptsSpelledWakes(fc: FromChars, body: bytes)
    ensures DecodeWake(fc, body).Good? <==> exists d :: SpelledWake(fc, d) && PrintDocument(d) == body
  {
    hide DecodeWake, ValidDocument, PrintDocument, WakeMember, TypedMembers, SomeNamed, HasKey, KeysOf;
    DecodeWakeExactly(fc, body);
    if d :| SpelledWake(fc, d) && PrintDocument(d) == body {
      SpelledIsWake(fc, d);
    }
    if d :| IsWake(fc, d) && PrintDocument(d) == body {
      SpelledIsWake(fc, d);
    }
  }

  lemma SpelledIsWake(fc: FromChars, d: Document)
    ensures SpelledWake(fc, d) <==> IsWake(fc, d)
    ensures IsWake(fc, d) ==> ValidDocument(d)
  {
    hide WakeMember, TypedMember, ValidDocument, KeysOf, SomeNamed, HasKey, KeyName;
    if ValidDocument(d) && d.root.Obj? {
      var ms := d.root.members;
      forall i | 0 <= i < |ms|
        ensures WakeMember(fc, ms[i]) <==> TypedMember(fc, KeysOf(WAKE_ORDER), ms[i])
      {
        WakeMemberIsTyped(fc, ms[i]);
      }
      RequiredNames();
      if TypedMembers(fc, KeysOf(WAKE_ORDER), ms) {
        forall r | 0 <= r < |WAKE_REQUIRED|
          ensures SomeNamed(ms, REQUIRED_NAMES[r]) <==> HasKey(fc, KeysOf(WAKE_ORDER), ms, WAKE_REQUIRED[r])
        {
          NamedIsKeyed(fc, KeysOf(WAKE_ORDER), ms, WAKE_REQUIRED[r]);
        }
      }
    }
  }

  // ------------------------------------------------------ which field a member sets

  ghost predicate IntValue(v: Value, x: int) {
    ValidValue(v) && v.Num? && x == IntegerValue(v.n)
  }

  ghost predicate TextValue(v: Value, s: bytes) {
    ValidValue(v) && v.Str? && s == DenotePieces(v.pieces)
  }

  ghost predicate IntIs(ms: seq<Member>, name: string, v: int, default: int) {
    && (forall i :: LastNamed(ms, name, i) ==> IntValue(ms[i].value, v))
    && (!SomeNamed(ms, name) ==> v == default)
  }

  ghost predicate TextIs(ms: seq<Member>, name: string, s: bytes) {
    && (forall i :: LastNamed(ms, name, i) ==> TextValue(ms[i].value, s))
    && (!SomeNamed(ms, name) ==> s == [])
  }

  ghost predicate DoubleIs(fc: FromChars, ms: seq<Member>, name: string, x: Double) {
    && (forall i :: LastNamed(ms, name, i) ==> ValidValue(ms[i].value) && NumberOf(fc, ms[i].value) == Some(x))
    && (!SomeNamed(ms, name) ==> x == Finite(false, Ascii("0"), 0))
  }

  ghost predicate FlagIs(ms: seq<Member>, name: string, b: bool) {
    && (forall i :: LastNamed(ms, name, i) ==> ms[i].value == if b then True else False)
    && (!SomeNamed(ms, name) ==> !b)
  }

  ghost predicate DirectionIs(ms: seq<Member>, name: string, d: Direction) {
    && (forall i :: LastNamed(ms, name, i) ==> ValidValue(ms[i].value) && IsWord(ms[i].value, if d == Yes then "yes" else "no"))
    && (!SomeNamed(ms, name) ==> d == Yes)
  }

  /** Each element is an array of the three bounds. */
  ghost predicate BoundsAre(fc: FromChars, e: Elem, r: PriceRange) {
    && ValidElem(e) && e.value.Arr? && |e.value.elems| == 3
    && ValidValue(e.value.elems[0].value) && ValidValue(e.value.elems[1].value) && ValidValue(e.value.elems[2].value)
    && NumberOf(fc, e.value.elems[0].value) == Some(r.start)
    && NumberOf(fc, e.value.elems[1].value) == Some(r.end)
    && NumberOf(fc, e.value.elems[2].value) == Some(r.step)
  }

  ghost predicate RangesAre(fc: FromChars, ms: seq<Member>, name: string, rs: seq<PriceRange>) {
    && (forall i :: LastNamed(ms, name, i) ==>
      && ms[i].value.Arr? && |ms[i].value.elems| == |rs|
      && forall j :: 0 <= j < |rs| ==> BoundsAre(fc, ms[i].value.elems[j], rs[j]))
    && (!SomeNamed(ms, name) ==>
      rs == [PriceRange(Finite(false, Ascii("0"), 0), Finite(false, Ascii("1"), 0), Finite(false, Ascii("1"), -2))])
  }

  /** Every field of a message, by the name of the member that sets it. */
  ghost predicate WakeIs(fc: FromChars, ms: seq<Member>, m: WakeMessage) {
    && IntIs(ms, "schema_version", m.schemaVersion, 4)
    && TextIs(ms, "correlation_id", m.correlationId)
    && TextIs(ms, "market_ticker", m.marketTicker)
    && TextIs(ms, "asset", m.asset)
    && DirectionIs(ms, "direction", m.direction)
    && DoubleIs(fc, ms, "kalshi_price", m.kalshiPrice)
    && DoubleIs(fc, ms, "model_probability", m.modelProbability)
    && DoubleIs(fc, ms, "fee", m.fee)
    && DoubleIs(fc, ms, "edge", m.edge)
    && IntIs(ms, "decision_ts_ms", m.decisionTsMs, 0)
    && IntIs(ms, "sent_at_ms", m.sentAtMs, 0)
    && IntIs(ms, "sent_at_ns", m.sentAtNs, 0)
    && IntIs(ms, "recv_ns", m.recvNs, 0)
    && TextIs(ms, "clock_domain", m.clockDomain)
    && FlagIs(ms, "dry_run", m.dryRun)
    && DoubleIs(fc, ms, "wire_price_yes_dollars", m.wirePrice)
    && IntIs(ms, "exchange_index", m.exchangeIndex, -1)
    && DoubleIs(fc, ms, "available_size_contracts", m.availableSize)
    && RangesAre(fc, ms, "price_ranges", m.priceRanges)
    && TextIs(ms, "correlation_group", m.correlationGroup)
  }

  /** A field against the members with its name. */
  ghost predicate FieldIs(fc: FromChars, ms: seq<Member>, k: Key, f: FieldValue) {
    && (forall i :: LastNamed(ms, KeyName(k), i) ==>
      && ValidValue(ms[i].value) && WellTyped(fc, KindOf(k), ms[i].value) && f == FieldOf(fc, KindOf(k), ms[i].value))
    && (!SomeNamed(ms, KeyName(k)) ==> f == DefaultField(k))
  }

  lemma ByName(fc: FromChars, d: Document, m: WakeMessage, k: Key)
    requires IsWake(fc, d) && DecodeWake(fc, PrintDocument(d)) == Good(m) && WireIndex(k) < 20
    ensures FieldIs(fc, d.root.members, k, WakeField(m, k))
  {
    hide DecodeWake, KeyName, KeysOf, WakeField, DefaultField, HasName, HasKey, IsLast, KeyOf, FieldOf, WellTyped, PrintDocument, ValidDocument;
    var ms := d.root.members;
    var w := DecodedField(fc, d, k);
    NamedIsKeyed(fc, KeysOf(WAKE_ORDER), ms, k);
    forall i | LastNamed(ms, KeyName(k), i)
      ensures ValidValue(ms[i].value) && WellTyped(fc, KindOf(k), ms[i].value) && WakeField(m, k) == FieldOf(fc, KindOf(k), ms[i].value)
    {
      LastIsTyped(fc, ms, k, i);
    }
  }

  lemma LastIsTyped(fc: FromChars, ms: seq<Member>, k: Key, i: int)
    requires TypedMembers(fc, KeysOf(WAKE_ORDER), ms) && LastNamed(ms, KeyName(k), i)
    ensures MemberKey(fc, KeysOf(WAKE_ORDER), ms[i]) == k && IsLast(fc, KeysOf(WAKE_ORDER), ms, i)
    ensures ValidValue(ms[i].value) && WellTyped(fc, KindOf(k), ms[i].value)
    ensures MemberField(fc, KeysOf(WAKE_ORDER), ms[i]) == FieldOf(fc, KindOf(k), ms[i].value)
  {
    hide KeyName, KeysOf, KeyOf, FieldOf, WellTyped, HasName;
    NamedIsKeyed(fc, KeysOf(WAKE_ORDER), ms, k);
    assert TypedMember(fc, KeysOf(WAKE_ORDER), ms[i]);
  }

  lemma IntByName(fc: FromChars, ms: seq<Member>, k: Key, v: int)
    requires KindOf(k) == IntKind && FieldIs(fc, ms, k, IntField(v))
    ensures IntIs(ms, KeyName(k), v, if k == SchemaVersion then 4 else if k == ExchangeIndex then -1 else 0)
  {
    hide KeyName, HasName;
  }

  lemma TextByName(fc: FromChars, ms: seq<Member>, k: Key, s: bytes)
    requires KindOf(k) == StringKind && FieldIs(fc, ms, k, StringField(s))
    ensures TextIs(ms, KeyName(k), s)
  {
    hide KeyName, HasName;
  }

  lemma DoubleByName(fc: FromChars, ms: seq<Member>, k: Key, x: Double)
    requires KindOf(k) == DoubleKind && FieldIs(fc, ms, k, DoubleField(x))
    ensures DoubleIs(fc, ms, KeyName(k), x)
  {
    hide KeyName, HasName, NumberOf;
    assert Ascii("0") == [ZERO];
  }

  lemma FlagByName(fc: FromChars, ms: seq<Member>, b: bool)
    requires FieldIs(fc, ms, DryRun, BoolField(b))
    ensures FlagIs(ms, KeyName(DryRun), b)
  {
    hide KeyName, HasName;
  }

  lemma DirectionByName(fc: FromChars, ms: seq<Member>, d: Direction)
    requires FieldIs(fc, ms, DirectionKey, DirectionField(d))
    ensures DirectionIs(ms, KeyName(DirectionKey), d)
  {
    hide KeyName, HasName, DenotePieces;
    WordsSpelledOut();
  }

  lemma RangesByName(fc: FromChars, ms: seq<Member>, rs: seq<PriceRange>)
    requires FieldIs(fc, ms, PriceRanges, RangesField(rs))
    ensures RangesAre(fc, ms, KeyName(PriceRanges), rs)
  {
    hide KeyName, HasName, BoundsAre;
    forall i | LastNamed(ms, KeyName(PriceRanges), i)
      ensures ms[i].value.Arr? && |ms[i].value.elems| == |rs|
      ensures forall j :: 0 <= j < |rs| ==> BoundsAre(fc, ms[i].value.elems[j], rs[j])
    {
      forall j | 0 <= j < |rs|
        ensures BoundsAre(fc, ms[i].value.elems[j], rs[j])
      {
        BoundsDenote(fc, ms[i].value.elems[j]);
      }
    }
    assert Ascii("0") == [ZERO] && Ascii("1") == [0x31];
  }

  lemma BoundsDenote(fc: FromChars, e: Elem)
    requires ValidElem(e) && IsRange(fc, e.value)
    ensures BoundsAre(fc, e, RangeOf(fc, e.value))
  {
    hide NumberOf;
    var es := e.value.elems;
    assert ValidElem(es[0]) && ValidElem(es[1]) && ValidElem(es[2]);
  }

  lemma IntsByName(fc: FromChars, d: Document, m: WakeMessage)
    requires IsWake(fc, d) && DecodeWake(fc, PrintDocument(d)) == Good(m)
    ensures var ms := d.root.members;
      && IntIs(ms, "schema_version", m.schemaVersion, 4)
      && IntIs(ms, "decision_ts_ms", m.decisionTsMs, 0)
      && IntIs(ms, "sent_at_ms", m.sentAtMs, 0)
      && IntIs(ms, "sent_at_ns", m.sentAtNs, 0)
      && IntIs(ms, "recv_ns", m.recvNs, 0)
      && IntIs(ms, "exchange_index", m.exchangeIndex, -1)
  {
    hide DecodeWake, FieldIs, IntIs, TextIs, DoubleIs, FlagIs, DirectionIs, RangesAre, KeyName, PrintDocument, ValidDocument, TypedMembers, HasKey, KeysOf;
    var ms := d.root.members;
    IntNames();
    assert INT_NAMES[0] == KeyName(INT_KEYS[0]);
    assert INT_NAMES[1] == KeyName(INT_KEYS[1]);
    assert INT_NAMES[2] == KeyName(INT_KEYS[2]);
    assert INT_NAMES[3] == KeyName(INT_KEYS[3]);
    assert INT_NAMES[4] == KeyName(INT_KEYS[4]);
    assert INT_NAMES[5] == KeyName(INT_KEYS[5]);
    ByName(fc, d, m, SchemaVersion);
    IntByName(fc, ms, SchemaVersion, m.schemaVersion);
    ByName(fc, d, m, DecisionTsMs);
    IntByName(fc, ms, DecisionTsMs, m.decisionTsMs);
    ByName(fc, d, m, SentAtMs);
    IntByName(fc, ms, SentAtMs, m.sentAtMs);
    ByName(fc, d, m, SentAtNs);
    IntByName(fc, ms, SentAtNs, m.sentAtNs);
    ByName(fc, d, m, RecvNs);
    IntByName(fc, ms, RecvNs, m.recvNs);
    ByName(fc, d, m, ExchangeIndex);
    IntByName(fc, ms, ExchangeIndex, m.exchangeIndex);
  }

  lemma TextsByName(fc: FromChars, d: Document, m: WakeMessage)
    requires IsWake(fc, d) && DecodeWake(fc, PrintDocument(d)) == Good(m)
    ensures var ms := d.root.members;
      && TextIs(ms, "correlation_id", m.correlationId)
      && TextIs(ms, "market_ticker", m.marketTicker)
      && TextIs(ms, "asset", m.asset)
      && TextIs(ms, "clock_domain", m.clockDomain)
      && TextIs(ms, "correlation_group", m.correlationGroup)
  {
    hide DecodeWake, FieldIs, IntIs, TextIs, DoubleIs, FlagIs, DirectionIs, RangesAre, KeyName, PrintDocument, ValidDocument, TypedMembers, HasKey, KeysOf;
    var ms := d.root.members;
    TextNames();
    assert TEXT_NAMES[0] == KeyName(TEXT_KEYS[0]);
    assert TEXT_NAMES[1] == KeyName(TEXT_KEYS[1]);
    assert TEXT_NAMES[2] == KeyName(TEXT_KEYS[2]);
    assert TEXT_NAMES[3] == KeyName(TEXT_KEYS[3]);
    assert TEXT_NAMES[4] == KeyName(TEXT_KEYS[4]);
    ByName(fc, d, m, CorrelationId);
    TextByName(fc, ms, CorrelationId, m.correlationId);
    ByName(fc, d, m, MarketTicker);
    TextByName(fc, ms, MarketTicker, m.marketTicker);
    ByName(fc, d, m, Asset);
    TextByName(fc, ms, Asset, m.asset);
    ByName(fc, d, m, ClockDomain);
    TextByName(fc, ms, ClockDomain, m.clockDomain);
    ByName(fc, d, m, CorrelationGroup);
    TextByName(fc, ms, CorrelationGroup, m.correlationGroup);
  }

  lemma DoublesByName(fc: FromChars, d: Document, m: WakeMessage)
    requires IsWake(fc, d) && DecodeWake(fc, PrintDocument(d)) == Good(m)
    ensures var ms := d.root.members;
      && DoubleIs(fc, ms, "kalshi_price", m.kalshiPrice)
      && DoubleIs(fc, ms, "model_probability", m.modelProbability)
      && DoubleIs(fc, ms, "fee", m.fee)
      && DoubleIs(fc, ms, "edge", m.edge)
      && DoubleIs(fc, ms, "wire_price_yes_dollars", m.wirePrice)
      && DoubleIs(fc, ms, "available_size_contracts", m.availableSize)
  {
    hide DecodeWake, FieldIs, IntIs, TextIs, DoubleIs, FlagIs, DirectionIs, RangesAre, KeyName, PrintDocument, ValidDocument, TypedMembers, HasKey, KeysOf;
    var ms := d.root.members;
    DoubleNames();
    assert DOUBLE_NAMES[0] == KeyName(DOUBLE_KEYS[0]);
    assert DOUBLE_NAMES[1] == KeyName(DOUBLE_KEYS[1]);
    assert DOUBLE_NAMES[2] == KeyName(DOUBLE_KEYS[2]);
    assert DOUBLE_NAMES[3] == KeyName(DOUBLE_KEYS[3]);
    assert DOUBLE_NAMES[4] == KeyName(DOUBLE_KEYS[4]);
    assert DOUBLE_NAMES[5] == KeyName(DOUBLE_KEYS[5]);
    ByName(fc, d, m, KalshiPrice);
    DoubleByName(fc, ms, KalshiPrice, m.kalshiPrice);
    ByName(fc, d, m, ModelProbability);
    DoubleByName(fc, ms, ModelProbability, m.modelProbability);
    ByName(fc, d, m, Fee);
    DoubleByName(fc, ms, Fee, m.fee);
    ByName(fc, d, m, Edge);
    DoubleByName(fc, ms, Edge, m.edge);
    ByName(fc, d, m, WirePrice);
    DoubleByName(fc, ms, WirePrice, m.wirePrice);
    ByName(fc, d, m, AvailableSize);
    DoubleByName(fc, ms, AvailableSize, m.availableSize);
  }

  lemma OthersByName(fc: FromChars, d: Document, m: WakeMessage)
    requires IsWake(fc, d) && DecodeWake(fc, PrintDocument(d)) == Good(m)
    ensures var ms := d.root.members;
      && DirectionIs(ms, "direction", m.direction)
      && FlagIs(ms, "dry_run", m.dryRun)
      && RangesAre(fc, ms, "price_ranges", m.priceRanges)
  {
    hide DecodeWake, FieldIs, IntIs, TextIs, DoubleIs, FlagIs, DirectionIs, RangesAre, KeyName, PrintDocument, ValidDocument, TypedMembers, HasKey, KeysOf;
    var ms := d.root.members;
    SingleNames();
    ByName(fc, d, m, DirectionKey);
    ByName(fc, d, m, DryRun);
    ByName(fc, d, m, PriceRanges);
    DirectionByName(fc, ms, m.direction);
    FlagByName(fc, ms, m.dryRun);
    RangesByName(fc, ms, m.priceRanges);
  }

  /** Decoding a wake sets each field from the last member of its name, or leaves the default. */
  lemma DecodedByName(fc: FromChars, body: bytes, m: WakeMessage) returns (d: Document)
    requires DecodeWake(fc, body) == Good(m)
    ensures SpelledWake(fc, d) && PrintDocument(d) == body && WakeIs(fc, d.root.members, m)
  {
    hide DecodeRecord, WakeOf, FieldIs, IntIs, TextIs, DoubleIs, FlagIs, DirectionIs, RangesAre, PrintDocument, ValidDocument, TypedMembers, HasKey, KeysOf, WakeMember, SomeNamed;
    d := RecordSound(fc, KeysOf(WAKE_ORDER), WAKE_REQUIRED, body);
    assert IsWake(fc, d);
    SpelledIsWake(fc, d);
    IntsByName(fc, d, m);
    TextsByName(fc, d, m);
    DoublesByName(fc, d, m);
    OthersByName(fc, d, m);
  }

  // ------------------------------------------------------ the text of the encoders

  /** An object written member by member, each name in quotes and followed by a colon and its value. */
  function ObjectOf(parts: seq<(string, bytes)>): (s: bytes) {
    if parts == [] then [] else
    var n := |parts| - 1;
    ObjectOf(parts[..n]) + Ascii(if n == 0 then "{\"" else ",\"") + Ascii(parts[n].0) + Ascii("\":") + parts[n].1
  }

  function WakeParts(m: WakeMessage): (parts: seq<(string, bytes)>)
    requires ValidWake(m)
  {
    [("schema_version", IntText(m.schemaVersion)),
     ("correlation_id", StringText(m.correlationId)),
     ("market_ticker", StringText(m.marketTicker)),
     ("asset", StringText(m.asset)),
     ("direction", Ascii(if m.direction == Yes then "\"yes\"" else "\"no\"")),
     ("kalshi_price", DoubleText(m.kalshiPrice)),
     ("model_probability", DoubleText(m.modelProbability)),
     ("fee", DoubleText(m.fee)),
     ("edge", DoubleText(m.edge)),
     ("decision_ts_ms", IntText(m.decisionTsMs)),
     ("sent_at_ms", IntText(m.sentAtMs)),
     ("sent_at_ns", IntText(m.sentAtNs)),
     ("recv_ns", IntText(m.recvNs)),
     ("clock_domain", StringText(m.clockDomain)),
     ("dry_run", Ascii(if m.dryRun then "true" else "false")),
     ("wire_price_yes_dollars", DoubleText(m.wirePrice)),
     ("exchange_index", IntText(m.exchangeIndex)),
     ("available_size_contracts", DoubleText(m.availableSize)),
     ("price_ranges", Ascii("[") + RangesText(m.priceRanges) + Ascii("]")),
     ("correlation_group", StringText(m.correlationGroup))]
  }

  function AckParts(a: WakeAck): (parts: seq<(string, bytes)>) {
    [("schema_version", IntText(a.schemaVersion)),
     ("correlation_id", StringText(a.correlationId)),
     ("received_at_ms", IntText(a.receivedAtMs)),
     ("status", Ascii(if a.status == Accepted then "\"accepted\"" else "\"rejected\"")),
     ("reason", if a.reason.Some? then StringText(a.reason.value) else Ascii("null"))]
  }

  lemma QuotedWords()
    ensures StringText(YES) == Ascii("\"yes\"") && StringText(NO) == Ascii("\"no\"")
  {
    hide EscapeAll;
    EscapeRaw(YES);
    EscapeRaw(NO);
  }

  lemma QuotedStatus()
    ensures StringText(ACCEPTED) == Ascii("\"accepted\"") && StringText(REJECTED) == Ascii("\"rejected\"")
  {
    hide EscapeAll;
    EscapeRaw(ACCEPTED);
    EscapeRaw(REJECTED);
  }

  /** Part `i` of the written-out record is the member of key `i`. */
  ghost predicate PartIs(part: (string, bytes), k: Key, f: FieldValue) {
    ValidField(f) && part == (KeyName(k), FieldText(f))
  }

  lemma WakePartsLow(m: WakeMessage, i: nat)
    requires ValidWake(m) && i < 10
    ensures PartIs(WakeParts(m)[i], WAKE_ORDER[i], WakeField(m, WAKE_ORDER[i]))
  {
    hide StringText, DoubleText, PrintNumber, IntNumber, RangesText, ValidDouble, ValidRanges;
    QuotedWords();
    assert DirectionText(Yes) == YES && DirectionText(No) == NO;
  }

  lemma WakePartsMiddle(m: WakeMessage, i: nat)
    requires ValidWake(m) && 10 <= i < 15
    ensures PartIs(WakeParts(m)[i], WAKE_ORDER[i], WakeField(m, WAKE_ORDER[i]))
  {
    hide StringText, DoubleText, PrintNumber, IntNumber, RangesText, ValidDouble, ValidRanges;
    WordsSpelledOut();
  }

  lemma WakePartsHigh(m: WakeMessage, i: nat)
    requires ValidWake(m) && 15 <= i < 20
    ensures PartIs(WakeParts(m)[i], WAKE_ORDER[i], WakeField(m, WAKE_ORDER[i]))
  {
    hide StringText, DoubleText, PrintNumber, IntNumber, RangesText, ValidDouble, ValidRanges;
    assert Ascii("[") == [OPEN_BRACKET] && Ascii("]") == [CLOSE_BRACKET];
  }

  lemma AckPartsAre(a: WakeAck, i: nat)
    requires i < 5
    ensures PartIs(AckParts(a)[i], ACK_ORDER[i], AckField(a, ACK_ORDER[i]))
  {
    hide StringText, PrintNumber, IntNumber;
    QuotedStatus();
    WordsSpelledOut();
  }

  lemma MemberText(n: nat, k: Key, f: FieldValue)
    requires ValidField(f)
    ensures (if n == 0 then [OPEN_BRACE] else [COMMA]) + MemberBytes(k, f) ==
      Ascii(if n == 0 then "{\"" else ",\"") + Ascii(KeyName(k)) + Ascii("\":") + FieldText(f)
  {
    hide KeyName, FieldText;
    assert Ascii("{\"") == [OPEN_BRACE, QUOTE] && Ascii(",\"") == [COMMA, QUOTE] && Ascii("\":") == [QUOTE, COLON];
  }

  lemma {:induction false} FieldsSpelledOut(order: seq<Key>, fields: Key -> FieldValue, parts: seq<(string, bytes)>, n: nat)
    requires |parts| == |order| && 1 <= n <= |order|
    requires forall i :: 0 <= i < |order| ==> ValidField(fields(order[i])) && PartIs(parts[i], order[i], fields(order[i]))
    ensures FieldsText(order, fields, n) == ObjectOf(parts[..n])
  {
    hide KeyName, FieldText, MemberBytes;
    var k, f := order[n - 1], fields(order[n - 1]);
    var open, name, colon := Ascii(if n == 1 then "{\"" else ",\""), Ascii(KeyName(k)), Ascii("\":");
    assert parts[..n][..n - 1] == parts[..n - 1];
    MemberText(n - 1, k, f);
    if n == 1 {
      assert parts[..0] == [] && FieldsText(order, fields, 0) == [OPEN_BRACE];
      assert [OPEN_BRACE] + [] + MemberBytes(k, f) == [OPEN_BRACE] + MemberBytes(k, f);
      assert [] + open + name + colon + FieldText(f) == open + name + colon + FieldText(f);
    } else {
      var before := FieldsText(order, fields, n - 1);
      FieldsSpelledOut(order, fields, parts, n - 1);
      Assoc(before, [COMMA], MemberBytes(k, f));
      FourParts(before, open, name, colon, FieldText(f));
    }
  }

  lemma FourParts(a: bytes, b: bytes, c: bytes, d: bytes, e: bytes)
    ensures a + (b + c + d + e) == a + b + c + d + e
  {
  }

  /** `encode_frame_into` for a wake: the members by name, in this order. */
  lemma WakeBodySpelledOut(m: WakeMessage)
    requires ValidWake(m)
    ensures WakeBody(m) == ObjectOf(WakeParts(m)) + Ascii("}")
  {
    hide FieldsText, ObjectOf, PartIs, WakeParts, WakeField;
    var parts := WakeParts(m);
    assert |parts| == 20 by { WakePartCount(m); }
    forall i | 0 <= i < |WAKE_ORDER|
      ensures ValidField(WakeFields(m)(WAKE_ORDER[i])) && PartIs(parts[i], WAKE_ORDER[i], WakeFields(m)(WAKE_ORDER[i]))
    {
      if i < 10 {
        WakePartsLow(m, i);
      } else if i < 15 {
        WakePartsMiddle(m, i);
      } else {
        WakePartsHigh(m, i);
      }
      PartIsValid(parts[i], WAKE_ORDER[i], WakeField(m, WAKE_ORDER[i]));
    }
    FieldsSpelledOut(WAKE_ORDER, WakeFields(m), parts, 20);
    assert parts[..20] == parts;
    PunctuationSpelledOut();
  }

  lemma WakePartCount(m: WakeMessage)
    requires ValidWake(m)
    ensures |WakeParts(m)| == 20
  {
  }

  lemma PartIsValid(part: (string, bytes), k: Key, f: FieldValue)
    requires PartIs(part, k, f)
    ensures ValidField(f)
  {
  }

  /** `encode_frame_into` for an ack. */
  lemma AckBodySpelledOut(a: WakeAck)
    ensures AckBody(a) == ObjectOf(AckParts(a)) + Ascii("}")
  {
    hide FieldsText, ObjectOf, PartIs, AckField;
    var parts := AckParts(a);
    forall i | 0 <= i < |ACK_ORDER|
      ensures ValidField(AckFields(a)(ACK_ORDER[i])) && PartIs(parts[i], ACK_ORDER[i], AckFields(a)(ACK_ORDER[i]))
    {
      AckPartsAre(a, i);
      PartIsValid(parts[i], ACK_ORDER[i], AckField(a, ACK_ORDER[i]));
    }
    FieldsSpelledOut(ACK_ORDER, AckFields(a), parts, 5);
    assert parts[..5] == parts;
    PunctuationSpelledOut();
  }

  // ------------------------------------------------------------------------- acks

  const ACK_INT_KEYS: seq<Key> := [SchemaVersion, ReceivedAtMs]

  lemma AckNames()
    ensures NamesOf(["schema_version", "received_at_ms"], ACK_INT_KEYS)
    ensures KeyName(CorrelationId) == "correlation_id" && KeyName(Status) == "status" && KeyName(ReasonKey) == "reason"
    ensures NamesOf(ACK_REQUIRED_NAMES, ACK_REQUIRED)
  {
  }

  lemma AckKinds(k: Key)
    ensures k in KeysOf(ACK_ORDER) <==> k in ACK_INT_KEYS || k == CorrelationId || k == Status || k == ReasonKey
    ensures k in ACK_INT_KEYS ==> KindOf(k) == IntKind
    ensures KindOf(CorrelationId) == StringKind && KindOf(Status) == StatusKind && KindOf(ReasonKey) == ReasonKind
  {
    assert ACK_INT_KEYS[0] == SchemaVersion && ACK_INT_KEYS[1] == ReceivedAtMs;
    assert ACK_ORDER[0] == SchemaVersion && ACK_ORDER[1] == CorrelationId && ACK_ORDER[2] == ReceivedAtMs;
    assert ACK_ORDER[3] == Status && ACK_ORDER[4] == ReasonKey;
  }

  lemma AckMemberIsTyped(fc: FromChars, m: Member)
    ensures AckMember(m) <==> TypedMember(fc, KeysOf(ACK_ORDER), m)
  {
    hide KeyName, KeyOf, DenotePieces, KeysOf, OneOf, IntegerValue, ValidPieces, NamesOf, KindOf;
    if ValidMember(m) {
      var text := DenotePieces(m.key);
      AckNames();
      WordsSpelledOut();
      OneOfKeys(text, ["schema_version", "received_at_ms"], ACK_INT_KEYS);
      NameIs(text, CorrelationId);
      NameIs(text, Status);
      NameIs(text, ReasonKey);
      if KeyOf(text).Some? {
        AckKinds(KeyOf(text).value);
      }
    }
  }

  ghost predicate SpelledAck(d: Document) {
    && ValidDocument(d) && d.root.Obj?
    && (forall i :: 0 <= i < |d.root.members| ==> AckMember(d.root.members[i]))
    && (forall r :: 0 <= r < |ACK_REQUIRED_NAMES| ==> SomeNamed(d.root.members, ACK_REQUIRED_NAMES[r]))
  }

  lemma SpelledIsAck(fc: FromChars, d: Document)
    ensures SpelledAck(d) <==> IsAck(fc, d)
  {
    hide AckMember, TypedMember, ValidDocument, KeysOf, SomeNamed, HasKey, KeyName;
    if ValidDocument(d) && d.root.Obj? {
      var ms := d.root.members;
      forall i | 0 <= i < |ms|
        ensures AckMember(ms[i]) <==> TypedMember(fc, KeysOf(ACK_ORDER), ms[i])
      {
        AckMemberIsTyped(fc, ms[i]);
      }
      AckNames();
      if TypedMembers(fc, KeysOf(ACK_ORDER), ms) {
        forall r | 0 <= r < |ACK_REQUIRED|
          ensures SomeNamed(ms, ACK_REQUIRED_NAMES[r]) <==> HasKey(fc, KeysOf(ACK_ORDER), ms, ACK_REQUIRED[r])
        {
          NamedIsKeyed(fc, KeysOf(ACK_ORDER), ms, ACK_REQUIRED[r]);
        }
      }
    }
  }

  /** `decode_wake_ack` accepts a body exactly when it is the text of a written-out ack. */
  lemma AcceptsSpelledAcks(fc: FromChars, body: bytes)
    ensures DecodeAck(fc, body).Good? <==> exists d :: SpelledAck(d) && PrintDocument(d) == body
  {
    hide DecodeAck, ValidDocument, PrintDocument, AckMember, TypedMembers, SomeNamed, HasKey, KeysOf;
    DecodeAckExactly(fc, body);
    if d :| SpelledAck(d) && PrintDocument(d) == body {
      SpelledIsAck(fc, d);
    }
    if d :| IsAck(fc, d) && PrintDocument(d) == body {
      SpelledIsAck(fc, d);
    }
  }

  ghost predicate StatusIs(ms: seq<Member>, name: string, status: AckStatus) {
    forall i :: LastNamed(ms, name, i) ==>
      ValidValue(ms[i].value) && IsWord(ms[i].value, if status == Accepted then "accepted" else "rejected")
  }

  ghost predicate ReasonIs(ms: seq<Member>, name: string, reason: Option<bytes>) {
    && (forall i :: LastNamed(ms, name, i) ==>
      if reason.Some? then TextValue(ms[i].value, reason.value) else ms[i].value.Null?)
    && (!SomeNamed(ms, name) ==> reason == None)
  }

  /** Every field of an ack, by the name of the member that sets it. */
  ghost predicate AckIs(ms: seq<Member>, a: WakeAck) {
    && IntIs(ms, "schema_version", a.schemaVersion, 4)
    && TextIs(ms, "correlation_id", a.correlationId)
    && IntIs(ms, "received_at_ms", a.receivedAtMs, 0)
    && StatusIs(ms, "status", a.status)
    && ReasonIs(ms, "reason", a.reason)
  }

  lemma AckByName(fc: FromChars, d: Document, k: Key)
    requires IsAck(fc, d) && k in ACK_ORDER
    ensures DecodeAck(fc, PrintDocument(d)).Good?
    ensures FieldIs(fc, d.root.members, k, AckField(DecodeAck(fc, PrintDocument(d)).value, k))
  {
    hide DecodeRecord, PrintDocument, KeysOf, AckOf, Assign, TypedMember, MemberKey, MemberField, AckField, HasKind, KindOf, DefaultField, ValidDocument, KeyName, HasName, FieldOf, WellTyped;
    var schema, ms := KeysOf(ACK_ORDER), d.root.members;
    RecordComplete(fc, schema, ACK_REQUIRED, d);
    var env := Assign(fc, schema, ms, map[]);
    AckHoldsFields(env, k);
    AssignKeys(fc, schema, ms, map[], k);
    NamedIsKeyed(fc, schema, ms, k);
    forall i | LastNamed(ms, KeyName(k), i)
      ensures ValidValue(ms[i].value) && WellTyped(fc, KindOf(k), ms[i].value)
      ensures AckField(AckOf(env), k) == FieldOf(fc, KindOf(k), ms[i].value)
    {
      AssignLast(fc, schema, ms, map[], i);
      MemberKind(fc, schema, ms[i]);
      MemberIsTyped(fc, schema, ms[i]);
    }
  }

  lemma MemberIsTyped(fc: FromChars, schema: set<Key>, m: Member)
    requires TypedMember(fc, schema, m)
    ensures ValidValue(m.value) && WellTyped(fc, KindOf(MemberKey(fc, schema, m)), m.value)
    ensures MemberField(fc, schema, m) == FieldOf(fc, KindOf(MemberKey(fc, schema, m)), m.value)
  {
    hide KeyOf, FieldOf, WellTyped, KindOf;
  }

  lemma AckHoldsFields(env: Env, j: Key)
    requires j in ACK_ORDER
    ensures AckField(AckOf(env), j) == Lookup(env, j)
  {
    hide Lookup;
    LookupKind(env, j);
  }

  lemma StatusByName(fc: FromChars, ms: seq<Member>, status: AckStatus)
    requires FieldIs(fc, ms, Status, StatusField(status))
    ensures StatusIs(ms, KeyName(Status), status)
  {
    hide KeyName, HasName, DenotePieces;
    WordsSpelledOut();
  }

  lemma ReasonByName(fc: FromChars, ms: seq<Member>, reason: Option<bytes>)
    requires FieldIs(fc, ms, ReasonKey, ReasonField(reason))
    ensures ReasonIs(ms, KeyName(ReasonKey), reason)
  {
    hide KeyName, HasName, DenotePieces;
  }

  lemma AckNumbersByName(fc: FromChars, d: Document, a: WakeAck)
    requires IsAck(fc, d) && DecodeAck(fc, PrintDocument(d)) == Good(a)
    ensures IntIs(d.root.members, "schema_version", a.schemaVersion, 4)
    ensures IntIs(d.root.members, "received_at_ms", a.receivedAtMs, 0)
  {
    hide DecodeAck, FieldIs, IntIs, PrintDocument, ValidDocument, TypedMembers, HasKey, KeysOf, KeyName;
    AckNumberNames();
    AckByName(fc, d, SchemaVersion);
    AckByName(fc, d, ReceivedAtMs);
    IntByName(fc, d.root.members, SchemaVersion, a.schemaVersion);
    IntByName(fc, d.root.members, ReceivedAtMs, a.receivedAtMs);
  }

  lemma AckNumberNames()
    ensures KeyName(SchemaVersion) == "schema_version" && KeyName(ReceivedAtMs) == "received_at_ms"
    ensures SchemaVersion in ACK_ORDER && ReceivedAtMs in ACK_ORDER
  {
    assert ACK_ORDER[0] == SchemaVersion && ACK_ORDER[2] == ReceivedAtMs;
  }

  lemma AckTextNames()
    ensures KeyName(CorrelationId) == "correlation_id" && KeyName(Status) == "status" && KeyName(ReasonKey) == "reason"
    ensures CorrelationId in ACK_ORDER && Status in ACK_ORDER && ReasonKey in ACK_ORDER
  {
    assert ACK_ORDER[1] == CorrelationId && ACK_ORDER[3] == Status && ACK_ORDER[4] == ReasonKey;
  }

  lemma AckTextsByName(fc: FromChars, d: Document, a: WakeAck)
    requires IsAck(fc, d) && DecodeAck(fc, PrintDocument(d)) == Good(a)
    ensures TextIs(d.root.members, "correlation_id", a.correlationId)
    ensures StatusIs(d.root.members, "status", a.status) && ReasonIs(d.root.members, "reason", a.reason)
  {
    hide DecodeAck, FieldIs, TextIs, StatusIs, ReasonIs, PrintDocument, ValidDocument, TypedMembers, HasKey, KeysOf, KeyName;
    AckTextNames();
    AckByName(fc, d, CorrelationId);
    AckByName(fc, d, Status);
    AckByName(fc, d, ReasonKey);
    TextByName(fc, d.root.members, CorrelationId, a.correlationId);
    StatusByName(fc, d.root.members, a.status);
    ReasonByName(fc, d.root.members, a.reason);
  }

  /** Decoding an ack sets each field from the last member of its name. */
  lemma DecodedAckByName(fc: FromChars, body: bytes, a: WakeAck) returns (d: Document)
    requires DecodeAck(fc, body) == Good(a)
    ensures SpelledAck(d) && PrintDocument(d) == body && AckIs(d.root.members, a)
  {
    hide DecodeRecord, AckOf, IntIs, TextIs, StatusIs, ReasonIs, PrintDocument, ValidDocument, TypedMembers, HasKey, KeysOf, AckMember, SomeNamed;
    d := RecordSound(fc, KeysOf(ACK_ORDER), ACK_REQUIRED, body);
    assert IsAck(fc, d);
    SpelledIsAck(fc, d);
    AckNumbersByName(fc, d, a);
    AckTextsByName(fc, d, a);
  }
}
