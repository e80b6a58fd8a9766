/** The two wire records: what `encode_frame_into` writes and what the decoders make of it. */
module Wire {
  import opened Bytes
  import opened Errors
  import opened JsonStrings
  import opened JsonNumbers
  import opened JsonGrammar
  import opened WireKeys
  import opened WireText
  import Utf8

  const SCHEMA_VERSION: int := 4
  const FRAME_LENGTH_BYTES: nat := 4
  const MAX_FRAME_BYTES: nat := 65536

  const DOUBLE_ZERO: Double := Finite(false, [ZERO], 0)
  const DOUBLE_ONE: Double := Finite(false, [0x31], 0)
  const DOUBLE_CENT: Double := Finite(false, [0x31], -2)
  const DEFAULT_RANGE: PriceRange := PriceRange(DOUBLE_ZERO, DOUBLE_ONE, DOUBLE_CENT)

  datatype WakeMessage = WakeMessage(
    schemaVersion: int, correlationId: bytes, marketTicker: bytes, asset: bytes, direction: Direction,
    kalshiPrice: Double, modelProbability: Double, fee: Double, edge: Double,
    decisionTsMs: int, sentAtMs: int, sentAtNs: int, recvNs: int, clockDomain: bytes, dryRun: bool,
    wirePrice: Double, exchangeIndex: int, availableSize: Double, priceRanges: seq<PriceRange>,
    correlationGroup: bytes)

  datatype WakeAck = WakeAck(
    schemaVersion: int, correlationId: bytes, receivedAtMs: int, status: AckStatus, reason: Option<bytes>)

  /** Declaration order, which is the key order on the wire. */
  const WAKE_ORDER: seq<Key> := [
    SchemaVersion, CorrelationId, MarketTicker, Asset, DirectionKey, KalshiPrice, ModelProbability, Fee, Edge,
    DecisionTsMs, SentAtMs, SentAtNs, RecvNs, ClockDomain, DryRun, WirePrice, ExchangeIndex, AvailableSize,
    PriceRanges, CorrelationGroup]

  const WAKE_REQUIRED: seq<Key> := [
    SchemaVersion, CorrelationId, MarketTicker, Asset, DirectionKey, KalshiPrice, ModelProbability, Fee, Edge,
    DecisionTsMs, SentAtMs, SentAtNs]

  const ACK_ORDER: seq<Key> := [SchemaVersion, CorrelationId, ReceivedAtMs, Status, ReasonKey]
  const ACK_REQUIRED: seq<Key> := [SchemaVersion, CorrelationId, ReceivedAtMs, Status]

  function KeysOf(order: seq<Key>): (s: set<Key>) {
    set i | 0 <= i < |order| :: order[i]
  }

  // ------------------------------------------------------ records and messages

  /** The value a record has before anything is read. */
  function DefaultField(k: Key): (f: FieldValue)
    ensures HasKind(f, KindOf(k))
  {
    match KindOf(k)
    case IntKind => IntField(if k == SchemaVersion then SCHEMA_VERSION else if k == ExchangeIndex then -1 else 0)
    case StringKind => StringField([])
    case DirectionKind => DirectionField(Yes)
    case DoubleKind => DoubleField(DOUBLE_ZERO)
    case BoolKind => BoolField(false)
    case RangesKind => RangesField([DEFAULT_RANGE])
    case StatusKind => StatusField(Accepted)
    case ReasonKind => ReasonField(None)
  }

  /** The value read for a key, or its default. */
  function Lookup(env: Env, k: Key): (f: FieldValue) {
    if k in env && HasKind(env[k], KindOf(k)) then env[k] else DefaultField(k)
  }

  function IntAt(env: Env, k: Key): (v: int) { if Lookup(env, k).IntField? then Lookup(env, k).i else 0 }
  function TextAt(env: Env, k: Key): (v: bytes) { if Lookup(env, k).StringField? then Lookup(env, k).s else [] }
  function DoubleAt(env: Env, k: Key): (v: Double) { if Lookup(env, k).DoubleField? then Lookup(env, k).x else DOUBLE_ZERO }

  /** A message starts from its defaults and takes every value that was read. */
  function WakeOf(env: Env): (m: WakeMessage) {
    WakeMessage(
      IntAt(env, SchemaVersion), TextAt(env, CorrelationId), TextAt(env, MarketTicker), TextAt(env, Asset),
      Lookup(env, DirectionKey).d,
      DoubleAt(env, KalshiPrice), DoubleAt(env, ModelProbability), DoubleAt(env, Fee), DoubleAt(env, Edge),
      IntAt(env, DecisionTsMs), IntAt(env, SentAtMs), IntAt(env, SentAtNs), IntAt(env, RecvNs),
      TextAt(env, ClockDomain), Lookup(env, DryRun).b, DoubleAt(env, WirePrice), IntAt(env, ExchangeIndex),
      DoubleAt(env, AvailableSize), Lookup(env, PriceRanges).ranges, TextAt(env, CorrelationGroup))
  }

  function AckOf(env: Env): (a: WakeAck) {
    WakeAck(
      IntAt(env, SchemaVersion), TextAt(env, CorrelationId), IntAt(env, ReceivedAtMs),
      Lookup(env, Status).status, Lookup(env, ReasonKey).reason)
  }

  function WakeField(m: WakeMessage, k: Key): (f: FieldValue) {
    match k
    case SchemaVersion => IntField(m.schemaVersion)
    case CorrelationId => StringField(m.correlationId)
    case MarketTicker => StringField(m.marketTicker)
    case Asset => StringField(m.asset)
    case DirectionKey => DirectionField(m.direction)
    case KalshiPrice => DoubleField(m.kalshiPrice)
    case ModelProbability => DoubleField(m.modelProbability)
    case Fee => DoubleField(m.fee)
    case Edge => DoubleField(m.edge)
    case DecisionTsMs => IntField(m.decisionTsMs)
    case SentAtMs => IntField(m.sentAtMs)
    case SentAtNs => IntField(m.sentAtNs)
    case RecvNs => IntField(m.recvNs)
    case ClockDomain => StringField(m.clockDomain)
    case DryRun => BoolField(m.dryRun)
    case WirePrice => DoubleField(m.wirePrice)
    case ExchangeIndex => IntField(m.exchangeIndex)
    case AvailableSize => DoubleField(m.availableSize)
    case PriceRanges => RangesField(m.priceRanges)
    case CorrelationGroup => StringField(m.correlationGroup)
    case _ => BoolField(false)
  }

  function AckField(a: WakeAck, k: Key): (f: FieldValue) {
    match k
    case SchemaVersion => IntField(a.schemaVersion)
    case CorrelationId => StringField(a.correlationId)
    case ReceivedAtMs => IntField(a.receivedAtMs)
    case Status => StatusField(a.status)
    case ReasonKey => ReasonField(a.reason)
    case _ => BoolField(false)
  }

  function WakeFields(m: WakeMessage): (f: Key -> FieldValue) {
    k => WakeField(m, k)
  }

  function AckFields(a: WakeAck): (f: Key -> FieldValue) {
    k => AckField(a, k)
  }

  // ------------------------------------------------------------------ decoding

  /** `decode_wake_message`. */
  ghost function DecodeWake(fc: FromChars, body: bytes): (r: Decoded<WakeMessage>)
    ensures r.Bad? ==> Clean(r.reason)
  {
    var env := DecodeRecord(fc, KeysOf(WAKE_ORDER), WAKE_REQUIRED, body);
    if env.Good? then Good(WakeOf(env.value)) else Bad(env.reason)
  }

  /** `decode_wake_ack`. */
  ghost function DecodeAck(fc: FromChars, body: bytes): (r: Decoded<WakeAck>)
    ensures r.Bad? ==> Clean(r.reason)
  {
    var env := DecodeRecord(fc, KeysOf(ACK_ORDER), ACK_REQUIRED, body);
    if env.Good? then Good(AckOf(env.value)) else Bad(env.reason)
  }

  // ------------------------------------------------------------------ encoding

  /** `append_double`: a non-finite value becomes null. */
  function DoubleText(x: Double): (s: bytes)
    requires ValidDouble(x)
  {
    if x.Finite? then PrintNumber(Layout(x)) else NULL
  }

  predicate ValidRange(r: PriceRange) {
    ValidDouble(r.start) && ValidDouble(r.end) && ValidDouble(r.step)
  }

  predicate ValidRanges(rs: seq<PriceRange>) {
    forall i :: 0 <= i < |rs| ==> ValidRange(rs[i])
  }

  function RangeText(r: PriceRange): (s: bytes)
    requires ValidRange(r)
  {
    [OPEN_BRACKET] + DoubleText(r.start) + [COMMA] + DoubleText(r.end) + [COMMA] + DoubleText(r.step) + [CLOSE_BRACKET]
  }

  /** Each range after the first is preceded by a comma. */
  function RangesText(rs: seq<PriceRange>): (s: bytes)
    requires ValidRanges(rs)
  {
    if rs == [] then []
    else RangesText(rs[..|rs| - 1]) + (if |rs| == 1 then [] else [COMMA]) + RangeText(rs[|rs| - 1])
  }

  predicate ValidField(f: FieldValue) {
    match f
    case DoubleField(x) => ValidDouble(x)
    case RangesField(rs) => ValidRanges(rs)
    case _ => true
  }

  function DirectionText(d: Direction): (s: bytes) {
    if d == Yes then YES else NO
  }

  function StatusText(s: AckStatus): (r: bytes) {
    if s == Accepted then ACCEPTED else REJECTED
  }

  function FieldText(f: FieldValue): (s: bytes)
    requires ValidField(f)
  {
    match f
    case IntField(i) => PrintNumber(IntNumber(i))
    case StringField(text) => StringText(text)
    case DirectionField(d) => StringText(DirectionText(d))
    case DoubleField(x) => DoubleText(x)
    case BoolField(b) => if b then TRUE else FALSE
    case RangesField(rs) => [OPEN_BRACKET] + RangesText(rs) + [CLOSE_BRACKET]
    case StatusField(st) => StringText(StatusText(st))
    case ReasonField(o) => if o.None? then NULL else StringText(o.value)
  }

  function MemberBytes(k: Key, f: FieldValue): (s: bytes)
    requires ValidField(f)
  {
    [QUOTE] + KeyText(k) + [QUOTE, COLON] + FieldText(f)
  }

  /** The members of the first `n` keys, separated by commas, after the opening brace. */
  function FieldsText(order: seq<Key>, fields: Key -> FieldValue, n: nat): (s: bytes)
    requires n <= |order| && forall i :: 0 <= i < |order| ==> ValidField(fields(order[i]))
  {
    if n == 0 then [OPEN_BRACE]
    else FieldsText(order, fields, n - 1) + (if n == 1 then [] else [COMMA]) + MemberBytes(order[n - 1], fields(order[n - 1]))
  }

  function RecordText(order: seq<Key>, fields: Key -> FieldValue): (s: bytes)
    requires forall i :: 0 <= i < |order| ==> ValidField(fields(order[i]))
  {
    FieldsText(order, fields, |order|) + [CLOSE_BRACE]
  }

  predicate ValidWake(m: WakeMessage) {
    && ValidDouble(m.kalshiPrice) && ValidDouble(m.modelProbability) && ValidDouble(m.fee) && ValidDouble(m.edge)
    && ValidDouble(m.wirePrice) && ValidDouble(m.availableSize) && ValidRanges(m.priceRanges)
  }

  function WakeBody(m: WakeMessage): (s: bytes)
    requires ValidWake(m)
  {
    RecordText(WAKE_ORDER, WakeFields(m))
  }

  function AckBody(a: WakeAck): (s: bytes) {
    RecordText(ACK_ORDER, AckFields(a))
  }

  // -------------------------------------------------------------------- frames

  /** `write_length_prefix`: the low 32 bits of the body length, most significant byte first. */
  function LengthPrefix(n: nat): (p: bytes)
    ensures |p| == FRAME_LENGTH_BYTES
  {
    [n / 16777216 % 256, n / 65536 % 256, n / 256 % 256, n % 256]
  }

  function Frame(body: bytes): (f: bytes)
    ensures |f| == FRAME_LENGTH_BYTES + |body|
  {
    LengthPrefix(|body|) + body
  }

  /** `decode_frame_length`. */
  function FrameLengthOf(prefix: bytes): (r: Decoded<nat>)
    ensures r.Bad? ==> Clean(r.reason)
    ensures r.Good? ==> r.value <= MAX_FRAME_BYTES
  {
    if |prefix| != FRAME_LENGTH_BYTES then Bad(PrefixNotFourBytes) else
    var n := ((prefix[0] as int * 256 + prefix[1]) * 256 + prefix[2]) * 256 + prefix[3];
    if n > MAX_FRAME_BYTES then Bad(FrameLength(n)) else Good(n)
  }

  /** The prefix of a frame within the cap tells its length; a longer body below 4 GiB is refused. */
  lemma PrefixTellsLength(body: bytes)
    requires |body| < 0x1_0000_0000
    ensures FrameLengthOf(Frame(body)[..4]) ==
      if |body| <= MAX_FRAME_BYTES then Good(|body|) else Bad(FrameLength(|body|))
  {
    var n := |body|;
    assert Frame(body)[..4] == LengthPrefix(n);
    assert n / 65536 == n / 256 / 256 && n / 16777216 == n / 256 / 256 / 256;
  }
}
