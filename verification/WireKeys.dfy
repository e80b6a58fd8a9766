/** The keys of the two wire records and the types of their values. */
module WireKeys {
  import opened Bytes
  import opened JsonNumbers
  import JsonStrings
  import Utf8

  datatype Direction = Yes | No
  datatype AckStatus = Accepted | Rejected
  datatype PriceRange = PriceRange(start: Double, end: Double, step: Double)

  datatype Key =
    | SchemaVersion | CorrelationId | MarketTicker | Asset | DirectionKey | KalshiPrice | ModelProbability | Fee
    | Edge | DecisionTsMs | SentAtMs | SentAtNs | RecvNs | ClockDomain | DryRun | WirePrice | ExchangeIndex
    | AvailableSize | PriceRanges | CorrelationGroup | ReceivedAtMs | Status | ReasonKey

  datatype Kind = IntKind | StringKind | DirectionKind | DoubleKind | BoolKind | RangesKind | StatusKind | ReasonKind

  datatype FieldValue =
    | IntField(i: int) | StringField(s: bytes) | DirectionField(d: Direction) | DoubleField(x: Double)
    | BoolField(b: bool) | RangesField(ranges: seq<PriceRange>) | StatusField(status: AckStatus)
    | ReasonField(reason: Option<bytes>)

  /** What a record holds: the last value read for each key that was present. */
  type Env = map<Key, FieldValue>

  function KeyName(k: Key): (s: string) {
    match k
    case SchemaVersion => "schema_version"
    case CorrelationId => "correlation_id"
    case MarketTicker => "market_ticker"
    case Asset => "asset"
    case DirectionKey => "direction"
    case KalshiPrice => "kalshi_price"
    case ModelProbability => "model_probability"
    case Fee => "fee"
    case Edge => "edge"
    case DecisionTsMs => "decision_ts_ms"
    case SentAtMs => "sent_at_ms"
    case SentAtNs => "sent_at_ns"
    case RecvNs => "recv_ns"
    case ClockDomain => "clock_domain"
    case DryRun => "dry_run"
    case WirePrice => "wire_price_yes_dollars"
    case ExchangeIndex => "exchange_index"
    case AvailableSize => "available_size_contracts"
    case PriceRanges => "price_ranges"
    case CorrelationGroup => "correlation_group"
    case ReceivedAtMs => "received_at_ms"
    case Status => "status"
    case ReasonKey => "reason"
  }

  function KeyText(k: Key): (s: bytes) {
    Ascii(KeyName(k))
  }

  function KindOf(k: Key): (t: Kind) {
    match k
    case SchemaVersion | DecisionTsMs | SentAtMs | SentAtNs | RecvNs | ExchangeIndex | ReceivedAtMs => IntKind
    case CorrelationId | MarketTicker | Asset | ClockDomain | CorrelationGroup => StringKind
    case DirectionKey => DirectionKind
    case KalshiPrice | ModelProbability | Fee | Edge | WirePrice | AvailableSize => DoubleKind
    case DryRun => BoolKind
    case PriceRanges => RangesKind
    case Status => StatusKind
    case ReasonKey => ReasonKind
  }

  predicate HasKind(v: FieldValue, t: Kind) {
    match t
    case IntKind => v.IntField?
    case StringKind => v.StringField?
    case DirectionKind => v.DirectionField?
    case DoubleKind => v.DoubleField?
    case BoolKind => v.BoolField?
    case RangesKind => v.RangesField?
    case StatusKind => v.StatusField?
    case ReasonKind => v.ReasonField?
  }

  /** The key a member name stands for, if any. */
  ghost function KeyOf(text: bytes): (r: Option<Key>)
    ensures r.Some? ==> KeyText(r.value) == text
  {
    if exists k :: KeyText(k) == text then
      var k :| KeyText(k) == text;
      Some(k)
    else None
  }

  function NameLength(k: Key): (n: nat) {
    match k
    case Fee => 3
    case Edge => 4
    case Asset => 5
    case Status | ReasonKey => 6
    case RecvNs | DryRun => 7
    case DirectionKey => 9
    case SentAtMs | SentAtNs => 10
    case KalshiPrice | ClockDomain | PriceRanges => 12
    case MarketTicker => 13
    case SchemaVersion | CorrelationId | DecisionTsMs | ExchangeIndex | ReceivedAtMs => 14
    case ModelProbability | CorrelationGroup => 17
    case WirePrice => 22
    case AvailableSize => 24
  }

  lemma NameLengths(k: Key)
    ensures |KeyText(k)| == NameLength(k)
  {
  }

  function FirstLetter(k: Key): (c: char) {
    match k
    case CorrelationId | ClockDomain | CorrelationGroup => 'c'
    case SchemaVersion | SentAtMs | SentAtNs | Status => 's'
    case MarketTicker | ModelProbability => 'm'
    case Asset | AvailableSize => 'a'
    case DirectionKey | DecisionTsMs | DryRun => 'd'
    case KalshiPrice => 'k'
    case Fee => 'f'
    case Edge | ExchangeIndex => 'e'
    case RecvNs | ReceivedAtMs | ReasonKey => 'r'
    case WirePrice => 'w'
    case PriceRanges => 'p'
  }

  lemma FirstLetters(k: Key)
    ensures KeyText(k) != [] && KeyText(k)[0] == FirstLetter(k) as int
  {
    NameLengths(k);
  }

  lemma ClocksDiffer()
    ensures KeyText(SentAtMs) != KeyText(SentAtNs)
  {
    assert KeyText(SentAtMs)[8] != KeyText(SentAtNs)[8];
  }

  /** No two keys have the same name. */
  lemma NamesDiffer(j: Key, k: Key)
    requires KeyText(j) == KeyText(k)
    ensures j == k
  {
    hide KeyText;
    NameLengths(j);
    NameLengths(k);
    FirstLetters(j);
    FirstLetters(k);
    ClocksDiffer();
  }

  lemma KeyOfName(k: Key)
    ensures KeyOf(KeyText(k)) == Some(k)
  {
    NamesDiffer(KeyOf(KeyText(k)).value, k);
  }

  predicate PlainName(s: string) {
    forall i :: 0 <= i < |s| ==> '_' <= s[i] <= 'z'
  }

  lemma PlainNames0(k: Key)
    requires k.SchemaVersion? || k.CorrelationId? || k.MarketTicker? || k.Asset? || k.DirectionKey? || k.KalshiPrice?
    ensures PlainName(KeyName(k))
  {
  }

  lemma PlainNames1(k: Key)
    requires k.ModelProbability? || k.Fee? || k.Edge? || k.DecisionTsMs? || k.SentAtMs? || k.SentAtNs?
    ensures PlainName(KeyName(k))
  {
  }

  lemma PlainNames2(k: Key)
    requires k.RecvNs? || k.ClockDomain? || k.DryRun? || k.WirePrice? || k.ExchangeIndex?
    ensures PlainName(KeyName(k))
  {
  }

  lemma PlainNames3(k: Key)
    requires k.AvailableSize? || k.PriceRanges? || k.CorrelationGroup?
    ensures PlainName(KeyName(k))
  {
  }

  lemma PlainNames4(k: Key)
    requires k.ReceivedAtMs? || k.Status? || k.ReasonKey?
    ensures PlainName(KeyName(k))
  {
  }

  lemma NamesArePlain(k: Key)
    ensures PlainName(KeyName(k))
  {
    hide KeyName, PlainName;
    match k
    case SchemaVersion | CorrelationId | MarketTicker | Asset | DirectionKey | KalshiPrice => PlainNames0(k);
    case ModelProbability | Fee | Edge | DecisionTsMs | SentAtMs | SentAtNs => PlainNames1(k);
    case RecvNs | ClockDomain | DryRun | WirePrice | ExchangeIndex => PlainNames2(k);
    case AvailableSize | PriceRanges | CorrelationGroup => PlainNames3(k);
    case ReceivedAtMs | Status | ReasonKey => PlainNames4(k);
  }

  lemma PlainNameNeedsNoEscape(s: string)
    requires PlainName(s)
    ensures JsonStrings.EscapeAll(Ascii(s)) == Ascii(s)
  {
    forall i | 0 <= i < |s|
      ensures JsonStrings.EscapeByte(Ascii(s)[i]) == [Ascii(s)[i]]
    {
      assert '_' <= s[i] <= 'z';
    }
    JsonStrings.EscapeRaw(Ascii(s));
  }

  /** A key is written without escapes, so the encoder may spell it out. */
  lemma KeyTextIsPlain(k: Key)
    ensures JsonStrings.StringText(KeyText(k)) == [QUOTE] + KeyText(k) + [QUOTE]
    ensures Utf8.WellFormed(KeyText(k))
  {
    hide KeyName, PlainName, JsonStrings.EscapeAll, Utf8.WellFormed;
    NamesArePlain(k);
    PlainNameNeedsNoEscape(KeyName(k));
    Utf8.AsciiWellFormed(KeyText(k));
  }
}
