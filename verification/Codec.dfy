/** The encoders and decoders of src/protocol.cpp, over the buffer and the reader. */
module Codec {
  import opened Bytes
  import opened Errors
  import opened JsonGrammar
  import opened JsonNumbers
  import opened JsonStrings
  import opened JsonReader
  import opened JsonWriter
  import opened WireKeys
  import opened Wire
  import opened WireRoundTrip
  import Text = WireText

  // ------------------------------------------------------------------ encoding

  predicate Writable(f: FieldValue) {
    ValidField(f) && (f.IntField? ==> IsInt64(f.i))
  }

  /** The loop over `price_ranges`. */
  method AppendRanges(out: Buffer, ranges: seq<PriceRange>)
    requires ValidRanges(ranges)
    modifies out
    ensures out.data == old(out.data) + RangesText(ranges)
  {
    hide RangeText;
    var first := true;
    for i := 0 to |ranges|
      invariant first == (i == 0)
      invariant out.data == old(out.data) + RangesText(ranges[..i])
    {
      assert ranges[..i + 1][..i] == ranges[..i];
      ghost var before := out.data;
      if !first {
        out.Append([COMMA]);
      }
      first := false;
      AppendRange(out, ranges[i]);
      RangesGrow(old(out.data), ranges, i);
    }
    assert ranges[..|ranges|] == ranges;
  }

  lemma RangesGrow(base: bytes, ranges: seq<PriceRange>, i: nat)
    requires i < |ranges| && ValidRanges(ranges)
    ensures base + RangesText(ranges[..i + 1]) ==
      base + RangesText(ranges[..i]) + (if i == 0 then [] else [COMMA]) + RangeText(ranges[i])
  {
    hide RangeText;
    assert ranges[..i + 1][..i] == ranges[..i];
  }

  method AppendRange(out: Buffer, r: PriceRange)
    requires ValidRange(r)
    modifies out
    ensures out.data == old(out.data) + RangeText(r)
  {
    hide DoubleText, ValidDouble;
    out.Append([OPEN_BRACKET]);
    out.AppendDouble(r.start);
    out.Append([COMMA]);
    out.AppendDouble(r.end);
    out.Append([COMMA]);
    out.AppendDouble(r.step);
    out.Append([CLOSE_BRACKET]);
    RangeGrouped(old(out.data), DoubleText(r.start), DoubleText(r.end), DoubleText(r.step));
  }

  lemma RangeGrouped(d: bytes, a: bytes, b: bytes, c: bytes)
    ensures d + [OPEN_BRACKET] + a + [COMMA] + b + [COMMA] + c + [CLOSE_BRACKET] ==
      d + ([OPEN_BRACKET] + a + [COMMA] + b + [COMMA] + c + [CLOSE_BRACKET])
  {
  }

  method AppendField(out: Buffer, f: FieldValue)
    requires Writable(f)
    modifies out
    ensures out.data == old(out.data) + FieldText(f)
  {
    hide RangesText, DoubleText, StringText, PrintNumber, ValidDouble, ValidRanges;
    match f
    case IntField(i) => out.AppendInt(i);
    case StringField(s) => out.AppendString(s);
    case DirectionField(d) => out.AppendString(DirectionText(d));
    case DoubleField(x) => out.AppendDouble(x);
    case BoolField(b) => out.Append(if b then TRUE else FALSE);
    case RangesField(rs) =>
      out.Append([OPEN_BRACKET]);
      AppendRanges(out, rs);
      out.Append([CLOSE_BRACKET]);
      Grouped(old(out.data), [OPEN_BRACKET], RangesText(rs), [CLOSE_BRACKET]);
      Assoc([OPEN_BRACKET], RangesText(rs), [CLOSE_BRACKET]);
    case StatusField(st) => out.AppendString(StatusText(st));
    case ReasonField(o) =>
      if o.Some? {
        out.AppendString(o.value);
      } else {
        out.Append(NULL);
      }
  }

  /** `encode_frame_into`: room for the prefix, the members in wire order, then the prefix patched in. */
  method EncodeInto(order: seq<Key>, fields: Key -> FieldValue, out: Buffer)
    requires order != [] && forall i :: 0 <= i < |order| ==> ValidField(fields(order[i])) && Writable(fields(order[i]))
    modifies out
    ensures out.data == Frame(RecordText(order, fields))
  {
    hide MemberBytes, FieldText, KeyText;
    out.data := [0, 0, 0, 0];
    out.Append([OPEN_BRACE]);
    for n := 0 to |order|
      invariant out.data == [0, 0, 0, 0] + FieldsText(order, fields, n)
    {
      AppendMember(out, n, order[n], fields(order[n]));
      Grouped([0, 0, 0, 0], FieldsText(order, fields, n), if n == 0 then [] else [COMMA], MemberBytes(order[n], fields(order[n])));
      Assoc(FieldsText(order, fields, n), if n == 0 then [] else [COMMA], MemberBytes(order[n], fields(order[n])));
    }
    out.Append([CLOSE_BRACE]);
    Assoc([0, 0, 0, 0], FieldsText(order, fields, |order|), [CLOSE_BRACE]);
    PatchPrefix(out);
    assert out.data[4..] == RecordText(order, fields);
  }

  method AppendMember(out: Buffer, n: nat, k: Key, f: FieldValue)
    requires Writable(f)
    modifies out
    ensures out.data == old(out.data) + (if n == 0 then [] else [COMMA]) + MemberBytes(k, f)
  {
    hide FieldText, KeyText;
    if n > 0 {
      out.Append([COMMA]);
    }
    ghost var base := out.data;
    out.Append([QUOTE] + KeyText(k) + [QUOTE, COLON]);
    AppendField(out, f);
    Assoc(base, [QUOTE] + KeyText(k) + [QUOTE, COLON], FieldText(f));
  }

  /** `write_length_prefix`. */
  method PatchPrefix(out: Buffer)
    requires |out.data| >= 4
    modifies out
    ensures out.data == Frame(old(out.data)[4..])
  {
    var length := |out.data| - 4;
    out.data := out.data[0 := length / 16777216 % 256];
    out.data := out.data[1 := length / 65536 % 256];
    out.data := out.data[2 := length / 256 % 256];
    out.data := out.data[3 := length % 256];
  }

  method EncodeWakeInto(m: WakeMessage, out: Buffer)
    requires ValidWake(m) && IsInt64(m.schemaVersion) && IsInt64(m.decisionTsMs) && IsInt64(m.sentAtMs)
    requires IsInt64(m.sentAtNs) && IsInt64(m.recvNs) && IsInt64(m.exchangeIndex)
    modifies out
    ensures out.data == Frame(WakeBody(m))
  {
    hide IsInt64, ValidDouble, ValidRanges, RecordText, Frame;
    WakeWritable(m);
    EncodeInto(WAKE_ORDER, WakeFields(m), out);
  }

  lemma WakeWritable(m: WakeMessage)
    requires ValidWake(m) && IsInt64(m.schemaVersion) && IsInt64(m.decisionTsMs) && IsInt64(m.sentAtMs)
    requires IsInt64(m.sentAtNs) && IsInt64(m.recvNs) && IsInt64(m.exchangeIndex)
    ensures forall i :: 0 <= i < |WAKE_ORDER| ==>
      ValidField(WakeFields(m)(WAKE_ORDER[i])) && Writable(WakeFields(m)(WAKE_ORDER[i]))
  {
    hide IsInt64, ValidDouble, ValidRanges;
  }

  method EncodeAckInto(a: WakeAck, out: Buffer)
    requires IsInt64(a.schemaVersion) && IsInt64(a.receivedAtMs)
    modifies out
    ensures out.data == Frame(AckBody(a))
  {
    hide RecordText, Frame;
    AckWritable(a);
    EncodeInto(ACK_ORDER, AckFields(a), out);
  }

  lemma AckWritable(a: WakeAck)
    requires IsInt64(a.schemaVersion) && IsInt64(a.receivedAtMs)
    ensures forall i :: 0 <= i < |ACK_ORDER| ==>
      ValidField(AckFields(a)(ACK_ORDER[i])) && Writable(AckFields(a)(ACK_ORDER[i]))
  {
    hide IsInt64;
  }

  /** `decode_frame_length`. */
  method DecodeFrameLength(prefix: bytes) returns (r: Text.Decoded<nat>)
    ensures r == FrameLengthOf(prefix)
    ensures |prefix| != 4 ==> r.Bad?
    ensures |prefix| == 4 ==>
      var n := prefix[0] as int * 0x1000000 + prefix[1] as int * 0x10000 + prefix[2] as int * 0x100 + prefix[3] as int;
      (r.Good? <==> n <= 65536) && (r.Good? ==> r.value == n)
  {
    if |prefix| != FRAME_LENGTH_BYTES {
      return Text.Bad(PrefixNotFourBytes);
    }
    var length := 0;
    for i := 0 to |prefix|
      invariant 0 <= length && length == (if i == 0 then 0 else if i == 1 then prefix[0] as int
        else if i == 2 then prefix[0] as int * 256 + prefix[1]
        else if i == 3 then (prefix[0] as int * 256 + prefix[1]) * 256 + prefix[2]
        else ((prefix[0] as int * 256 + prefix[1]) * 256 + prefix[2]) * 256 + prefix[3])
    {
      length := length * 256 + prefix[i];
    }
    if length > MAX_FRAME_BYTES {
      return Text.Bad(FrameLength(length));
    }
    return Text.Good(length);
  }

  // ------------------------------------------------------------------ decoding

  /** The reader is where it was in the enclosing levels. */
  ghost predicate Level(r: Reader, depth: nat, outer: seq<bool>)
    reads r, r.first
  {
    r.Valid() && !r.failed && r.depth == depth && depth <= 3 && |outer| == depth && r.first[..depth] == outer
  }

  /** Up to three bounds of one entry, the array already open. */
  method ReadBounds(fc: Text.FromChars, r: Reader) returns (failure: Option<Reason>, bounds: seq<Double>)
    requires r.Valid() && !r.failed && r.depth == 3 && r.first[2]
    modifies r, r.first
    ensures r.Valid()
    ensures var s := Text.ReadBounds(fc, old(r.Rest()), true, 3);
      && failure == (if s.Ok? then None else Some(s.reason))
      && (s.Ok? ==> bounds == s.value && r.Rest() == s.rest && Level(r, 3, old(r.first[..2]) + [false]))
  {
    hide Text.Next, Text.ReadDouble;
    ghost var start := r.Rest();
    bounds := [];
    failure := None;
    EmptyBounds(fc, start, true, 3);
    for i := 0 to 3
      invariant r.Valid() && !r.failed && r.depth == 3 && r.first[..2] == old(r.first[..2]) && r.first[2] == (i == 0)
      invariant |bounds| == i
      invariant Text.ReadBounds(fc, start, true, 3) ==
        AddBounds(bounds, Text.ReadBounds(fc, r.Rest(), i == 0, 3 - i))
    {
      ghost var s := r.Rest();
      var ok, present := r.Next(CLOSE_BRACKET);
      if !ok {
        failure := Some(r.error);
        return;
      }
      if !present {
        failure := Some(RangeArity);
        return;
      }
      var x;
      ok, x := r.ReadDouble(fc);
      if !ok {
        failure := Some(r.error);
        return;
      }
      MoreBounds(bounds, x, Text.ReadBounds(fc, r.Rest(), false, 2 - i));
      bounds := bounds + [x];
    }
    assert bounds + [] == bounds;
    assert r.first[..3] == r.first[..2] + [r.first[2]];
  }

  ghost function AddBounds(front: seq<Double>, r: Scan<seq<Double>>): (q: Scan<seq<Double>>) {
    if r.Ok? then Ok(front + r.value, r.rest) else r
  }

  lemma EmptyBounds(fc: Text.FromChars, s: bytes, first: bool, n: nat)
    ensures AddBounds([], Text.ReadBounds(fc, s, first, n)) == Text.ReadBounds(fc, s, first, n)
  {
    hide Text.ReadBounds;
    var r := Text.ReadBounds(fc, s, first, n);
    if r.Ok? {
      assert [] + r.value == r.value;
    }
  }

  lemma MoreBounds(front: seq<Double>, x: Double, r: Scan<seq<Double>>)
    ensures AddBounds(front, if r.Err? then r else Ok([x] + r.value, r.rest)) == AddBounds(front + [x], r)
  {
    if r.Ok? {
      assert front + ([x] + r.value) == front + [x] + r.value;
    }
  }

  /** One `[start, end, step]` entry. */
  method ReadRange(fc: Text.FromChars, r: Reader) returns (failure: Option<Reason>, range: PriceRange)
    requires r.Valid() && !r.failed && r.depth == 2
    modifies r, r.first
    ensures r.Valid()
    ensures var s := Text.ReadRange(fc, old(r.Rest()));
      && failure == (if s.Ok? then None else Some(s.reason))
      && (s.Ok? ==> range == s.value && r.Rest() == s.rest && Level(r, 2, old(r.first[..2])))
  {
    hide Text.Next, Text.Expect, Text.ReadBounds;
    range := DEFAULT_RANGE;
    var ok := r.Begin(OPEN_BRACKET);
    if !ok {
      failure := Some(r.error);
      return;
    }
    assert r.first[..2] == old(r.first[..2]);
    var bounds;
    failure, bounds := ReadBounds(fc, r);
    if failure.Some? {
      return;
    }
    assert r.first[..2] == r.first[..3][..2] == old(r.first[..2]) && r.first[2] == r.first[..3][2] == false;
    var extra;
    ok, extra := r.Next(CLOSE_BRACKET);
    if !ok {
      failure := Some(r.error);
      return;
    }
    if extra {
      failure := Some(RangeArity);
      return;
    }
    range := PriceRange(bounds[0], bounds[1], bounds[2]);
  }

  /** `read_price_ranges`. */
  method ReadPriceRanges(fc: Text.FromChars, r: Reader) returns (failure: Option<Reason>, ranges: seq<PriceRange>)
    requires r.Valid() && !r.failed && r.depth == 1
    modifies r, r.first
    ensures r.Valid()
    ensures var s := Text.ReadRanges(fc, old(r.Rest()));
      && failure == (if s.Ok? then None else Some(s.reason))
      && (s.Ok? ==> ranges == s.value && r.Rest() == s.rest && Level(r, 1, old(r.first[..1])))
  {
    hide Text.Next, Text.Expect, Text.ReadRange;
    ranges := [];
    failure := None;
    ghost var outer := r.first[..1];
    var ok := r.Begin(OPEN_BRACKET);
    if !ok {
      failure := Some(r.error);
      return;
    }
    ghost var start := r.Rest();
    var flag := true;
    NoRangesYet(fc, start);
    while true
      invariant r.Valid() && !r.failed && r.depth == 2 && r.first[..1] == outer && r.first[1] == flag && failure == None
      invariant Text.ReadRangesRest(fc, start, true) == AddRanges(ranges, Text.ReadRangesRest(fc, r.Rest(), flag))
      decreases |r.Rest()|
    {
      ghost var s := r.Rest();
      RangesCases(fc, s, flag);
      var present;
      ok, present := r.Next(CLOSE_BRACKET);
      if !ok {
        failure := Some(r.error);
        return;
      }
      if !present {
        assert ranges + [] == ranges && r.first[..1] == r.first[..][..1] == outer;
        return;
      }
      assert r.first[..1] == r.first[..][..1] == outer && !r.first[..][1];
      ghost var u := r.Rest();
      var range;
      failure, range := ReadRange(fc, r);
      if failure.Some? {
        return;
      }
      assert r.first[..1] == r.first[..2][..1] && r.first[1] == r.first[..2][1];
      MoreRanges(ranges, range, Text.ReadRangesRest(fc, r.Rest(), false));
      ranges := ranges + [range];
      flag := false;
    }
  }

  ghost function AddRanges(front: seq<PriceRange>, r: Scan<seq<PriceRange>>): (q: Scan<seq<PriceRange>>) {
    if r.Ok? then Ok(front + r.value, r.rest) else r
  }

  lemma NoRangesYet(fc: Text.FromChars, s: bytes)
    ensures AddRanges([], Text.ReadRangesRest(fc, s, true)) == Text.ReadRangesRest(fc, s, true)
  {
    hide Text.ReadRangesRest;
    var r := Text.ReadRangesRest(fc, s, true);
    if r.Ok? {
      assert [] + r.value == r.value;
    }
  }

  lemma MoreRanges(front: seq<PriceRange>, x: PriceRange, r: Scan<seq<PriceRange>>)
    ensures AddRanges(front, if r.Err? then r else Ok([x] + r.value, r.rest)) == AddRanges(front + [x], r)
  {
    if r.Ok? {
      assert front + ([x] + r.value) == front + [x] + r.value;
    }
  }

  /** One step of the range list. */
  lemma RangesCases(fc: Text.FromChars, s: bytes, first: bool)
    ensures var m := Text.Next(s, first, CLOSE_BRACKET);
      && (m.Err? ==> Text.ReadRangesRest(fc, s, first) == Err(m.reason))
      && (m.Ok? && !m.value ==> Text.ReadRangesRest(fc, s, first) == Ok([], m.rest))
      && (m.Ok? && m.value ==>
        var x := Text.ReadRange(fc, m.rest);
        && (x.Err? ==> Text.ReadRangesRest(fc, s, first) == Err(x.reason))
        && (x.Ok? ==> |x.rest| < |s|)
        && (x.Ok? ==>
          var xs := Text.ReadRangesRest(fc, x.rest, false);
          Text.ReadRangesRest(fc, s, first) == if xs.Err? then xs else Ok([x.value] + xs.value, xs.rest)))
  {
    hide Text.Next, Text.ReadRange;
  }

  method ReadDirection(r: Reader) returns (failure: Option<Reason>, direction: Direction)
    requires r.Valid() && !r.failed
    modifies r
    ensures r.Valid() && r.depth == old(r.depth)
    ensures var s := Text.ReadDirection(old(r.Rest()));
      && failure == (if s.Ok? then None else Some(s.reason))
      && (s.Ok? ==> direction == s.value && r.Rest() == s.rest && !r.failed)
  {
    hide ScanString;
    direction := Yes;
    var ok, text := r.ScanString();
    if !ok {
      return Some(r.error), direction;
    }
    if text == Text.YES {
      return None, Yes;
    }
    if text == Text.NO {
      return None, No;
    }
    return Some(BadDirection(text)), direction;
  }

  method ReadStatus(r: Reader) returns (failure: Option<Reason>, status: AckStatus)
    requires r.Valid() && !r.failed
    modifies r
    ensures r.Valid() && r.depth == old(r.depth)
    ensures var s := Text.ReadStatus(old(r.Rest()));
      && failure == (if s.Ok? then None else Some(s.reason))
      && (s.Ok? ==> status == s.value && r.Rest() == s.rest && !r.failed)
  {
    hide ScanString;
    status := Accepted;
    var ok, text := r.ScanString();
    if !ok {
      return Some(r.error), status;
    }
    if text == Text.ACCEPTED {
      return None, Accepted;
    }
    if text == Text.REJECTED {
      return None, Rejected;
    }
    return Some(BadStatus(text)), status;
  }

  /** The `reason` branch of `read_ack_field`. */
  method ReadReason(r: Reader) returns (failure: Option<Reason>, reason: Option<bytes>)
    requires r.Valid() && !r.failed
    modifies r
    ensures r.Valid() && r.depth == old(r.depth)
    ensures var s := Text.ReadReason(old(r.Rest()));
      && failure == (if s.Ok? then None else Some(s.reason))
      && (s.Ok? ==> reason == s.value && r.Rest() == s.rest && !r.failed)
  {
    hide ScanString, SkipSpace;
    ghost var s := r.Rest();
    SkipTwice(s);
    reason := None;
    var isNull := r.AtNull();
    if isNull {
      var ok := r.ReadNull();
      return None, None;
    }
    StringAfterBlank(s);
    var ok, text := r.ScanString();
    if !ok {
      return Some(r.error), None;
    }
    return None, Some(text);
  }

  lemma StringAfterBlank(s: bytes)
    ensures ScanString(SkipSpace(s)) == ScanString(s)
  {
    hide ScanChars;
    SkipTwice(s);
  }

  /** The value of a member, by the kind of its key. */
  method ReadValue(fc: Text.FromChars, r: Reader, k: Key) returns (failure: Option<Reason>, f: FieldValue)
    requires r.Valid() && !r.failed && r.depth == 1
    modifies r, r.first
    ensures r.Valid()
    ensures var s := Text.ReadField(fc, k, old(r.Rest()));
      && failure == (if s.Ok? then None else Some(s.reason))
      && (s.Ok? ==> f == s.value && r.Rest() == s.rest && Level(r, 1, old(r.first[..1])))
  {
    hide Text.ReadInt, ScanString, Text.ReadDirection, Text.ReadDouble, Text.ReadBool, Text.ReadRanges, Text.ReadStatus, Text.ReadReason;
    f := BoolField(false);
    failure := None;
    var ok := true;
    match KindOf(k) {
      case IntKind =>
        var v;
        ok, v := r.ReadInt();
        f := IntField(v);
      case StringKind =>
        var v;
        ok, v := r.ScanString();
        f := StringField(v);
      case DirectionKind =>
        var v;
        failure, v := ReadDirection(r);
        f := DirectionField(v);
      case DoubleKind =>
        var v;
        ok, v := r.ReadDouble(fc);
        f := DoubleField(v);
      case BoolKind =>
        var v;
        ok, v := r.ReadBool();
        f := BoolField(v);
      case RangesKind =>
        var v;
        failure, v := ReadPriceRanges(fc, r);
        f := RangesField(v);
      case StatusKind =>
        var v;
        failure, v := ReadStatus(r);
        f := StatusField(v);
      case ReasonKind =>
        var v;
        failure, v := ReadReason(r);
        f := ReasonField(v);
    }
    if !ok {
      failure := Some(r.error);
    }
  }

  /** The key a member name stands for, among those of the record. */
  method FindKey(order: seq<Key>, name: bytes) returns (k: Option<Key>)
    ensures k == (if KeyOf(name).Some? && KeyOf(name).value in order then KeyOf(name) else None)
  {
    hide KeyText;
    for i := 0 to |order|
      invariant forall j :: 0 <= j < i ==> KeyText(order[j]) != name
    {
      if name == KeyText(order[i]) {
        KeyOfName(order[i]);
        return Some(order[i]);
      }
    }
    return None;
  }

  /** Records the value of one member in the message. */
  function SetWake(m: WakeMessage, k: Key, f: FieldValue): (r: WakeMessage)
    requires HasKind(f, KindOf(k))
  {
    match k
    case SchemaVersion => m.(schemaVersion := f.i)
    case CorrelationId => m.(correlationId := f.s)
    case MarketTicker => m.(marketTicker := f.s)
    case Asset => m.(asset := f.s)
    case DirectionKey => m.(direction := f.d)
    case KalshiPrice => m.(kalshiPrice := f.x)
    case ModelProbability => m.(modelProbability := f.x)
    case Fee => m.(fee := f.x)
    case Edge => m.(edge := f.x)
    case DecisionTsMs => m.(decisionTsMs := f.i)
    case SentAtMs => m.(sentAtMs := f.i)
    case SentAtNs => m.(sentAtNs := f.i)
    case RecvNs => m.(recvNs := f.i)
    case ClockDomain => m.(clockDomain := f.s)
    case DryRun => m.(dryRun := f.b)
    case WirePrice => m.(wirePrice := f.x)
    case ExchangeIndex => m.(exchangeIndex := f.i)
    case AvailableSize => m.(availableSize := f.x)
    case PriceRanges => m.(priceRanges := f.ranges)
    case CorrelationGroup => m.(correlationGroup := f.s)
    case _ => m
  }

  function SetAck(a: WakeAck, k: Key, f: FieldValue): (r: WakeAck)
    requires HasKind(f, KindOf(k))
  {
    match k
    case SchemaVersion => a.(schemaVersion := f.i)
    case CorrelationId => a.(correlationId := f.s)
    case ReceivedAtMs => a.(receivedAtMs := f.i)
    case Status => a.(status := f.status)
    case ReasonKey => a.(reason := f.reason)
    case _ => a
  }

  lemma LookupAfter(env: Env, k: Key, f: FieldValue, j: Key)
    requires HasKind(f, KindOf(k))
    ensures Lookup(env[k := f], j) == if j == k then f else Lookup(env, j)
  {
    hide HasKind, KindOf;
  }

  lemma SetThenGet(m: WakeMessage, k: Key, f: FieldValue, j: Key)
    requires HasKind(f, KindOf(k)) && WireIndex(j) < 20
    ensures WakeField(SetWake(m, k, f), j) == if j == k then f else WakeField(m, j)
  {
    hide SetWake, WakeField, HasKind, KindOf;
    if j == k {
      SetThenGetSame(m, k, f);
    } else if WireIndex(k) < 10 {
      SetLowThenGet(m, k, f, j);
    } else {
      SetHighThenGet(m, k, f, j);
    }
  }

  lemma SetThenGetSame(m: WakeMessage, k: Key, f: FieldValue)
    requires HasKind(f, KindOf(k)) && WireIndex(k) < 20
    ensures WakeField(SetWake(m, k, f), k) == f
  {
  }

  lemma SetLowThenGet(m: WakeMessage, k: Key, f: FieldValue, j: Key)
    requires HasKind(f, KindOf(k)) && WireIndex(k) < 10 && j != k
    ensures WakeField(SetWake(m, k, f), j) == WakeField(m, j)
  {
  }

  lemma SetHighThenGet(m: WakeMessage, k: Key, f: FieldValue, j: Key)
    requires HasKind(f, KindOf(k)) && WireIndex(k) >= 10 && j != k
    ensures WakeField(SetWake(m, k, f), j) == WakeField(m, j)
  {
  }

  lemma LookupKind(env: Env, j: Key)
    ensures HasKind(Lookup(env, j), KindOf(j))
  {
    hide HasKind, KindOf;
  }

  lemma WakeHoldsFields(env: Env, j: Key)
    requires WireIndex(j) < 20
    ensures WakeField(WakeOf(env), j) == Lookup(env, j)
  {
    hide Lookup;
    LookupKind(env, j);
  }

  /** Updating one field of the message is recording one value in the record. */
  lemma SetWakeMatches(env: Env, k: Key, f: FieldValue)
    requires HasKind(f, KindOf(k))
    ensures SetWake(WakeOf(env), k, f) == WakeOf(env[k := f])
  {
    hide Lookup, WakeOf, SetWake, WakeField;
    var m := SetWake(WakeOf(env), k, f);
    forall j | WireIndex(j) < 20
      ensures Lookup(env[k := f], j) == WakeField(m, j)
    {
      LookupAfter(env, k, f, j);
      SetThenGet(WakeOf(env), k, f, j);
      WakeHoldsFields(env, j);
    }
    WakeFromFields(m, env[k := f]);
  }

  lemma SetAckMatches(env: Env, k: Key, f: FieldValue)
    requires HasKind(f, KindOf(k))
    ensures SetAck(AckOf(env), k, f) == AckOf(env[k := f])
  {
    hide Lookup;
    forall j
      ensures Lookup(env[k := f], j) == if j == k then f else Lookup(env, j)
    {
      LookupAfter(env, k, f, j);
    }
  }

  /** One step of the member list. */
  lemma MembersCases(fc: Text.FromChars, schema: set<Key>, s: bytes, first: bool, env: Env)
    ensures var m := Text.Next(s, first, CLOSE_BRACE);
      && (m.Err? ==> Text.ReadMembers(fc, schema, s, first, env) == Err(m.reason))
      && (m.Ok? && !m.value ==> Text.ReadMembers(fc, schema, s, first, env) == Ok(env, m.rest))
      && (m.Ok? && m.value ==> Text.ReadMembers(fc, schema, s, first, env) == AfterNext(fc, schema, m.rest, env))
  {
    hide Text.Next, Text.ReadKey, Text.ReadField;
  }

  /** A member, and the members after it. */
  ghost function AfterNext(fc: Text.FromChars, schema: set<Key>, s: bytes, env: Env): (r: Scan<Env>) {
    var k := Text.ReadKey(schema, s);
    if k.Err? then Err(k.reason) else
    var v := Text.ReadField(fc, k.value, k.rest);
    if v.Err? then Err(v.reason) else
    Text.ReadMembers(fc, schema, v.rest, false, env[k.value := v.value])
  }

  /** The key and the colon of a member. */
  method ReadKey(r: Reader, order: seq<Key>) returns (failure: Option<Reason>, k: Key)
    requires r.Valid() && !r.failed
    modifies r
    ensures r.Valid() && r.depth == old(r.depth)
    ensures var s := Text.ReadKey(KeysOf(order), old(r.Rest()));
      && failure == (if s.Ok? then None else Some(s.reason))
      && (s.Ok? ==> k == s.value && r.Rest() == s.rest && !r.failed)
  {
    hide ScanString, Text.Expect, KeyOf;
    k := SchemaVersion;
    var ok, name := r.ScanString();
    if !ok {
      return Some(r.error), k;
    }
    ok := r.Expect(COLON);
    if !ok {
      return Some(r.error), k;
    }
    var found := FindKey(order, name);
    if found.None? {
      return Some(UnexpectedField(name)), k;
    }
    return None, found.value;
  }

  /** `next_member` and `read_wake_field` or `read_ack_field`. */
  method ReadMember(fc: Text.FromChars, r: Reader, order: seq<Key>, ghost env: Env)
    returns (failure: Option<Reason>, member: Option<(Key, FieldValue)>)
    requires r.Valid() && !r.failed && r.depth == 1
    modifies r, r.first
    ensures r.Valid()
    ensures var s := Text.ReadMembers(fc, KeysOf(order), old(r.Rest()), old(r.first[0]), env);
      && (failure.Some? ==> s == Err(failure.value))
      && (failure.None? ==> !r.failed)
      && (failure.None? && member.None? ==> s == Ok(env, r.Rest()) && r.depth == 0)
      && (failure.None? && member.Some? ==>
        && HasKind(member.value.1, KindOf(member.value.0)) && r.depth == 1 && !r.first[0]
        && |r.Rest()| < |old(r.Rest())|
        && s == Text.ReadMembers(fc, KeysOf(order), r.Rest(), false, env[member.value.0 := member.value.1]))
  {
    hide Text.Next, Text.ReadKey, Text.ReadField, Text.ReadMembers, HasKind;
    member := None;
    failure := None;
    MembersCases(fc, KeysOf(order), r.Rest(), r.first[0], env);
    var ok, present := r.Next(CLOSE_BRACE);
    if !ok {
      failure := Some(r.error);
      return;
    }
    if !present {
      return;
    }
    assert !r.first[..][0];
    var k;
    failure, k := ReadKey(r, order);
    if failure.Some? {
      return;
    }
    var f;
    failure, f := ReadValue(fc, r, k);
    if failure.Some? {
      return;
    }
    assert !r.first[..1][0];
    member := Some((k, f));
  }

  /** The outcomes of a whole body, one by one. */
  lemma RecordCases(fc: Text.FromChars, schema: set<Key>, required: seq<Key>, body: bytes)
    ensures var open := Text.Expect(OPEN_BRACE, body);
      && (open.Err? ==> Text.DecodeRecord(fc, schema, required, body) == Text.Bad(open.reason))
      && (open.Ok? ==>
        var env := Text.ReadMembers(fc, schema, open.rest, true, map[]);
        && (env.Err? ==> Text.DecodeRecord(fc, schema, required, body) == Text.Bad(env.reason))
        && (env.Ok? ==> Text.DecodeRecord(fc, schema, required, body) == Finished(required, env.value, env.rest)))
  {
    hide Text.Expect, Text.ReadMembers, SkipSpace, Text.FirstMissing, KeyText;
  }

  ghost function Finished(required: seq<Key>, env: Env, rest: bytes): (r: Text.Decoded<Env>) {
    if SkipSpace(rest) != [] then Text.Bad(TrailingContent)
    else if Text.FirstMissing(required, env.Keys).Some? then
      Text.Bad(MissingRequired(KeyText(Text.FirstMissing(required, env.Keys).value)))
    else Text.Good(env)
  }

  /** The member loop of `decode_wake_message`. */
  method ReadWakeMembers(fc: Text.FromChars, reader: Reader)
    returns (failure: Option<Reason>, message: WakeMessage, seen: set<Key>, ghost env: Env)
    requires reader.Valid() && !reader.failed && reader.depth == 1
    modifies reader, reader.first
    ensures reader.Valid() && (failure.None? ==> !reader.failed)
    ensures Text.ReadMembers(fc, KeysOf(WAKE_ORDER), old(reader.Rest()), old(reader.first[0]), map[]) ==
      if failure.Some? then Err(failure.value) else Ok(env, reader.Rest())
    ensures failure.None? ==> message == WakeOf(env) && seen == env.Keys
  {
    hide Text.ReadMembers, HasKind, SkipSpace, WakeOf, KeysOf, SetWake;
    DefaultWakeHolds();
    env, message, seen, failure := map[], DefaultWake(), {}, None;
    ghost var start, first := reader.Rest(), reader.first[0];
    while true
      invariant reader.Valid() && !reader.failed && reader.depth == 1
      invariant Text.ReadMembers(fc, KeysOf(WAKE_ORDER), start, first, map[]) ==
        Text.ReadMembers(fc, KeysOf(WAKE_ORDER), reader.Rest(), reader.first[0], env)
      invariant message == WakeOf(env) && seen == env.Keys
      decreases |reader.Rest()|
    {
      var member;
      failure, member := ReadMember(fc, reader, WAKE_ORDER, env);
      if failure.Some? || member.None? {
        return;
      }
      SetWakeMatches(env, member.value.0, member.value.1);
      message := SetWake(message, member.value.0, member.value.1);
      seen := seen + {member.value.0};
      env := env[member.value.0 := member.value.1];
    }
  }

  /** `decode_wake_message`. */
  method DecodeWakeMessage(fc: Text.FromChars, body: bytes) returns (r: Text.Decoded<WakeMessage>)
    ensures r == DecodeWake(fc, body)
  {
    hide Text.Expect, Text.ReadMembers, Text.DecodeRecord, SkipSpace, WakeOf, Text.FirstMissing, KeyText, KeysOf;
    RecordCases(fc, KeysOf(WAKE_ORDER), WAKE_REQUIRED, body);
    var reader := new Reader(body);
    var ok := reader.Begin(OPEN_BRACE);
    if !ok {
      return Text.Bad(reader.error);
    }
    assert reader.first[..][0];
    var failure, message, seen, env := ReadWakeMembers(fc, reader);
    if failure.Some? {
      return Text.Bad(failure.value);
    }
    ok := reader.AtDocumentEnd();
    if !ok {
      return Text.Bad(reader.error);
    }
    var missing := Text.FirstMissing(WAKE_REQUIRED, seen);
    if missing.Some? {
      return Text.Bad(MissingRequired(KeyText(missing.value)));
    }
    return Text.Good(message);
  }

  /** The member loop of `decode_wake_ack`. */
  method ReadAckMembers(fc: Text.FromChars, reader: Reader)
    returns (failure: Option<Reason>, ack: WakeAck, seen: set<Key>, ghost env: Env)
    requires reader.Valid() && !reader.failed && reader.depth == 1
    modifies reader, reader.first
    ensures reader.Valid() && (failure.None? ==> !reader.failed)
    ensures Text.ReadMembers(fc, KeysOf(ACK_ORDER), old(reader.Rest()), old(reader.first[0]), map[]) ==
      if failure.Some? then Err(failure.value) else Ok(env, reader.Rest())
    ensures failure.None? ==> ack == AckOf(env) && seen == env.Keys
  {
    hide Text.ReadMembers, HasKind, SkipSpace, AckOf, KeysOf, SetAck;
    DefaultAckHolds();
    env, ack, seen, failure := map[], DefaultAck(), {}, None;
    ghost var start, first := reader.Rest(), reader.first[0];
    while true
      invariant reader.Valid() && !reader.failed && reader.depth == 1
      invariant Text.ReadMembers(fc, KeysOf(ACK_ORDER), start, first, map[]) ==
        Text.ReadMembers(fc, KeysOf(ACK_ORDER), reader.Rest(), reader.first[0], env)
      invariant ack == AckOf(env) && seen == env.Keys
      decreases |reader.Rest()|
    {
      var member;
      failure, member := ReadMember(fc, reader, ACK_ORDER, env);
      if failure.Some? || member.None? {
        return;
      }
      SetAckMatches(env, member.value.0, member.value.1);
      ack := SetAck(ack, member.value.0, member.value.1);
      seen := seen + {member.value.0};
      env := env[member.value.0 := member.value.1];
    }
  }

  /** `decode_wake_ack`. */
  method DecodeWakeAck(fc: Text.FromChars, body: bytes) returns (r: Text.Decoded<WakeAck>)
    ensures r == DecodeAck(fc, body)
  {
    hide Text.Expect, Text.ReadMembers, Text.DecodeRecord, SkipSpace, AckOf, Text.FirstMissing, KeyText, KeysOf;
    RecordCases(fc, KeysOf(ACK_ORDER), ACK_REQUIRED, body);
    var reader := new Reader(body);
    var ok := reader.Begin(OPEN_BRACE);
    if !ok {
      return Text.Bad(reader.error);
    }
    assert reader.first[..][0];
    var failure, ack, seen, env := ReadAckMembers(fc, reader);
    if failure.Some? {
      return Text.Bad(failure.value);
    }
    ok := reader.AtDocumentEnd();
    if !ok {
      return Text.Bad(reader.error);
    }
    var missing := Text.FirstMissing(ACK_REQUIRED, seen);
    if missing.Some? {
      return Text.Bad(MissingRequired(KeyText(missing.value)));
    }
    return Text.Good(ack);
  }

  /** A message as its declaration initialises it. */
  function DefaultWake(): (m: WakeMessage) {
    WakeMessage(
      SCHEMA_VERSION, [], [], [], Yes, DOUBLE_ZERO, DOUBLE_ZERO, DOUBLE_ZERO, DOUBLE_ZERO, 0, 0, 0, 0, [], false,
      DOUBLE_ZERO, -1, DOUBLE_ZERO, [DEFAULT_RANGE], [])
  }

  function DefaultAck(): (a: WakeAck) {
    WakeAck(SCHEMA_VERSION, [], 0, Accepted, None)
  }

  lemma DefaultWakeHolds()
    ensures DefaultWake() == WakeOf(map[])
  {
    hide WakeOf, DefaultWake;
    forall j | WireIndex(j) < 20
      ensures Lookup(map[], j) == WakeField(DefaultWake(), j)
    {
      DefaultFieldHolds(j);
    }
    WakeFromFields(DefaultWake(), map[]);
  }

  lemma DefaultFieldHolds(j: Key)
    requires WireIndex(j) < 20
    ensures DefaultField(j) == WakeField(DefaultWake(), j)
  {
  }

  lemma DefaultAckHolds()
    ensures DefaultAck() == AckOf(map[])
  {
  }
}
