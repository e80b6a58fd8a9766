/** What every run of the executor keeps: fires only after their own ack, and real orders only past both guards. */
module ExecutorRuns {
  import opened Bytes
  import opened Errors
  import opened JsonNumbers
  import opened JsonGrammar
  import opened WireKeys
  import opened WireText
  import opened WireGrammar
  import opened WireRecords
  import opened Wire
  import opened WireRoundTrip
  import opened WireLengths
  import opened WireRejections
  import opened WireNames
  import opened KillSwitch
  import opened Frames
  import opened Firing
  import opened Accounts
  import opened Executor
  import Pricing
  import Utf8

  // ------------------------------------------------------------ order of events

  /** Where the ack of the frame fired at `i` is logged. */
  function AckIndex(log: seq<Event>, i: int): (j: int)
    requires 1 <= i < |log|
  {
    if log[i - 1].Recorded? then i - 2 else i - 1
  }

  /** The fire at `i` comes right after its own frame was read, accepted and acknowledged in full. */
  ghost predicate Justified(fc: FromChars, g: Guard, recording: bool, log: seq<Event>, i: int)
    requires 0 <= i < |log| && log[i].Fired?
  {
    && i >= 1 && AckIndex(log, i) >= 2
    && var j, m := AckIndex(log, i), log[i].message;
      && log[j].Acked? && log[j - 1].Answered? && log[j - 2].Took?
      && DecodeWake(fc, log[j - 2].body) == Good(m)
      && log[j - 1].ack.status.Accepted? && log[j - 1].ack.correlationId == m.correlationId
      && (log[i - 1].Recorded? <==> recording) && (recording ==> log[i - 1] == Recorded(m.correlationId, m.dryRun))
      && Decides(g, m, log[i].outcome)
  }

  ghost predicate Orderly(fc: FromChars, g: Guard, recording: bool, log: seq<Event>) {
    forall i :: 0 <= i < |log| && log[i].Fired? ==> Justified(fc, g, recording, log, i)
  }

  lemma FrameOrderly(fc: FromChars, g: Guard, recording: bool, f: Served)
    requires ValidServed(fc, g, f)
    ensures Orderly(fc, g, recording, EventsOf(fc, recording, f))
  {
    hide DecodeWake, Decides;
  }

  lemma OrderlyConcat(fc: FromChars, g: Guard, recording: bool, a: seq<Event>, b: seq<Event>)
    requires Orderly(fc, g, recording, a) && Orderly(fc, g, recording, b)
    ensures Orderly(fc, g, recording, a + b)
  {
    hide DecodeWake, Decides;
    var log := a + b;
    forall i | 0 <= i < |log| && log[i].Fired?
      ensures Justified(fc, g, recording, log, i)
    {
      if i < |a| {
        assert Justified(fc, g, recording, a, i) && AckIndex(log, i) == AckIndex(a, i);
      } else {
        assert Justified(fc, g, recording, b, i - |a|);
        assert log[i - 1] == b[i - |a| - 1];
        assert AckIndex(log, i) == |a| + AckIndex(b, i - |a|);
      }
    }
  }

  lemma {:induction false} RunOrderly(fc: FromChars, g: Guard, recording: bool, fs: seq<Served>)
    requires forall i :: 0 <= i < |fs| ==> ValidServed(fc, g, fs[i])
    ensures Orderly(fc, g, recording, LogOf(fc, recording, fs))
  {
    hide ValidServed, EventsOf, Justified;
    if fs != [] {
      var front, last := fs[..|fs| - 1], fs[|fs| - 1];
      RunOrderly(fc, g, recording, front);
      FrameOrderly(fc, g, recording, last);
      OrderlyConcat(fc, g, recording, LogOf(fc, recording, front), EventsOf(fc, recording, last));
    }
  }

  /** Over every run, every fire follows the complete send of the accepted ack of that same frame. */
  lemma {:induction false} FiresFollowAcks(fc: FromChars, g: Guard, recording: bool, runs: seq<seq<Served>>)
    requires ValidRuns(fc, g, runs)
    ensures Orderly(fc, g, recording, RunsLog(fc, recording, runs))
  {
    hide ValidRun, LogOf, Justified;
    if runs != [] {
      var front, last := runs[..|runs| - 1], runs[|runs| - 1];
      FiresFollowAcks(fc, g, recording, front);
      RunIsServed(fc, g, last);
      RunOrderly(fc, g, recording, last);
      OrderlyConcat(fc, g, recording, RunsLog(fc, recording, front), LogOf(fc, recording, last));
    }
  }

  /** Different fires belong to different frames, in the same order. */
  lemma FiresKeepFrameOrder(fc: FromChars, g: Guard, recording: bool, log: seq<Event>, i: int, k: int)
    requires Orderly(fc, g, recording, log) && 0 <= i < k < |log| && log[i].Fired? && log[k].Fired?
    ensures Justified(fc, g, recording, log, i) && Justified(fc, g, recording, log, k)
    ensures AckIndex(log, i) - 2 < i < AckIndex(log, k) - 2
  {
    hide DecodeWake, Decides;
    assert Justified(fc, g, recording, log, i) && Justified(fc, g, recording, log, k);
  }

  // ---------------------------------------------------------------- real orders

  /** `std::from_chars` never makes a NaN or an infinity out of a number token. */
  ghost predicate NumbersOnly(fc: FromChars) {
    forall neg, v :: fc(neg, v).Some? ==> IsNumber(fc(neg, v).value)
  }

  /** The body is a record whose last wire price is this value. */
  ghost predicate CarriesPrice(fc: FromChars, body: bytes, x: Double) {
    exists d, i :: CarriesAt(fc, body, x, d, i)
  }

  ghost predicate CarriesAt(fc: FromChars, body: bytes, x: Double, d: Document, i: int) {
    && IsRecord(fc, KeysOf(WAKE_ORDER), WAKE_REQUIRED, d) && PrintDocument(d) == body
    && IsLast(fc, KeysOf(WAKE_ORDER), d.root.members, i)
    && MemberKey(fc, KeysOf(WAKE_ORDER), d.root.members[i]) == WirePrice
    && MemberField(fc, KeysOf(WAKE_ORDER), d.root.members[i]) == DoubleField(x)
  }

  lemma ZeroIsRefused()
    ensures !GuardPasses(DOUBLE_ZERO)
  {
    assert DigitsValue([ZERO]) == 0;
  }

  /** The price of a decoded message is the default or one the body carries. */
  lemma PriceIsCarried(fc: FromChars, body: bytes, m: WakeMessage)
    requires DecodeWake(fc, body) == Good(m)
    ensures m.wirePrice == DOUBLE_ZERO || CarriesPrice(fc, body, m.wirePrice)
  {
    hide DecodeRecord, WakeOf, Assign, KindOf, TypedMembers, ValidDocument, PrintDocument, KeysOf, MemberKey, MemberField, Lookup, CarriesPrice;
    var schema := KeysOf(WAKE_ORDER);
    var d := RecordSound(fc, schema, WAKE_REQUIRED, body);
    RecordComplete(fc, schema, WAKE_REQUIRED, d);
    var ms := d.root.members;
    var env := Assign(fc, schema, ms, map[]);
    assert m.wirePrice == DoubleAt(env, WirePrice) by { PriceOfEnv(env); }
    AssignKeys(fc, schema, ms, map[], WirePrice);
    if HasKey(fc, schema, ms, WirePrice) {
      var i := LastExists(fc, schema, ms, WirePrice);
      AssignLast(fc, schema, ms, map[], i);
      AssignKinds(fc, schema, ms, map[]);
      PriceInEnv(env);
      Carried(fc, body, m.wirePrice, d, i);
    } else {
      PriceNotInEnv(env);
    }
  }

  lemma Carried(fc: FromChars, body: bytes, x: Double, d: Document, i: int)
    requires CarriesAt(fc, body, x, d, i)
    ensures CarriesPrice(fc, body, x)
  {
    hide CarriesAt;
  }

  lemma PriceOfEnv(env: Env)
    ensures WakeOf(env).wirePrice == DoubleAt(env, WirePrice)
  {
    hide DoubleAt, Lookup;
  }

  lemma PriceInEnv(env: Env)
    requires WirePrice in env && HasKind(env[WirePrice], KindOf(WirePrice))
    ensures env[WirePrice] == DoubleField(DoubleAt(env, WirePrice))
  {
  }

  lemma PriceNotInEnv(env: Env)
    requires WirePrice !in env
    ensures DoubleAt(env, WirePrice) == DOUBLE_ZERO
  {
  }

  lemma CarriedIsNumber(fc: FromChars, body: bytes, x: Double)
    requires NumbersOnly(fc) && CarriesPrice(fc, body, x)
    ensures IsNumber(x)
  {
    hide CarriesAt, IsNumber, NumbersOnly;
    var d, i :| CarriesAt(fc, body, x, d, i);
    CarriedAtIsNumber(fc, body, x, d, i);
  }

  lemma CarriedAtIsNumber(fc: FromChars, body: bytes, x: Double, d: Document, i: int)
    requires NumbersOnly(fc) && CarriesAt(fc, body, x, d, i)
    ensures IsNumber(x)
  {
    hide ValidDocument, PrintDocument, KeysOf, TypedMember, IsNumber, NumbersOnly, MemberKey, MemberField;
    MemberIsNumber(fc, KeysOf(WAKE_ORDER), d.root.members[i], x);
  }

  lemma MemberIsNumber(fc: FromChars, schema: set<Key>, m: Member, x: Double)
    requires NumbersOnly(fc) && TypedMember(fc, schema, m)
    requires MemberKey(fc, schema, m) == WirePrice && MemberField(fc, schema, m) == DoubleField(x)
    ensures IsNumber(x)
  {
    hide IsNumber, KeyOf, Magnitude;
  }

  /** The number a double is. */
  function Worth(x: Double): (v: real)
    requires IsNumber(x)
  {
    if x.neg then 0.0 - DoubleMagnitude(x) else DoubleMagnitude(x)
  }

  lemma WorthIsValue(x: Double)
    requires IsNumber(x)
    ensures SignedValue(x) == Worth(x)
  {
    hide DoubleMagnitude;
  }

  /** The frame of the order fired at `i`: read, accepted and acknowledged just before, and its own body carries the
      price. */
  ghost predicate PricedByItsFrame(fc: FromChars, log: seq<Event>, i: int)
    requires 0 <= i < |log| && log[i].Fired?
  {
    && i >= 1 && AckIndex(log, i) >= 2
    && var took, m := log[AckIndex(log, i) - 2], log[i].message;
      && took.Took? && DecodeWake(fc, took.body) == Good(m) && CarriesPrice(fc, took.body, m.wirePrice)
      && IsNumber(m.wirePrice) && 0.0 < Worth(m.wirePrice) < 1.0
  }

  /** The kill switch was asked, and not within the reach of a file that was there from `t0` to the end of the call. */
  ghost predicate PassedSwitch(g: Guard, t0: int, check: Option<Span>) {
    g.ttl.Some? ==>
      && check.Some?
      && (PresentDuring(g.file, t0, check.value.until) ==> check.value.now < HonouredFrom(g.ttl.value, t0))
  }

  /** Over every run: a real order comes from a frame whose own body carries a wire price strictly between 0 and 1;
      and a check during which, and for the time to live before which, the kill file was there lets none through. */
  lemma RealOrdersAreGuarded(fc: FromChars, g: Guard, recording: bool, runs: seq<seq<Served>>, i: int, t0: int)
    requires NumbersOnly(fc) && ValidRuns(fc, g, runs)
    requires var log := RunsLog(fc, recording, runs);
      0 <= i < |log| && log[i].Fired? && log[i].outcome.Dispatched? && !log[i].message.dryRun
    ensures PricedByItsFrame(fc, RunsLog(fc, recording, runs), i)
    ensures PassedSwitch(g, t0, RunsLog(fc, recording, runs)[i].outcome.check)
  {
    hide DecodeWake, RunsLog, ValidRuns, PresentDuring, Recent, CarriesPrice, SignedValue, Worth, IsNumber, NumbersOnly;
    var log := RunsLog(fc, recording, runs);
    FiresFollowAcks(fc, g, recording, runs);
    assert Justified(fc, g, recording, log, i);
    var m, check := log[i].message, log[i].outcome.check;
    var body := log[AckIndex(log, i) - 2].body;
    PriceIsCarried(fc, body, m);
    ZeroIsRefused();
    CarriedIsNumber(fc, body, m.wirePrice);
    WorthIsValue(m.wirePrice);
    assert DecodeWake(fc, body) == Good(m) && CarriesPrice(fc, body, m.wirePrice);
    if g.ttl.Some? && PresentDuring(g.file, t0, check.value.until) && check.value.now >= HonouredFrom(g.ttl.value, t0) {
      EngagedWithinTtl(g.file, g.ttl.value, t0, check.value, false);
    }
  }

  /** A frame of an older sender, without a wire price, is refused unless it is a dry run. */
  lemma UnpricedFramesAreRefused(fc: FromChars, g: Guard, body: bytes, m: WakeMessage, o: Outcome)
    requires DecodeWake(fc, body) == Good(m) && Decides(g, m, o) && !m.dryRun
    requires forall d :: IsRecord(fc, KeysOf(WAKE_ORDER), WAKE_REQUIRED, d) && PrintDocument(d) == body ==>
      !HasKey(fc, KeysOf(WAKE_ORDER), d.root.members, WirePrice)
    ensures o.RefusedPrice?
  {
    hide DecodeRecord, WakeOf, Assign, KindOf, TypedMembers, ValidDocument, PrintDocument, KeysOf, Recent, IsNumber;
    var schema := KeysOf(WAKE_ORDER);
    var d := RecordSound(fc, schema, WAKE_REQUIRED, body);
    RecordComplete(fc, schema, WAKE_REQUIRED, d);
    var env := Assign(fc, schema, d.root.members, map[]);
    PriceOfEnv(env);
    AssignKeys(fc, schema, d.root.members, map[], WirePrice);
    PriceNotInEnv(env);
    ZeroIsRefused();
  }

  // ------------------------------------------------------------- the peer's side

  /** The rejected frames leave room for the overhead of a rejection. */
  ghost predicate LeavesRoom(fc: FromChars, fs: seq<Served>) {
    forall i :: 0 <= i < |fs| && DecodeWake(fc, fs[i].body).Bad? ==>
      |fs[i].body| + REJECTION_OVERHEAD <= MAX_FRAME_BYTES
  }

  /** Accepted answers always fit; rejected ones do when the body left room. */
  lemma AnswerFits(fc: FromChars, g: Guard, f: Served)
    requires ValidServed(fc, g, f)
    ensures var n := |AckBody(AnswerTo(fc, f.body, f.startedAt))|;
      && (DecodeWake(fc, f.body).Good? ==> n < |f.body| <= MAX_FRAME_BYTES)
      && (DecodeWake(fc, f.body).Bad? && |f.body| + REJECTION_OVERHEAD <= MAX_FRAME_BYTES ==> n <= MAX_FRAME_BYTES)
  {
    hide DecodeWake, AckBody, Decides, Message;
    if DecodeWake(fc, f.body).Good? {
      AckShorterThanWake(fc, f.body, f.startedAt);
    } else {
      RejectionLength(fc, f.body, f.startedAt);
    }
  }

  /** The id of an accepted wake is text, so its ack can be decoded. */
  lemma IdIsText(fc: FromChars, body: bytes)
    requires DecodeWake(fc, body).Good?
    ensures Utf8.WellFormed(DecodeWake(fc, body).value.correlationId)
  {
    hide DecodeRecord, WakeOf, Assign, KindOf, TypedMembers, ValidDocument, PrintDocument, KeysOf, MemberKey, MemberField, Lookup, Utf8.WellFormed;
    var schema := KeysOf(WAKE_ORDER);
    var d := RecordSound(fc, schema, WAKE_REQUIRED, body);
    RecordComplete(fc, schema, WAKE_REQUIRED, d);
    var ms := d.root.members;
    var env := Assign(fc, schema, ms, map[]);
    assert HasKey(fc, schema, ms, WAKE_REQUIRED[1]);
    var i := LastExists(fc, schema, ms, CorrelationId);
    AssignLast(fc, schema, ms, map[], i);
    IdOfMember(fc, schema, ms, i);
    CorrelationOf(env);
  }

  lemma IdOfMember(fc: FromChars, schema: set<Key>, ms: seq<Member>, i: int)
    requires TypedMembers(fc, schema, ms) && 0 <= i < |ms| && MemberKey(fc, schema, ms[i]) == CorrelationId
    ensures MemberField(fc, schema, ms[i]).StringField? && Utf8.WellFormed(MemberField(fc, schema, ms[i]).s)
  {
    hide KeyOf, Utf8.WellFormed, ValidMember;
    assert TypedMember(fc, schema, ms[i]);
  }

  /** Every answer decodes, whatever `from_chars` does, to the fields the frame calls for. */
  lemma AnswerDecodes(fc: FromChars, body: bytes, startedAt: int)
    requires IsInt64(startedAt)
    ensures AnswersFrame(fc, AckBody(AnswerTo(fc, body, startedAt)), body, startedAt)
  {
    hide DecodeWake, DecodeAck, AckBody, Message, Utf8.WellFormed;
    if DecodeWake(fc, body).Good? {
      IdIsText(fc, body);
      AckRoundTrip(fc, AcceptedAck(DecodeWake(fc, body).value, startedAt));
    } else {
      RejectionDecodes(fc, body, startedAt);
    }
  }

  /** The peer that splits what it received finds one ack per frame it sent, in order, each decoding to the answer
      to that frame. */
  lemma PeerReadsAnswers(fc: FromChars, g: Guard, fs: seq<Served>, sent: bytes)
    requires ValidRun(fc, g, fs) && AllAcked(fs) && Delivered(fc, fs, sent) && LeavesRoom(fc, fs)
    ensures |FrameSplit(sent)| == |fs|
    ensures forall i :: 0 <= i < |fs| ==> AnswersFrame(fc, FrameSplit(sent)[i], fs[i].body, fs[i].startedAt)
  {
    hide DecodeWake, DecodeAck, AckBody, AnswerTo, FrameSplit, FrameJoin, ValidServed, AnswersFrame;
    var bodies := AckBodies(fc, fs);
    forall i | 0 <= i < |bodies|
      ensures |bodies[i]| <= MAX_FRAME_BYTES
    {
      AnswerFits(fc, g, fs[i]);
    }
    SplitJoin(bodies, []);
    assert sent + [] == sent && bodies + FrameSplit([]) == bodies by { SplitStuck([]); }
    forall i | 0 <= i < |fs|
      ensures AnswersFrame(fc, FrameSplit(sent)[i], fs[i].body, fs[i].startedAt)
    {
      ServedStamp(fc, g, fs[i]);
      AnswerDecodes(fc, fs[i].body, fs[i].startedAt);
    }
  }

  /** The ack body decodes to the answer to this frame, field by field. */
  ghost predicate AnswersFrame(fc: FromChars, ack: bytes, body: bytes, stamp: int) {
    var a, d := DecodeAck(fc, ack), DecodeWake(fc, body);
    && a.Good? && a.value.schemaVersion == 4 && a.value.receivedAtMs == stamp
    && (a.value.status == Accepted <==> d.Good?)
    && (d.Good? ==> a.value.correlationId == d.value.correlationId && a.value.reason == None)
    && (d.Bad? ==> a.value.correlationId == [] && a.value.reason == Some(Message(d.reason)))
  }

  lemma ServedStamp(fc: FromChars, g: Guard, f: Served)
    requires ValidServed(fc, g, f)
    ensures IsInt64(f.startedAt)
  {
    hide DecodeWake, Decides;
  }
}
