/** The recorder, the writer thread and `close()` of src/telemetry.cpp, interleaved at every step of the ring. */
module TelemetryRun {
  import opened Bytes
  import opened TelemetryStore
  import opened Telemetry
  import opened RingProtocol
  import RingIndex

  // ------------------------------------------------------------- rows as words

  datatype Word = IntWord(i: int) | RealWord(r: real) | ByteWord(b: byte) | StageWord(stage: Stage) | FlagWord(flag: bool)

  const HEADER_WORDS: nat := 6
  const ROW_WORDS: nat := 134

  /** The memory of a slot. */
  function RowWords(r: Telemetry.Row): (ws: seq<Word>)
    requires ValidRow(r)
    ensures |ws| == ROW_WORDS
  {
    Header(r) + Block(r.idBlock)
  }

  function Header(r: Telemetry.Row): (ws: seq<Word>)
    ensures |ws| == HEADER_WORDS
  {
    [IntWord(r.startedAtMs), IntWord(r.endedAtMs), RealWord(r.durationMs), ByteWord(r.idLength), StageWord(r.stage), FlagWord(r.dryRun)]
  }

  function Block(id: bytes): (ws: seq<Word>)
    ensures |ws| == |id| && forall i :: 0 <= i < |id| ==> ws[i] == ByteWord(id[i])
  {
    seq(|id|, i requires 0 <= i < |id| => ByteWord(id[i]))
  }

  function ByteOf(w: Word): (b: byte) {
    if w.ByteWord? then w.b else 0
  }

  /** The event a slot's memory stands for. */
  function EventIn(ws: seq<Word>): (e: LatencyEvent) {
    if |ws| != ROW_WORDS || !ws[0].IntWord? || !ws[1].IntWord? || !ws[2].RealWord? || !ws[4].StageWord? || !ws[5].FlagWord?
      || ByteOf(ws[3]) > MAX_CORRELATION_ID_BYTES
    then LatencyEvent([], DetectFire, 0, 0, 0.0, false)
    else LatencyEvent(IdIn(ws, ByteOf(ws[3])), ws[4].stage, ws[0].i, ws[1].i, ws[2].r, ws[5].flag)
  }

  function IdIn(ws: seq<Word>, n: nat): (id: bytes)
    requires |ws| == ROW_WORDS && n <= MAX_CORRELATION_ID_BYTES
  {
    seq<byte>(n, i requires 0 <= i < n => ByteOf(ws[HEADER_WORDS + i]))
  }

  /** Copying a row word by word and reading it back is what `insert` binds. */
  lemma WordsReadBack(r: Telemetry.Row)
    requires ValidRow(r)
    ensures EventIn(RowWords(r)) == EventOf(r)
  {
    hide Block;
    var ws, n := RowWords(r), r.idLength;
    forall i | 0 <= i < n
      ensures IdIn(ws, n)[i] == r.idBlock[i]
    {
      assert ws[HEADER_WORDS + i] == Block(r.idBlock)[i] == ByteWord(r.idBlock[i]);
      assert IdIn(ws, n)[i] == ByteOf(ws[HEADER_WORDS + i]);
    }
    assert IdIn(ws, n) == r.idBlock[..n];
  }

  /** The events of a list of slots. */
  function Events(xs: seq<seq<Word>>): (es: seq<LatencyEvent>)
    ensures |es| == |xs|
  {
    seq(|xs|, i requires 0 <= i < |xs| => EventIn(xs[i]))
  }

  lemma EventsJoin(xs: seq<seq<Word>>, ys: seq<seq<Word>>)
    ensures Events(xs + ys) == Events(xs) + Events(ys)
  {
    hide EventIn;
  }

  // -------------------------------------------------------------------- machine

  datatype Phase =
    | Loading                                              // about to load `stopping_`
    | Taking(draining: bool, batch: seq<seq<Word>>)        // popping into the batch
    | Writing(batch: seq<seq<Word>>)                       // in `write_batch`
    | Returned

  datatype System = System(
    ring: State<Word>,
    // `stopping_`: set by `close()`, together with how many pushes happen before that store.
    stop: Option<nat>,
    phase: Phase,
    sawStop: bool,
    // Every `record` call so far, and where those no longer queued went.
    calls: seq<LatencyEvent>, oversized: seq<LatencyEvent>, full: seq<LatencyEvent>,
    written: seq<LatencyEvent>, failed: seq<LatencyEvent>)

  datatype Move =
    | Call(event: LatencyEvent)                     // `record`, up to the choice of branch
    | Producer(action: Action<Word>)                // the rest of `try_push`
    | Close(before: nat)                            // `close` stores the flag
    | LoadStop(value: bool)
    | Consumer(action: Action<Word>)                // `try_pop`
    | Full                                          // the batch has no room left
    | Write(kept: seq<bool>)                        // `write_batch`, with whatever SQLite accepts

  predicate IsPush(a: Action<Word>) { a.PushReload? || a.PushWord? || a.PushPublish? }
  predicate IsPop(a: Action<Word>) { a.PopStart? || a.PopReload? || a.PopWord? || a.PopPublish? }

  predicate CanMove(s: System, m: Move) {
    match m
    case Call(e) => Started(s.ring) && s.ring.producer.PIdle? && s.ring.width == ROW_WORDS
    case Producer(a) => IsPush(a) && Enabled(s.ring, a)
    case Close(before) => s.stop.None? && before <= |s.ring.pushed|
    case LoadStop(value) => s.phase.Loading? && (value ==> s.stop.Some?) && (s.sawStop ==> value)
    case Consumer(a) =>
      s.phase.Taking? && IsPop(a) && Enabled(s.ring, a) && (a.PopStart? ==> |s.phase.batch| < MAX_BATCH_ROWS)
    case Full => s.phase.Taking? && s.ring.consumer.CIdle? && |s.phase.batch| >= MAX_BATCH_ROWS
    case Write(kept) => s.phase.Writing? && |kept| == |s.phase.batch|
  }

  /** After the inner loop: write, sleep, or return when the flag was set before the drain. */
  function AfterTaking(draining: bool, batch: seq<seq<Word>>): (p: Phase) {
    if batch != [] then Writing(batch) else if draining then Returned else Loading
  }

  /** An acquire that reads the flag set also learns of every push before the store. */
  function Learned(ring: State<Word>, before: nat): (r: State<Word>) {
    if ring.headSeen < before then ring.(headSeen := before) else ring
  }

  function Next(s: System, m: Move): (t: System)
    requires CanMove(s, m)
  {
    match m
    case Call(e) =>
      if |e.correlationId| > MAX_CORRELATION_ID_BYTES then s.(calls := s.calls + [e], oversized := s.oversized + [e])
      else s.(calls := s.calls + [e], ring := Apply(s.ring, PushStart(RowWords(PackRow(e)))))
    case Producer(a) =>
      var t := s.(ring := Apply(s.ring, a));
      if Observed(s.ring, a).PushRefused? then t.(full := s.full + Events(InPush(s.ring))) else t
    case Close(before) => s.(stop := Some(before))
    case LoadStop(value) =>
      s.(phase := Taking(value, []), sawStop := value, ring := if value then Learned(s.ring, s.stop.value) else s.ring)
    case Consumer(a) =>
      var t := s.(ring := Apply(s.ring, a));
      var e := Observed(s.ring, a);
      if e.Popped? then t.(phase := Taking(s.phase.draining, s.phase.batch + [e.row]))
      else if e.PopRefused? then t.(phase := AfterTaking(s.phase.draining, s.phase.batch))
      else t
    case Full => s.(phase := AfterTaking(s.phase.draining, s.phase.batch))
    case Write(kept) =>
      var es := Events(s.phase.batch);
      s.(phase := Loading, written := s.written + Marked(es, kept), failed := s.failed + Marked(es, Opposite(kept)))
  }

  /** The row a push has in hand. */
  function InPush(ring: State<Word>): (xs: seq<seq<Word>>) {
    match ring.producer
    case PIdle => []
    case PReload(row) => [row]
    case PWrite(row, _) => [row]
  }

  function InBatch(p: Phase): (xs: seq<seq<Word>>) {
    match p
    case Taking(_, batch) => batch
    case Writing(batch) => batch
    case _ => []
  }

  ghost predicate Start(s: System) {
    && Init(s.ring) && s.ring.width == ROW_WORDS && s.stop.None? && s.phase.Loading? && !s.sawStop
    && s.calls == [] && s.oversized == [] && s.full == [] && s.written == [] && s.failed == []
  }

  // ------------------------------------------------------------------ invariant

  /** The rows between a `record` call and `write_batch`, oldest first. */
  function Pipeline(s: System): (xs: seq<seq<Word>>)
    requires |s.ring.popped| <= |s.ring.pushed|
  {
    InBatch(s.phase) + Queue(s.ring) + InPush(s.ring)
  }

  /** The calls that are over. */
  function Settled(s: System): (es: multiset<LatencyEvent>) {
    multiset(s.oversized) + multiset(s.full) + multiset(s.written) + multiset(s.failed)
  }

  /** Each call was dropped for its id, dropped for lack of room, written or failed to be written, or is still on its
      way, and is in one of these only. */
  ghost predicate Conserved(s: System) {
    |s.ring.popped| <= |s.ring.pushed| && multiset(s.calls) == Settled(s) + multiset(Events(Pipeline(s)))
  }

  predicate StopKnown(s: System) {
    && (s.stop.Some? ==> s.stop.value <= |s.ring.pushed|)
    && (s.sawStop ==> s.stop.Some? && s.stop.value <= s.ring.headSeen)
    && (s.phase.Taking? ==> s.phase.draining == s.sawStop)
    && (s.phase.Returned? ==> s.sawStop && s.stop.value <= |s.ring.popped|)
  }

  predicate InStep(s: System) {
    && s.ring.width == ROW_WORDS
    && (!s.ring.consumer.CIdle? ==> s.phase.Taking? && |s.phase.batch| < MAX_BATCH_ROWS)
    && |InBatch(s.phase)| <= MAX_BATCH_ROWS && (s.phase.Writing? ==> s.phase.batch != [])
  }

  ghost predicate Sound(s: System) {
    Inv(s.ring) && Conserved(s) && StopKnown(s) && InStep(s)
  }

  lemma StartSound(s: System)
    requires Start(s)
    ensures Sound(s)
  {
    hide RingIndex.IsCapacity, Stored, RingIndex.Slot, EventIn;
    InitHolds(s.ring);
    assert Pipeline(s) == [];
  }

  // ------------------------------------------------------------ every step

  lemma SingleEvent(ws: seq<Word>)
    ensures Events([ws]) == [EventIn(ws)] && Events([]) == []
  {
    hide EventIn;
  }

  /** What the steps of `try_push` change. */
  lemma PushEffect(ring: State<Word>, a: Action<Word>)
    requires Enabled(ring, a) && (IsPush(a) || a.PushStart?)
    ensures var t := Apply(ring, a);
      && t.popped == ring.popped && t.headSeen == ring.headSeen && t.consumer == ring.consumer && t.width == ring.width
      && t.pushed == ring.pushed + (if a.PushPublish? then InPush(ring) else [])
      && InPush(t) == (if a.PushStart? then [a.row] else if a.PushPublish? || Observed(ring, a).PushRefused? then [] else InPush(ring))
      && (a.PushPublish? ==> !Observed(ring, a).PushRefused?)
  {
    hide ShowsFull, RingIndex.BitAnd;
  }

  /** What the steps of `try_pop` change. */
  lemma PopEffect(ring: State<Word>, a: Action<Word>)
    requires Inv(ring) && Enabled(ring, a) && IsPop(a)
    ensures var t, e := Apply(ring, a), Observed(ring, a);
      && t.pushed == ring.pushed && t.producer == ring.producer && t.width == ring.width && t.headSeen >= ring.headSeen
      && (e.Popped? <==> a.PopPublish?) && (e.Popped? ==> t.popped == ring.popped + [e.row])
      && (!e.Popped? ==> t.popped == ring.popped)
      && (e.Popped? ==> |ring.popped| < |ring.pushed| && e.row == ring.pushed[|ring.popped|])
      && (e.PopRefused? ==> |ring.popped| == t.headSeen)
      && (t.consumer.CIdle? <==> e.Popped? || e.PopRefused?)
  {
    hide RingIndex.BitAnd, RingIndex.Wrap, RingIndex.WrapSub, Stored, Shaped;
    RefusalShows(ring, a);
    if a.PopPublish? {
      OldestRow(ring);
    }
  }

  lemma CallConserved(s: System, m: Move)
    requires Sound(s) && CanMove(s, m) && m.Call?
    ensures Conserved(Next(s, m))
  {
    hide Inv, RowWords, EventIn, PackRow, Apply, Events, Settled;
    var e, t := m.event, Next(s, m);
    var way := multiset(Events(Pipeline(s)));
    assert multiset(t.calls) == multiset(s.calls) + multiset{e};
    OneMore(Settled(s), way, e);
    if |e.correlationId| > MAX_CORRELATION_ID_BYTES {
      assert Pipeline(t) == Pipeline(s);
      assert Settled(t) == Settled(s) + multiset{e} by { OversizedSettled(s, t, e); }
    } else {
      var ws := RowWords(PackRow(e));
      PackedEvent(e);
      WordsReadBack(PackRow(e));
      PushEffect(s.ring, PushStart(ws));
      assert Pipeline(t) == Pipeline(s) + [ws];
      EventsJoin(Pipeline(s), [ws]);
      SingleEvent(ws);
      SameSettled(s, t);
    }
  }

  lemma SameSettled(s: System, t: System)
    requires t.oversized == s.oversized && t.full == s.full && t.written == s.written && t.failed == s.failed
    ensures Settled(t) == Settled(s)
  {
  }

  lemma OneMore(a: multiset<LatencyEvent>, b: multiset<LatencyEvent>, e: LatencyEvent)
    ensures a + b + multiset{e} == a + (b + multiset{e}) == (a + multiset{e}) + b
  {
  }

  lemma OversizedSettled(s: System, t: System, e: LatencyEvent)
    requires t.oversized == s.oversized + [e] && t.full == s.full && t.written == s.written && t.failed == s.failed
    ensures Settled(t) == Settled(s) + multiset{e}
  {
    var a, b, c, d := multiset(s.oversized), multiset(s.full), multiset(s.written), multiset(s.failed);
    assert a + multiset{e} + b + c + d == a + b + c + d + multiset{e};
  }

  lemma BatchSettled(s: System, t: System, w: seq<LatencyEvent>, f: seq<LatencyEvent>)
    requires t.written == s.written + w && t.failed == s.failed + f && t.full == s.full && t.oversized == s.oversized
    ensures Settled(t) == Settled(s) + (multiset(w) + multiset(f))
  {
    var a, b, c, d := multiset(s.oversized), multiset(s.full), multiset(s.written), multiset(s.failed);
    assert multiset(t.written) == c + multiset(w) && multiset(t.failed) == d + multiset(f);
    assert a + b + (c + multiset(w)) + (d + multiset(f)) == a + b + c + d + (multiset(w) + multiset(f));
  }

  lemma CallSound(s: System, m: Move)
    requires Sound(s) && CanMove(s, m) && m.Call?
    ensures Sound(Next(s, m))
  {
    hide Inv, RowWords, PackRow, Apply, Conserved;
    CallConserved(s, m);
    if |m.event.correlationId| <= MAX_CORRELATION_ID_BYTES {
      var ws := RowWords(PackRow(m.event));
      StepHolds(s.ring, PushStart(ws));
      PushEffect(s.ring, PushStart(ws));
    }
  }

  lemma ProducerConserved(s: System, m: Move)
    requires Sound(s) && CanMove(s, m) && m.Producer?
    ensures Conserved(Next(s, m))
  {
    hide Inv, EventIn, Apply, Observed, Enabled, Events;
    var t := Next(s, m);
    PushEffect(s.ring, m.action);
    if Observed(s.ring, m.action).PushRefused? {
      assert Pipeline(s) == Pipeline(t) + InPush(s.ring);
      EventsJoin(Pipeline(t), InPush(s.ring));
      assert multiset(t.full) == multiset(s.full) + multiset(Events(InPush(s.ring)));
    } else {
      assert Pipeline(t) == Pipeline(s);
    }
  }

  lemma ProducerSound(s: System, m: Move)
    requires Sound(s) && CanMove(s, m) && m.Producer?
    ensures Sound(Next(s, m))
  {
    hide Inv, Apply, Observed, Enabled, Events, Conserved;
    ProducerConserved(s, m);
    StepHolds(s.ring, m.action);
    PushEffect(s.ring, m.action);
  }

  lemma QueueShape(ring: State<Word>)
    requires Inv(ring)
    ensures |ring.popped| <= ring.headSeen <= |ring.pushed|
  {
  }

  lemma ConsumerConserved(s: System, m: Move)
    requires Sound(s) && CanMove(s, m) && m.Consumer?
    ensures Conserved(Next(s, m))
  {
    hide Inv, Apply, Observed, Enabled, Events;
    var a, t := m.action, Next(s, m);
    PopEffect(s.ring, a);
    assert Pipeline(t) == Pipeline(s) by {
      if a.PopPublish? {
        assert Queue(s.ring) == [Observed(s.ring, a).row] + Queue(t.ring);
      }
    }
  }

  lemma ConsumerSound(s: System, m: Move)
    requires Sound(s) && CanMove(s, m) && m.Consumer?
    ensures Sound(Next(s, m))
  {
    hide Inv, Apply, Observed, Events, Conserved;
    ConsumerConserved(s, m);
    StepHolds(s.ring, m.action);
    QueueShape(s.ring);
    PopEffect(s.ring, m.action);
  }

  /** A pop publishes the oldest row. */
  lemma OldestRow(ring: State<Word>)
    requires Inv(ring) && Enabled(ring, PopPublish)
    ensures |ring.popped| < |ring.pushed| && ring.consumer.got == ring.pushed[|ring.popped|]
  {
    var row := ring.pushed[|ring.popped|];
    assert row[..ring.width] == row;
  }

  lemma WriteSound(s: System, m: Move)
    requires Sound(s) && CanMove(s, m) && m.Write?
    ensures Sound(Next(s, m))
  {
    hide Inv, Marked, Opposite, EventIn, Events, Settled;
    var t, es := Next(s, m), Events(s.phase.batch);
    assert Pipeline(s) == s.phase.batch + Pipeline(t);
    EventsJoin(s.phase.batch, Pipeline(t));
    MarkedPartition(es, m.kept);
    BatchSettled(s, t, Marked(es, m.kept), Marked(es, Opposite(m.kept)));
  }

  lemma FlagSound(s: System, m: Move)
    requires Sound(s) && CanMove(s, m) && (m.Close? || m.LoadStop? || m.Full?)
    ensures Sound(Next(s, m))
  {
    hide Inv, EventIn, Events;
    QueueShape(s.ring);
    assert Pipeline(Next(s, m)) == Pipeline(s);
    assert Inv(Next(s, m).ring) by {
      if m == LoadStop(true) { LearnedHolds(s.ring, s.stop.value); }
    }
  }

  lemma LearnedHolds(ring: State<Word>, before: nat)
    requires Inv(ring) && before <= |ring.pushed|
    ensures Inv(Learned(ring, before))
  {
    hide Inv;
    Words(ring);
    if ring.headSeen < before {
      LearnEnabled(ring, before);
      StepHolds(ring, LearnHead(before));
    }
  }

  lemma LearnEnabled(ring: State<Word>, before: nat)
    requires Inv(ring) && ring.headSeen <= before <= |ring.pushed|
    ensures Enabled(ring, LearnHead(before))
  {
  }

  lemma MoveSound(s: System, m: Move)
    requires Sound(s) && CanMove(s, m)
    ensures Sound(Next(s, m))
  {
    hide Sound, CanMove, Next;
    match m
    case Call(e) => CallSound(s, m);
    case Producer(a) => ProducerSound(s, m);
    case Consumer(a) => ConsumerSound(s, m);
    case Write(kept) => WriteSound(s, m);
    case Close(before) => FlagSound(s, m);
    case LoadStop(value) => FlagSound(s, m);
    case Full => FlagSound(s, m);
  }

  // ----------------------------------------------------------------- whole runs

  ghost predicate Moves(s: System, moves: seq<Move>, t: System)
    decreases |moves|
  {
    if moves == [] then s == t else CanMove(s, moves[0]) && Moves(Next(s, moves[0]), moves[1..], t)
  }

  lemma {:induction false} MovesSound(s: System, moves: seq<Move>, t: System)
    requires Sound(s) && Moves(s, moves, t)
    ensures Sound(t)
    decreases |moves|
  {
    hide Sound, CanMove, Next;
    if moves != [] {
      MoveSound(s, moves[0]);
      MovesSound(Next(s, moves[0]), moves[1..], t);
    }
  }

  /** Over every run: nothing is lost or counted twice, and the writer returns only after every push that happens
      before the stop has been taken out of the ring. */
  lemma RunAccountsForEveryCall(s: System, moves: seq<Move>, t: System)
    requires Start(s) && Moves(s, moves, t)
    ensures |t.ring.popped| <= |t.ring.pushed|
    ensures multiset(t.calls) == Settled(t) + multiset(Events(Pipeline(t)))
    ensures |t.calls| == |t.oversized| + |t.full| + |t.written| + |t.failed| + |Pipeline(t)|
    ensures t.phase.Returned? ==> t.stop.Some? && t.stop.value <= |t.ring.popped|
    ensures t.phase.Returned? && t.stop.value == |t.ring.pushed| ==> Queue(t.ring) == [] && Pipeline(t) == InPush(t.ring)
  {
    hide Moves, Inv, EventIn;
    StartSound(s);
    MovesSound(s, moves, t);
    assert |multiset(t.calls)| == |t.calls|;
    QueueShape(t.ring);
  }

  // ---------------------------------------------------------------- termination

  /** The moves of the writer thread. */
  predicate IsWriterMove(m: Move) {
    m.LoadStop? || m.Consumer? || m.Full? || m.Write?
  }

  /** The writer has read the flag as set, and no push came after the store. */
  ghost predicate Draining(s: System) {
    Sound(s) && s.sawStop && s.stop == Some(|s.ring.pushed|) && s.ring.producer.PIdle?
  }

  function PopRank(c: Consumer<Word>): (n: nat)
    ensures n <= ROW_WORDS + 3
  {
    match c
    case CIdle => ROW_WORDS + 3
    case CReload => ROW_WORDS + 2
    case CRead(got) => if |got| > ROW_WORDS then 1 else ROW_WORDS + 1 - |got|
  }

  function PhaseRank(s: System): (n: nat)
    ensures n < 2 * ROW_WORDS + 10
  {
    match s.phase
    case Returned => 0
    case Taking(_, batch) => PopRank(s.ring.consumer) + (if batch == [] then 0 else ROW_WORDS + 6)
    case Loading => ROW_WORDS + 4
    case Writing(_) => ROW_WORDS + 5
  }

  /** The occupancy of the ring first, then how far the writer is within a pass. */
  function DrainRank(s: System): (n: nat)
    requires |s.ring.popped| <= |s.ring.pushed|
  {
    |Queue(s.ring)| * (2 * ROW_WORDS + 10) + PhaseRank(s)
  }

  lemma DrainConsumer(s: System, m: Move)
    requires Draining(s) && CanMove(s, m) && m.Consumer?
    ensures Draining(Next(s, m))
    ensures |Next(s, m).ring.popped| <= |Next(s, m).ring.pushed| && |s.ring.popped| <= |s.ring.pushed|
    ensures DrainRank(Next(s, m)) < DrainRank(s)
  {
    hide Inv, Conserved, Observed, Apply;
    var t := Next(s, m);
    ConsumerSound(s, m);
    QueueShape(s.ring);
    QueueShape(t.ring);
    PopEffect(s.ring, m.action);
    PopProgress(s.ring, m.action);
  }

  /** Each step of `try_pop` is nearer its end. */
  lemma PopProgress(ring: State<Word>, a: Action<Word>)
    requires Inv(ring) && Enabled(ring, a) && IsPop(a) && ring.width == ROW_WORDS
    ensures !Apply(ring, a).consumer.CIdle? ==> PopRank(Apply(ring, a).consumer) < PopRank(ring.consumer)
    ensures PopRank(ring.consumer) >= 1
    ensures Observed(ring, a).Popped? || Observed(ring, a).PopRefused? <==> Apply(ring, a).consumer.CIdle?
  {
    hide Stored, Shaped, Fifo, Counting, RingIndex.BitAnd, RingIndex.Wrap, RingIndex.WrapSub;
  }

  lemma DrainOther(s: System, m: Move)
    requires Draining(s) && CanMove(s, m) && (m.LoadStop? || m.Full? || m.Write?)
    ensures Draining(Next(s, m))
    ensures |Next(s, m).ring.popped| <= |Next(s, m).ring.pushed| && |s.ring.popped| <= |s.ring.pushed|
    ensures DrainRank(Next(s, m)) < DrainRank(s)
  {
    hide Inv, Conserved;
    MoveSound(s, m);
    QueueShape(s.ring);
    if !s.phase.Taking? {
      IdleUnlessTaking(s);
    }
  }

  lemma IdleUnlessTaking(s: System)
    requires Sound(s) && !s.phase.Taking?
    ensures s.ring.consumer.CIdle?
  {
    hide Inv, Conserved;
  }

  /** Every move of the writer brings the end of the drain nearer. */
  lemma DrainDecreases(s: System, m: Move)
    requires Draining(s) && CanMove(s, m) && IsWriterMove(m)
    ensures Draining(Next(s, m))
    ensures |Next(s, m).ring.popped| <= |Next(s, m).ring.pushed| && |s.ring.popped| <= |s.ring.pushed|
    ensures DrainRank(Next(s, m)) < DrainRank(s)
  {
    hide Draining, CanMove, Next, DrainRank;
    if m.Consumer? {
      DrainConsumer(s, m);
    } else {
      DrainOther(s, m);
    }
  }

  /** Until it returns, the writer always has a move. */
  lemma WriterCanMove(s: System) returns (m: Move)
    requires Draining(s) && !s.phase.Returned?
    ensures IsWriterMove(m) && CanMove(s, m)
  {
    hide Conserved, Stored, RingIndex.BitAnd, RingIndex.Wrap, RingIndex.Slot;
    Words(s.ring);
    match s.phase
    case Loading => m := LoadStop(true);
    case Writing(batch) => m := Write(seq(|batch|, _ => true));
    case Taking(_, batch) =>
      if s.ring.consumer.CIdle? && |batch| >= MAX_BATCH_ROWS {
        m := Full;
      } else {
        m := Consumer(match s.ring.consumer
          case CIdle => PopStart
          case CReload => PopReload(|s.ring.pushed|)
          case CRead(got) => if |got| < s.ring.width then PopWord else PopPublish);
      }
  }

  ghost predicate WriterMoves(moves: seq<Move>) {
    forall i :: 0 <= i < |moves| ==> IsWriterMove(moves[i])
  }

  /** The drain terminates: no run of the writer is longer than the rank, and one that cannot go on has returned
      with the ring empty. */
  lemma {:induction false} DrainTerminates(s: System, moves: seq<Move>, t: System)
    requires Draining(s) && WriterMoves(moves) && Moves(s, moves, t)
    ensures Draining(t) && |s.ring.popped| <= |s.ring.pushed| && |t.ring.popped| <= |t.ring.pushed|
    ensures |moves| + DrainRank(t) <= DrainRank(s)
    ensures (forall m :: IsWriterMove(m) ==> !CanMove(t, m)) ==> t.phase.Returned?
    ensures t.phase.Returned? ==> Queue(t.ring) == [] && Pipeline(t) == []
    decreases |moves|
  {
    hide CanMove, Next, DrainRank, IsWriterMove, Inv, Conserved;
    QueueShape(s.ring);
    if moves == [] {
      if !t.phase.Returned? {
        var m := WriterCanMove(t);
      }
    } else {
      DrainDecreases(s, moves[0]);
      assert forall i :: 0 <= i < |moves[1..]| ==> moves[1..][i] == moves[i + 1];
      DrainTerminates(Next(s, moves[0]), moves[1..], t);
    }
  }
}
