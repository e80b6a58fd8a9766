/** The fire decision of src/executor.cpp, and what a served connection leaves behind. */
module Firing {
  import opened Bytes
  import opened Errors
  import opened JsonNumbers
  import opened WireKeys
  import opened Wire
  import opened WireText
  import opened WireRoundTrip
  import opened WireLengths
  import opened KillSwitch
  import opened Frames
  import Pricing

  // ------------------------------------------------------------------ prices

  function SignedValue(x: Double): (v: real)
    requires IsNumber(x)
  {
    if x.neg then -DoubleMagnitude(x) else DoubleMagnitude(x)
  }

  /** Not `x <= 0.0 || x >= 1.0`, where comparing a NaN is false. */
  predicate GuardPasses(x: Double) {
    if IsNumber(x) then 0.0 < SignedValue(x) < 1.0 else x.NaN?
  }

  predicate NumericRange(r: PriceRange) {
    IsNumber(r.start) && IsNumber(r.end) && IsNumber(r.step)
  }

  predicate Numeric(rs: seq<PriceRange>) {
    forall i :: 0 <= i < |rs| ==> NumericRange(rs[i])
  }

  function GridOf(rs: seq<PriceRange>): (grid: seq<Pricing.Range>)
    requires Numeric(rs)
    ensures |grid| == |rs|
  {
    seq(|rs|, i requires 0 <= i < |rs| =>
      Pricing.Range(SignedValue(rs[i].start), SignedValue(rs[i].end), SignedValue(rs[i].step)))
  }

  /** The price that goes on the order; none when a non-number is involved. */
  function WirePriceOf(m: WakeMessage): (p: Option<real>) {
    if IsNumber(m.wirePrice) && Numeric(m.priceRanges)
    then Some(Pricing.SnapToGrid(SignedValue(m.wirePrice), GridOf(m.priceRanges)))
    else None
  }

  // ----------------------------------------------------------------- outcomes

  datatype Template = Template(ticker: bytes, side: Direction)

  datatype Request = Request(
    order: Template, price: Option<real>, exchangeIndex: int, correlationId: bytes, correlationGroup: bytes, dryRun: bool)

  function RequestFor(m: WakeMessage): (r: Request) {
    Request(Template(m.marketTicker, m.direction), WirePriceOf(m), m.exchangeIndex, m.correlationId, m.correlationGroup, m.dryRun)
  }

  /** `check` is the call of the kill switch, if there was one. */
  datatype Outcome = Dispatched(request: Request, check: Option<Span>) | RefusedPrice | RefusedKillSwitch(call: Span)

  /** The kill switch the server was configured with, and the file behind it. */
  datatype Guard = Guard(ttl: Option<int>, file: int -> Look)

  /** What `handle_fire` may decide. */
  ghost predicate Decides(g: Guard, m: WakeMessage, o: Outcome) {
    match o
    case RefusedPrice => !m.dryRun && !GuardPasses(m.wirePrice)
    case RefusedKillSwitch(call) =>
      !m.dryRun && GuardPasses(m.wirePrice) && g.ttl.Some? && Recent(g.file, g.ttl.value, call, true)
    case Dispatched(request, check) =>
      && request == RequestFor(m) && (m.dryRun ==> check.None?)
      && (!m.dryRun ==> GuardPasses(m.wirePrice) && (check.Some? <==> g.ttl.Some?))
      && (check.Some? && g.ttl.Some? ==> Recent(g.file, g.ttl.value, check.value, false))
  }

  // ------------------------------------------------------------- the event log

  datatype Event =
    | Took(body: bytes)                                   // a whole frame was read
    | Answered(ack: WakeAck)                              // the ack was encoded and counted
    | Acked | AckFailed                                   // every byte of it was sent, or the send failed
    | Recorded(correlationId: bytes, dryRun: bool)        // the `wake_recv` record
    | Fired(message: WakeMessage, outcome: Outcome)

  datatype Stats = Stats(
    framesRead: nat, acksAccepted: nat, acksRejected: nat, dispatched: nat, refusedPrice: nat, refusedKillSwitch: nat)

  const ZERO_STATS: Stats := Stats(0, 0, 0, 0, 0, 0)

  /** What one event adds to the counters. */
  function Bump(s: Stats, e: Event): (t: Stats) {
    match e
    case Took(_) => s.(framesRead := s.framesRead + 1)
    case Answered(ack) =>
      if ack.status.Accepted? then s.(acksAccepted := s.acksAccepted + 1) else s.(acksRejected := s.acksRejected + 1)
    case Fired(_, o) => (
      match o
      case Dispatched(_, _) => s.(dispatched := s.dispatched + 1)
      case RefusedPrice => s.(refusedPrice := s.refusedPrice + 1)
      case RefusedKillSwitch(_) => s.(refusedKillSwitch := s.refusedKillSwitch + 1))
    case _ => s
  }

  function Tally(log: seq<Event>): (s: Stats) {
    if log == [] then ZERO_STATS else Bump(Tally(log[..|log| - 1]), log[|log| - 1])
  }

  lemma TallyStep(log: seq<Event>, e: Event)
    ensures Tally(log + [e]) == Bump(Tally(log), e)
  {
    hide Bump;
    assert (log + [e])[..|log|] == log;
  }

  // ------------------------------------------------------------ served frames

  /** One frame: its body, when it was stamped, whether its ack went out, and what became of it. */
  datatype Served = Served(body: bytes, startedAt: int, acked: bool, outcome: Option<Outcome>)

  ghost function AnswerTo(fc: FromChars, body: bytes, startedAt: int): (a: WakeAck) {
    var d := DecodeWake(fc, body);
    if d.Good? then AcceptedAck(d.value, startedAt) else RejectedAck(d.reason, startedAt)
  }

  /** Read, answer, send, then record and fire what was accepted. */
  ghost function EventsOf(fc: FromChars, recording: bool, f: Served): (es: seq<Event>) {
    var d := DecodeWake(fc, f.body);
    [Took(f.body), Answered(AnswerTo(fc, f.body, f.startedAt))] + (
      if !f.acked then [AckFailed]
      else if d.Bad? || f.outcome.None? then [Acked]
      else [Acked] + (if recording then [Recorded(d.value.correlationId, d.value.dryRun)] else []) + [Fired(d.value, f.outcome.value)])
  }

  ghost predicate ValidServed(fc: FromChars, g: Guard, f: Served) {
    var d := DecodeWake(fc, f.body);
    && IsInt64(f.startedAt) && |f.body| <= MAX_FRAME_BYTES
    && (f.outcome.Some? <==> f.acked && d.Good?)
    && (f.outcome.Some? ==> Decides(g, d.value, f.outcome.value))
  }

  /** A connection goes on only as long as its acks go out. */
  ghost predicate ValidRun(fc: FromChars, g: Guard, fs: seq<Served>) {
    && (forall i :: 0 <= i < |fs| ==> ValidServed(fc, g, fs[i]))
    && (forall i :: 0 <= i < |fs| - 1 ==> fs[i].acked)
  }

  ghost function LogOf(fc: FromChars, recording: bool, fs: seq<Served>): (es: seq<Event>) {
    if fs == [] then [] else LogOf(fc, recording, fs[..|fs| - 1]) + EventsOf(fc, recording, fs[|fs| - 1])
  }

  function BodiesOf(fs: seq<Served>): (bs: seq<bytes>)
    ensures |bs| == |fs|
  {
    seq(|fs|, i requires 0 <= i < |fs| => fs[i].body)
  }

  ghost function AckBodies(fc: FromChars, fs: seq<Served>): (bs: seq<bytes>)
    ensures |bs| == |fs|
  {
    seq(|fs|, i requires 0 <= i < |fs| => AckBody(AnswerTo(fc, fs[i].body, fs[i].startedAt)))
  }

  /** The log of one connection after another. */
  ghost function RunsLog(fc: FromChars, recording: bool, runs: seq<seq<Served>>): (es: seq<Event>) {
    if runs == [] then [] else RunsLog(fc, recording, runs[..|runs| - 1]) + LogOf(fc, recording, runs[|runs| - 1])
  }

  lemma RunsStep(fc: FromChars, recording: bool, runs: seq<seq<Served>>, fs: seq<Served>)
    ensures RunsLog(fc, recording, runs + [fs]) == RunsLog(fc, recording, runs) + LogOf(fc, recording, fs)
  {
    hide LogOf;
    assert (runs + [fs])[..|runs|] == runs;
  }

  lemma LogStep(fc: FromChars, recording: bool, fs: seq<Served>, f: Served)
    ensures LogOf(fc, recording, fs + [f]) == LogOf(fc, recording, fs) + EventsOf(fc, recording, f)
  {
    hide EventsOf;
    assert (fs + [f])[..|fs|] == fs;
  }
}

/** `handle_fire`, `serve_connection` and `serve_forever` of src/executor.cpp. */
module Executor {
  import opened Bytes
  import opened Errors
  import opened JsonNumbers
  import opened JsonWriter
  import opened WireKeys
  import opened Wire
  import opened WireText
  import opened WireRoundTrip
  import opened WireLengths
  import opened Codec
  import opened KillSwitch
  import opened Frames
  import opened Sockets
  import opened Firing
  import opened Accounts
  import Pricing

  class Server {
    const fc: FromChars
    const world: World
    const killSwitch: Switch?
    const stop: StopFlag
    const recording: bool
    const ack: Buffer
    var stats: Stats
    var templates: map<bytes, seq<Template>>
    ghost var log: seq<Event>

    ghost function TheGuard(): (g: Guard) {
      Guard(if killSwitch == null then None else Some(killSwitch.ttl), world.file)
    }

    ghost predicate Valid()
      reads this, killSwitch, world
    {
      && world.Valid() && (killSwitch != null ==> killSwitch.Valid(world))
      && stats == Tally(log)
      && forall t :: t in templates ==> templates[t] == [Template(t, Yes), Template(t, No)]
    }

    constructor (fc: FromChars, world: World, killSwitch: Switch?, stop: StopFlag, recording: bool)
      requires world.Valid() && (killSwitch != null ==> killSwitch.Valid(world))
      ensures Valid() && stats == ZERO_STATS && log == [] && fresh(ack)
    {
      this.fc, this.world, this.killSwitch, this.stop, this.recording := fc, world, killSwitch, stop, recording;
      ack := new Buffer();
      stats, templates, log := ZERO_STATS, map[], [];
    }

    /** The find-or-insert map of order templates. */
    method Acquire(ticker: bytes, side: Direction) returns (order: Template)
      requires Valid()
      modifies this`templates
      ensures Valid() && order == Template(ticker, side)
    {
      if ticker !in templates {
        templates := templates[ticker := [Template(ticker, Yes), Template(ticker, No)]];
      }
      order := templates[ticker][if side.Yes? then 0 else 1];
    }

    method Note(e: Event)
      requires Valid()
      modifies this`stats, this`log
      ensures Valid() && log == old(log) + [e] && stats == Bump(old(stats), e)
    {
      hide Bump, Tally;
      TallyStep(log, e);
      stats, log := Bump(stats, e), log + [e];
    }

    /** `handle_fire`. */
    method HandleFire(m: WakeMessage) returns (o: Outcome)
      requires Valid()
      modifies this`stats, this`log, this`templates, world, killSwitch
      ensures Valid() && Decides(TheGuard(), m, o) && log == old(log) + [Fired(m, o)]
      ensures stats == match o {
        case Dispatched(_, _) => old(stats).(dispatched := old(stats).dispatched + 1)
        case RefusedPrice => old(stats).(refusedPrice := old(stats).refusedPrice + 1)
        case RefusedKillSwitch(_) => old(stats).(refusedKillSwitch := old(stats).refusedKillSwitch + 1)
      }
      ensures world.elapsed >= old(world.elapsed) && (o.RefusedPrice? ==> world.elapsed == old(world.elapsed))
      ensures var check := if o.Dispatched? then o.check else if o.RefusedPrice? then None else Some(o.call);
        check.Some? ==>
          && world.elapsed > old(world.elapsed)
          && check.value == Span(world.ticks(old(world.elapsed)), world.ticks(world.elapsed - 1))
    {
      hide Tally, IsNumber, Recent, WirePriceOf;
      if !m.dryRun && !GuardPasses(m.wirePrice) {
        Note(Fired(m, RefusedPrice));
        return RefusedPrice;
      }
      var price := WirePriceOf(m);
      var check: Option<Span> := None;
      if !m.dryRun && killSwitch != null {
        var engaged, call := killSwitch.IsEngaged(world);
        if engaged {
          o := RefusedKillSwitch(call);
          Note(Fired(m, o));
          return;
        }
        check := Some(call);
      }
      var order := Acquire(m.marketTicker, m.direction);
      o := Dispatched(Request(order, price, m.exchangeIndex, m.correlationId, m.correlationGroup, m.dryRun), check);
      Note(Fired(m, o));
    }

    /** The prefix and the body of the next frame, or nothing when the connection has to end. */
    method ReadFrame(conn: Connection) returns (body: Option<bytes>)
      requires conn.Valid()
      modifies conn`taken, conn`replies, stop
      ensures conn.Valid() && (old(conn.Calm()) ==> conn.Calm()) && (old(stop.Set()) ==> stop.Set())
      ensures |conn.replies| + |conn.Rest()| <= |old(conn.replies)| + |old(conn.Rest())|
      ensures body.Some? ==> |body.value| <= MAX_FRAME_BYTES && |conn.Rest()| < |old(conn.Rest())|
      ensures body.Some? ==> FrameSplit(old(conn.Rest())) == [body.value] + FrameSplit(conn.Rest())
      ensures body.None? && old(conn.Calm()) && !stop.Set() ==> FrameSplit(old(conn.Rest())) == []
    {
      hide FrameSplit, FrameLengthOf, IsCalm;
      ghost var s := conn.Rest();
      var prefix := new byte[FRAME_LENGTH_BYTES](_ => 0);
      var r := ReadExactly(conn, prefix, FRAME_LENGTH_BYTES, stop);
      if !r.ReadOk? {
        if |s| < FRAME_LENGTH_BYTES { SplitStuck(s); }
        return None;
      }
      ghost var p, t := prefix[..], conn.Rest();
      assert s[..FRAME_LENGTH_BYTES] == p && s[FRAME_LENGTH_BYTES..] == t;
      var length := DecodeFrameLength(prefix[..]);
      if length.Bad? {
        SplitStuck(s);
        return None;
      }
      var buffer := new byte[length.value](_ => 0);
      r := ReadExactly(conn, buffer, length.value, stop);
      if !r.ReadOk? {
        if |t| < length.value { SplitStuck(s); }
        return None;
      }
      Assoc(p, buffer[..], conn.Rest());
      SplitTaken(s, p, buffer[..], conn.Rest());
      body := Some(buffer[..]);
    }

    /** Encodes the answer, counts it, and sends it. */
    method Answer(conn: Connection, answer: WakeAck) returns (ok: bool, ghost count: nat)
      requires Valid() && conn.Valid() && IsInt64(answer.schemaVersion) && IsInt64(answer.receivedAtMs)
      modifies this`stats, this`log, stop, ack, conn`sent, conn`replies
      ensures Valid() && conn.Valid() && (old(conn.Calm()) ==> conn.Calm()) && (old(stop.Set()) ==> stop.Set())
      ensures |conn.replies| <= |old(conn.replies)|
      ensures log == old(log) + [Answered(answer)] + [if ok then Acked else AckFailed]
      ensures var frame := Frame(AckBody(answer));
        count <= |frame| && conn.sent == old(conn.sent) + frame[..count] && (ok <==> count == |frame|)
      ensures old(conn.Calm()) && !stop.Set() ==> ok
    {
      hide Tally, Bump, Frame, AckBody, IsCalm, IsInt64;
      EncodeAckInto(answer, ack);
      Note(Answered(answer));
      ok, count := SendFrame(conn, ack.data, stop);
      Note(if ok then Acked else AckFailed);
    }

    /** The record, if there is a recorder, and the fire. */
    method RecordAndFire(m: WakeMessage) returns (o: Outcome)
      requires Valid()
      modifies this`stats, this`log, this`templates, world, killSwitch
      ensures Valid() && Decides(TheGuard(), m, o) && world.elapsed >= old(world.elapsed)
      ensures log == old(log) + (if recording then [Recorded(m.correlationId, m.dryRun)] else []) + [Fired(m, o)]
    {
      hide Tally, Bump, Decides;
      var ended := world.Now();
      if recording {
        Note(Recorded(m.correlationId, m.dryRun));
      }
      o := HandleFire(m);
    }

    /** From the stamp to the fire, for one body. */
    method ServeFrame(conn: Connection, body: bytes) returns (goOn: bool, ghost f: Served, ghost count: nat)
      requires Valid() && conn.Valid() && |body| <= MAX_FRAME_BYTES
      modifies this`stats, this`log, this`templates, world, killSwitch, stop, ack, conn`sent, conn`replies
      ensures Valid() && conn.Valid() && (old(conn.Calm()) ==> conn.Calm()) && (old(stop.Set()) ==> stop.Set())
      ensures |conn.replies| <= |old(conn.replies)|
      ensures f.body == body && ValidServed(fc, TheGuard(), f) && goOn == f.acked
      ensures f.startedAt == world.wall(old(world.elapsed)) && world.elapsed > old(world.elapsed)
      ensures log == old(log) + EventsOf(fc, recording, f)
      ensures var frame := Frame(AckBody(AnswerTo(fc, body, f.startedAt)));
        count <= |frame| && conn.sent == old(conn.sent) + frame[..count] && (f.acked <==> count == |frame|)
      ensures old(conn.Calm()) && !stop.Set() ==> goOn
    {
      hide Tally, Bump, DecodeWake, Frame, AckBody, Decides, IsCalm, EventsOf, AnswerTo, Message;
      ghost var before := log;
      Note(Took(body));
      var startedAt := world.WallClock();
      var started := world.Now();
      var decoded := DecodeWakeMessage(fc, body);
      var answer := if decoded.Good? then AcceptedAck(decoded.value, startedAt) else RejectedAck(decoded.reason, startedAt);
      assert answer == AnswerTo(fc, body, startedAt) by { AnswerIs(fc, body, startedAt, decoded); }
      goOn, count := Answer(conn, answer);
      if !goOn || decoded.Bad? {
        f := Served(body, startedAt, goOn, None);
        ShortEvents(fc, recording, before, f, answer);
        return;
      }
      var o := RecordAndFire(decoded.value);
      f := Served(body, startedAt, true, Some(o));
      LongEvents(fc, recording, before, f, answer, decoded.value, o);
    }

    /** `serve_connection`: frame after frame until the peer is done, the stream makes no sense, an ack cannot be
        sent, or the server is stopped. */
    method ServeConnection(conn: Connection) returns (ghost fs: seq<Served>)
      requires Valid() && conn.Valid() && conn.taken == 0 && conn.sent == []
      modifies this`stats, this`log, this`templates, world, killSwitch, stop, ack, conn
      ensures Valid() && conn.Valid() && (old(stop.Set()) ==> stop.Set())
      ensures log == old(log) + LogOf(fc, recording, fs)
      ensures Settled(fc, TheGuard(), fs, conn.incoming, conn.sent)
      ensures old(conn.Calm()) && !stop.Set() ==> Complete(fs, conn.incoming)
      ensures Balances(old(stats), stats, if EndedUnsent(fc, fs) then 1 else 0)
      ensures world.elapsed >= old(world.elapsed) && Stamped(world.wall, old(world.elapsed), world.elapsed, fs)
    {
      hide SoFar, Settled, Complete, ValidRun, ValidServed, Stamped, Balances, EndedUnsent, Tally, FrameSplit, IsCalm, EventsOf, LogOf, Frame, AnswerTo, AckBody;
      fs := [];
      NothingServed(fc, recording);
      NothingStamped(world.wall, world.elapsed, world.elapsed);
      NothingUnsent(fc, stats);
      SoFarStarts(fc, TheGuard(), conn.incoming);
      assert conn.incoming[0..] == conn.incoming;
      while true
        invariant Valid() && conn.Valid() && (old(stop.Set()) ==> stop.Set()) && (old(conn.Calm()) ==> conn.Calm())
        invariant log == old(log) + LogOf(fc, recording, fs)
        invariant SoFar(fc, TheGuard(), fs, conn.incoming, conn.Rest(), conn.sent)
        invariant !EndedUnsent(fc, fs) && Balances(old(stats), stats, 0)
        invariant world.elapsed >= old(world.elapsed) && Stamped(world.wall, old(world.elapsed), world.elapsed, fs)
        decreases |conn.Rest()|
      {
        SoFarSettles(fc, TheGuard(), fs, conn.incoming, conn.Rest(), conn.sent);
        var stopping := stop.Load();
        if stopping {
          return;
        }
        ghost var rest, sent := conn.Rest(), conn.sent;
        var body := ReadFrame(conn);
        if body.None? {
          return;
        }
        var goOn;
        ghost var f, count;
        ghost var before := world.elapsed;
        goOn, f, count := ServeFrame(conn, body.value);
        SoFarGrows(fc, TheGuard(), fs, f, count, conn.incoming, rest, conn.Rest(), sent);
        StampStep(world.wall, old(world.elapsed), before, world.elapsed, fs, f);
        LogStep(fc, recording, fs, f);
        Assoc3(old(log), LogOf(fc, recording, fs), EventsOf(fc, recording, f));
        fs := fs + [f];
        RunBalances(fc, TheGuard(), recording, old(log), fs);
        if !goOn {
          return;
        }
      }
    }

    /** `serve_one_connection`: `conn` is the connection that a peer brings, if one does. False when the server is to
        stop, or when waiting for a peer failed. */
    method ServeOne(arrival: Arrival, conn: Connection) returns (goOn: bool, ghost fs: seq<Served>)
      requires Valid() && conn.Valid() && conn.taken == 0 && conn.sent == []
      modifies this`stats, this`log, this`templates, world, killSwitch, stop, ack, conn
      ensures Valid() && (old(stop.Set()) ==> stop.Set())
      ensures if goOn then !EndsWaiting(arrival) else stop.Set() || EndsWaiting(arrival)
      ensures log == old(log) + LogOf(fc, recording, fs)
      ensures Settled(fc, TheGuard(), fs, conn.incoming, conn.sent) && (!arrival.Peer? ==> fs == [])
      ensures arrival.Peer? && old(conn.Calm()) && !stop.Set() ==> Complete(fs, conn.incoming)
      ensures Balances(old(stats), stats, if EndedUnsent(fc, fs) then 1 else 0)
    {
      hide EndedUnsent, Tally, IsCalm, LogOf, Settled, Complete, Balances;
      goOn, fs := false, [];
      NothingServed(fc, recording);
      NothingUnsent(fc, stats);
      NothingSettled(fc, TheGuard(), conn.incoming);
      var stopping := stop.Load();
      if stopping || arrival.PollFailed? {
        return;
      }
      stopping := stop.Load();
      if stopping || arrival.Woken? {
        return;
      }
      if !arrival.Peer? {
        stopping := stop.Load();
        goOn := !stopping && arrival.AcceptInterrupted?;
        return;
      }
      fs := ServeConnection(conn);
      stopping := stop.Load();
      goOn := !stopping;
    }

    /** `serve_forever`: one wait after another until a stop is seen or waiting fails; `conns[i]` is the connection
        that the wait `i` brings, if it brings one. */
    method ServeForever(arrivals: seq<Arrival>, conns: seq<Connection>) returns (ghost runs: seq<seq<Served>>)
      requires Valid() && |arrivals| == |conns| && forall i, j :: 0 <= i < j < |conns| ==> conns[i] != conns[j]
      requires forall i :: 0 <= i < |conns| ==> conns[i].Valid() && conns[i].taken == 0 && conns[i].sent == []
      modifies this`stats, this`log, this`templates, world, killSwitch, stop, ack, set c | c in conns
      ensures Valid() && |runs| <= |conns|
      ensures log == old(log) + RunsLog(fc, recording, runs)
      ensures forall i :: 0 <= i < |runs| ==>
        Settled(fc, TheGuard(), runs[i], conns[i].incoming, conns[i].sent) && (!arrivals[i].Peer? ==> runs[i] == [])
      ensures |runs| < |conns| ==> stop.Set() || (runs != [] && EndsWaiting(arrivals[|runs| - 1]))
      ensures forall i :: 0 <= i < |runs| && arrivals[i].Peer? && old(conns[i].Calm()) && !stop.Set() ==>
        Complete(runs[i], conns[i].incoming)
      ensures Balances(old(stats), stats, EndingsUnsent(fc, runs))
    {
      hide Balances, EndedUnsent, EndingsUnsent, Tally, IsCalm, LogOf, RunsLog, Settled, Complete, EndsWaiting;
      runs := [];
      assert log == old(log) + RunsLog(fc, recording, runs) by { NoRuns(fc, recording); }
      NothingUnsent(fc, stats);
      for n := 0 to |conns|
        invariant Valid() && |runs| == n && (old(stop.Set()) ==> stop.Set())
        invariant log == old(log) + RunsLog(fc, recording, runs)
        invariant Balances(old(stats), stats, EndingsUnsent(fc, runs))
        invariant forall i :: n <= i < |conns| ==>
          conns[i].Valid() && conns[i].taken == 0 && conns[i].sent == [] && conns[i].replies == old(conns[i].replies)
        invariant forall i :: 0 <= i < n ==>
          Settled(fc, TheGuard(), runs[i], conns[i].incoming, conns[i].sent) && (!arrivals[i].Peer? ==> runs[i] == [])
        invariant forall i :: 0 <= i < n && arrivals[i].Peer? && old(conns[i].Calm()) && !stop.Set() ==>
          Complete(runs[i], conns[i].incoming)
      {
        var goOn;
        ghost var fs;
        ghost var before := stats;
        goOn, fs := ServeOne(arrivals[n], conns[n]);
        BalancesAdd(old(stats), before, stats, EndingsUnsent(fc, runs), if EndedUnsent(fc, fs) then 1 else 0);
        EndingsStep(fc, runs, fs);
        RunsStep(fc, recording, runs, fs);
        Assoc3(old(log), RunsLog(fc, recording, runs), LogOf(fc, recording, fs));
        runs := runs + [fs];
        if !goOn {
          return;
        }
      }
    }
  }

  /** How a wait for the next peer ends. */
  datatype Arrival =
    | Peer                                // `accept` gives a connection
    | AcceptInterrupted | AcceptFailed    // it fails with EINTR, or otherwise
    | PollFailed                          // `poll` fails, and not with EINTR
    | Woken                               // the pipe has a byte

  predicate EndsWaiting(a: Arrival) {
    a.AcceptFailed? || a.PollFailed? || a.Woken?
  }

  lemma NothingSettled(fc: FromChars, g: Guard, incoming: bytes)
    ensures Settled(fc, g, [], incoming, [])
  {
    hide FrameSplit, Frame, AckBody, AnswerTo;
    NothingServed(fc, false);
  }

  /** What a connection leaves behind: frames taken from the front of the stream, each served as it should be, and
      their acks sent in order. */
  ghost predicate Settled(fc: FromChars, g: Guard, fs: seq<Served>, incoming: bytes, sent: bytes) {
    ValidRun(fc, g, fs) && BodiesOf(fs) <= FrameSplit(incoming) && Delivered(fc, fs, sent)
  }

  /** Every frame of the stream was served and acknowledged. */
  ghost predicate Complete(fs: seq<Served>, incoming: bytes) {
    BodiesOf(fs) == FrameSplit(incoming) && AllAcked(fs)
  }

  lemma NoRuns(fc: FromChars, recording: bool)
    ensures RunsLog(fc, recording, []) == []
  {
  }

  lemma AnswerIs(fc: FromChars, body: bytes, startedAt: int, d: Decoded<WakeMessage>)
    requires d == DecodeWake(fc, body)
    ensures AnswerTo(fc, body, startedAt) == if d.Good? then AcceptedAck(d.value, startedAt) else RejectedAck(d.reason, startedAt)
  {
    hide DecodeWake;
  }

  lemma ShortEvents(fc: FromChars, recording: bool, before: seq<Event>, f: Served, answer: WakeAck)
    requires f.outcome.None? && answer == AnswerTo(fc, f.body, f.startedAt)
    ensures before + [Took(f.body)] + [Answered(answer)] + [if f.acked then Acked else AckFailed] ==
      before + EventsOf(fc, recording, f)
  {
    hide DecodeWake, AnswerTo;
  }

  lemma LongEvents(fc: FromChars, recording: bool, before: seq<Event>, f: Served, answer: WakeAck, m: WakeMessage, o: Outcome)
    requires f.acked && f.outcome == Some(o) && answer == AnswerTo(fc, f.body, f.startedAt) && DecodeWake(fc, f.body) == Good(m)
    ensures before + [Took(f.body)] + [Answered(answer)] + [Acked]
      + (if recording then [Recorded(m.correlationId, m.dryRun)] else []) + [Fired(m, o)] == before + EventsOf(fc, recording, f)
  {
    hide DecodeWake, AnswerTo;
  }

  ghost predicate AllAcked(fs: seq<Served>) {
    forall i :: 0 <= i < |fs| ==> fs[i].acked
  }

  /** The peer gets the ack frames in order, the last one cut short if its send failed. */
  ghost predicate Delivered(fc: FromChars, fs: seq<Served>, sent: bytes) {
    if AllAcked(fs) then sent == FrameJoin(AckBodies(fc, fs))
    else
      var n := |fs| - 1;
      var last := Frame(AckBodies(fc, fs)[n]);
      exists count :: 0 <= count < |last| && sent == FrameJoin(AckBodies(fc, fs[..n])) + last[..count]
  }

  /** Each frame carries a reading of the wall clock taken in between, later frames later readings. */
  ghost predicate Stamped(wall: nat -> int, from: nat, to: nat, fs: seq<Served>) {
    exists at: seq<nat> :: StampedAt(wall, from, to, fs, at)
  }

  ghost predicate StampedAt(wall: nat -> int, from: nat, to: nat, fs: seq<Served>, at: seq<nat>) {
    && |at| == |fs| && (forall i :: 0 <= i < |at| ==> from <= at[i] < to && fs[i].startedAt == wall(at[i]))
    && forall i, j :: 0 <= i < j < |at| ==> at[i] < at[j]
  }

  lemma StampStep(wall: nat -> int, from: nat, mid: nat, to: nat, fs: seq<Served>, f: Served)
    requires from <= mid < to && Stamped(wall, from, mid, fs) && f.startedAt == wall(mid)
    ensures Stamped(wall, from, to, fs + [f])
  {
    var at: seq<nat> :| StampedAt(wall, from, mid, fs, at);
    assert StampedAt(wall, from, to, fs + [f], at + [mid]);
  }

  lemma NothingStamped(wall: nat -> int, from: nat, to: nat)
    ensures Stamped(wall, from, to, [])
  {
    assert StampedAt(wall, from, to, [], []);
  }

  lemma NothingUnsent(fc: FromChars, s: Stats)
    ensures !EndedUnsent(fc, []) && EndingsUnsent(fc, []) == 0 && Balances(s, s, 0)
  {
  }

  lemma AckedNotUnsent(fc: FromChars, fs: seq<Served>)
    requires AllAcked(fs)
    ensures !EndedUnsent(fc, fs)
  {
    hide DecodeWake;
  }

  lemma EndingsStep(fc: FromChars, runs: seq<seq<Served>>, fs: seq<Served>)
    ensures EndingsUnsent(fc, runs + [fs]) == EndingsUnsent(fc, runs) + (if EndedUnsent(fc, fs) then 1 else 0)
  {
    hide EndedUnsent;
    assert (runs + [fs])[..|runs|] == runs;
  }

  /** In the middle of a connection: every frame taken so far was served and acknowledged. */
  ghost predicate SoFar(fc: FromChars, g: Guard, fs: seq<Served>, incoming: bytes, rest: bytes, sent: bytes) {
    && ValidRun(fc, g, fs) && AllAcked(fs)
    && FrameSplit(incoming) == BodiesOf(fs) + FrameSplit(rest) && sent == FrameJoin(AckBodies(fc, fs))
  }

  lemma SoFarStarts(fc: FromChars, g: Guard, incoming: bytes)
    ensures SoFar(fc, g, [], incoming, incoming, [])
  {
    hide FrameSplit, AnswerTo, AckBody;
    NothingServed(fc, false);
    assert BodiesOf([]) + FrameSplit(incoming) == FrameSplit(incoming);
  }

  lemma SoFarSettles(fc: FromChars, g: Guard, fs: seq<Served>, incoming: bytes, rest: bytes, sent: bytes)
    requires SoFar(fc, g, fs, incoming, rest, sent)
    ensures Settled(fc, g, fs, incoming, sent) && !EndedUnsent(fc, fs)
    ensures FrameSplit(rest) == [] ==> Complete(fs, incoming)
  {
    hide FrameSplit, ValidServed, FrameJoin, AckBodies, Frame;
    AckedNotUnsent(fc, fs);
  }

  /** One more frame: the run is settled, and goes on if its ack went out. */
  lemma SoFarGrows(fc: FromChars, g: Guard, fs: seq<Served>, f: Served, count: nat, incoming: bytes, rest: bytes, later: bytes, sent: bytes)
    requires SoFar(fc, g, fs, incoming, rest, sent) && FrameSplit(rest) == [f.body] + FrameSplit(later) && ValidServed(fc, g, f)
    requires var frame := Frame(AckBody(AnswerTo(fc, f.body, f.startedAt)));
      count <= |frame| && (f.acked <==> count == |frame|)
    ensures var now := sent + Frame(AckBody(AnswerTo(fc, f.body, f.startedAt)))[..count];
      && ValidRun(fc, g, fs + [f]) && Settled(fc, g, fs + [f], incoming, now)
      && (f.acked ==> SoFar(fc, g, fs + [f], incoming, later, now) && !EndedUnsent(fc, fs + [f]))
  {
    hide FrameSplit, ValidServed, FrameJoin, AckBodies, Frame, AnswerTo, AckBody, EndedUnsent;
    BodiesStep(fs, f, FrameSplit(later));
    AcksStep(fc, fs, f, count);
    if f.acked {
      AckedNotUnsent(fc, fs + [f]);
    }
  }

  lemma NothingServed(fc: FromChars, recording: bool)
    ensures LogOf(fc, recording, []) == [] && FrameJoin(AckBodies(fc, [])) == []
  {
  }

  lemma BodiesStep(fs: seq<Served>, f: Served, later: seq<bytes>)
    ensures BodiesOf(fs + [f]) == BodiesOf(fs) + [f.body]
    ensures BodiesOf(fs) + ([f.body] + later) == BodiesOf(fs + [f]) + later
  {
  }

  lemma Assoc3(a: seq<Event>, b: seq<Event>, c: seq<Event>)
    ensures a + b + c == a + (b + c)
  {
  }

  lemma AcksStep(fc: FromChars, fs: seq<Served>, f: Served, count: nat)
    requires AllAcked(fs)
    ensures var frame := Frame(AckBody(AnswerTo(fc, f.body, f.startedAt)));
      && (count == |frame| ==> FrameJoin(AckBodies(fc, fs + [f])) == FrameJoin(AckBodies(fc, fs)) + frame[..count])
      && (count < |frame| && !f.acked ==> Delivered(fc, fs + [f], FrameJoin(AckBodies(fc, fs)) + frame[..count]))
  {
    hide AnswerTo, AckBody, Frame, FrameJoin;
    var body := AckBody(AnswerTo(fc, f.body, f.startedAt));
    assert AckBodies(fc, fs + [f]) == AckBodies(fc, fs) + [body];
    JoinConcat(AckBodies(fc, fs), [body]);
    JoinOne(body);
    assert Frame(body)[..|Frame(body)|] == Frame(body);
    assert (fs + [f])[..|fs|] == fs && (fs + [f])[|fs|] == f;
  }
}
