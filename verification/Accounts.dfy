/** What the counters of src/executor.cpp say about a log of served frames. */
module Accounts {
  import opened Bytes
  import opened Errors
  import opened JsonNumbers
  import opened WireKeys
  import opened WireText
  import opened Wire
  import opened WireRoundTrip
  import opened WireLengths
  import opened KillSwitch
  import opened Firing

  // ------------------------------------------------------------- the counters

  function Plus(a: Stats, b: Stats): (c: Stats) {
    Stats(a.framesRead + b.framesRead, a.acksAccepted + b.acksAccepted, a.acksRejected + b.acksRejected,
      a.dispatched + b.dispatched, a.refusedPrice + b.refusedPrice, a.refusedKillSwitch + b.refusedKillSwitch)
  }

  lemma BumpPlus(a: Stats, b: Stats, e: Event)
    ensures Bump(Plus(a, b), e) == Plus(a, Bump(b, e))
  {
  }

  lemma {:induction false} TallyConcat(a: seq<Event>, b: seq<Event>)
    ensures Tally(a + b) == Plus(Tally(a), Tally(b))
  {
    hide Bump;
    if b == [] {
      assert a + b == a;
    } else {
      var n := |b| - 1;
      TallyConcat(a, b[..n]);
      assert (a + b)[..|a| + n] == a + b[..n];
      BumpPlus(Tally(a), Tally(b[..n]), b[n]);
    }
  }

  /** Fires of any outcome. */
  function Fires(s: Stats): (n: nat) {
    s.dispatched + s.refusedPrice + s.refusedKillSwitch
  }

  /** Accepted frames whose ack could not be sent. */
  ghost function Unsent(fc: FromChars, fs: seq<Served>): (n: nat) {
    if fs == [] then 0 else
    var here := if !fs[|fs| - 1].acked && DecodeWake(fc, fs[|fs| - 1].body).Good? then 1 else 0;
    Unsent(fc, fs[..|fs| - 1]) + here
  }

  /** The connection ended on an accepted ack that could not be sent. */
  ghost predicate EndedUnsent(fc: FromChars, fs: seq<Served>) {
    fs != [] && !fs[|fs| - 1].acked && DecodeWake(fc, fs[|fs| - 1].body).Good?
  }

  lemma {:induction false} UnsentOnlyLast(fc: FromChars, g: Guard, fs: seq<Served>)
    requires ValidRun(fc, g, fs)
    ensures Unsent(fc, fs) == if EndedUnsent(fc, fs) then 1 else 0
  {
    hide DecodeWake, ValidServed;
    if fs != [] {
      var front := fs[..|fs| - 1];
      assert ValidRun(fc, g, front);
      UnsentOnlyLast(fc, g, front);
      assert front != [] ==> fs[|front| - 1].acked;
    }
  }

  lemma FrameTally(fc: FromChars, g: Guard, recording: bool, f: Served)
    requires ValidServed(fc, g, f)
    ensures var t, good := Tally(EventsOf(fc, recording, f)), DecodeWake(fc, f.body).Good?;
      && t.framesRead == 1 && t.acksAccepted == (if good then 1 else 0) && t.acksRejected == (if good then 0 else 1)
      && t.acksAccepted == Fires(t) + (if !f.acked && good then 1 else 0)
  {
    hide DecodeWake, Decides, Tally, AnswerTo, EventsOf;
    var d, answer := DecodeWake(fc, f.body), AnswerTo(fc, f.body, f.startedAt);
    AnswerStatus(fc, f.body, f.startedAt);
    EventsShape(fc, recording, f);
    var start := [Took(f.body), Answered(answer)];
    TallyPair(Took(f.body), Answered(answer));
    if !f.acked {
      ShortTally(start, AckFailed);
    } else if d.Bad? {
      ShortTally(start, Acked);
    } else {
      FiredTally(recording, start, Recorded(d.value.correlationId, d.value.dryRun), Fired(d.value, f.outcome.value));
    }
  }

  lemma AnswerStatus(fc: FromChars, body: bytes, startedAt: int)
    ensures AnswerTo(fc, body, startedAt).status.Accepted? <==> DecodeWake(fc, body).Good?
    ensures DecodeWake(fc, body).Good? ==>
      AnswerTo(fc, body, startedAt).correlationId == DecodeWake(fc, body).value.correlationId
  {
    hide DecodeWake, Message;
  }

  lemma EventsShape(fc: FromChars, recording: bool, f: Served)
    ensures var start, d := [Took(f.body), Answered(AnswerTo(fc, f.body, f.startedAt))], DecodeWake(fc, f.body);
      && (!f.acked ==> EventsOf(fc, recording, f) == start + [AckFailed])
      && (f.acked && d.Bad? ==> EventsOf(fc, recording, f) == start + [Acked])
      && (f.acked && d.Good? && f.outcome.Some? ==>
        var record := if recording then [Recorded(d.value.correlationId, d.value.dryRun)] else [];
        EventsOf(fc, recording, f) == start + ([Acked] + record + [Fired(d.value, f.outcome.value)]))
  {
    hide DecodeWake, AnswerTo;
  }

  lemma TallyPair(a: Event, b: Event)
    ensures Tally([a, b]) == Bump(Bump(ZERO_STATS, a), b)
  {
    hide Bump;
    assert [a, b][..1] == [a] && [a][..0] == [];
    TallyStep([], a);
    TallyStep([a], b);
    assert [] + [a] == [a] && [a] + [b] == [a, b] && Tally([]) == ZERO_STATS;
  }

  lemma ShortTally(start: seq<Event>, e: Event)
    ensures Tally(start + [e]) == Bump(Tally(start), e)
  {
    hide Tally, Bump;
    TallyStep(start, e);
  }

  lemma FiredTally(recording: bool, start: seq<Event>, r: Event, e: Event)
    requires r.Recorded?
    ensures Tally(start + ([Acked] + (if recording then [r] else []) + [e])) == Bump(Tally(start), e)
  {
    hide Tally;
    var log := start + [Acked];
    TallyStep(start, Acked);
    if recording {
      TallyStep(log, r);
      TallyStep(log + [r], e);
      assert start + ([Acked] + [r] + [e]) == log + [r] + [e];
    } else {
      TallyStep(log, e);
      assert start + ([Acked] + [] + [e]) == log + [e];
    }
  }

  lemma {:induction false} RunTally(fc: FromChars, g: Guard, recording: bool, fs: seq<Served>)
    requires forall i :: 0 <= i < |fs| ==> ValidServed(fc, g, fs[i])
    ensures var t := Tally(LogOf(fc, recording, fs));
      && t.framesRead == t.acksAccepted + t.acksRejected == |fs| && t.acksAccepted == Fires(t) + Unsent(fc, fs)
  {
    hide DecodeWake, ValidServed, EventsOf, Tally;
    if fs == [] {
      EmptyTally();
    } else {
      var front, last := fs[..|fs| - 1], fs[|fs| - 1];
      RunTally(fc, g, recording, front);
      FrameTally(fc, g, recording, last);
      TallyConcat(LogOf(fc, recording, front), EventsOf(fc, recording, last));
    }
  }

  lemma EmptyTally()
    ensures Tally([]) == ZERO_STATS
  {
  }

  /** How many connections ended on a failed send of an accepted ack. */
  ghost function EndingsUnsent(fc: FromChars, runs: seq<seq<Served>>): (n: nat) {
    if runs == [] then 0
    else EndingsUnsent(fc, runs[..|runs| - 1]) + (if EndedUnsent(fc, runs[|runs| - 1]) then 1 else 0)
  }

  ghost predicate ValidRuns(fc: FromChars, g: Guard, runs: seq<seq<Served>>) {
    forall i :: 0 <= i < |runs| ==> ValidRun(fc, g, runs[i])
  }

  /** Over every run: each frame read was answered once, and each accepted frame was fired once, except where its
      connection ended because the ack could not be sent. */
  lemma {:induction false} CountersBalance(fc: FromChars, g: Guard, recording: bool, runs: seq<seq<Served>>)
    requires ValidRuns(fc, g, runs)
    ensures var t := Tally(RunsLog(fc, recording, runs));
      && t.framesRead == t.acksAccepted + t.acksRejected
      && t.acksAccepted - Fires(t) == EndingsUnsent(fc, runs)
  {
    hide ValidRun, LogOf, Tally, EndedUnsent, Unsent;
    if runs == [] {
      EmptyTally();
    } else {
      var front, last := runs[..|runs| - 1], runs[|runs| - 1];
      CountersBalance(fc, g, recording, front);
      RunIsServed(fc, g, last);
      RunTally(fc, g, recording, last);
      UnsentOnlyLast(fc, g, last);
      TallyConcat(RunsLog(fc, recording, front), LogOf(fc, recording, last));
    }
  }

  lemma RunIsServed(fc: FromChars, g: Guard, fs: seq<Served>)
    requires ValidRun(fc, g, fs)
    ensures forall i :: 0 <= i < |fs| ==> ValidServed(fc, g, fs[i])
  {
    hide ValidServed;
  }

  // ------------------------------------------------------------ between two moments

  /** From one moment to another, each frame read was answered once, and each accepted frame was fired once but for
      `unsent` of them. */
  predicate Balances(before: Stats, after: Stats, unsent: int) {
    var accepted := after.acksAccepted - before.acksAccepted;
    && after.framesRead - before.framesRead == accepted + (after.acksRejected - before.acksRejected)
    && accepted - (Fires(after) - Fires(before)) == unsent
  }

  lemma BalancesAdd(a: Stats, b: Stats, c: Stats, m: int, n: int)
    requires Balances(a, b, m) && Balances(b, c, n)
    ensures Balances(a, c, m + n)
  {
  }

  /** A run of a connection balances, whatever the log held before it. */
  lemma RunBalances(fc: FromChars, g: Guard, recording: bool, before: seq<Event>, fs: seq<Served>)
    requires ValidRun(fc, g, fs)
    ensures Balances(Tally(before), Tally(before + LogOf(fc, recording, fs)), if EndedUnsent(fc, fs) then 1 else 0)
  {
    hide ValidServed, LogOf, Tally, EndedUnsent, Unsent;
    RunIsServed(fc, g, fs);
    RunTally(fc, g, recording, fs);
    UnsentOnlyLast(fc, g, fs);
    TallyConcat(before, LogOf(fc, recording, fs));
  }

  // ------------------------------------------------------------ counted in the log

  function Count(log: seq<Event>, p: Event -> bool): (n: nat) {
    if log == [] then 0 else Count(log[..|log| - 1], p) + (if p(log[|log| - 1]) then 1 else 0)
  }

  predicate IsTook(e: Event) { e.Took? }
  predicate IsAcceptance(e: Event) { e.Answered? && e.ack.status.Accepted? }
  predicate IsRejection(e: Event) { e.Answered? && e.ack.status.Rejected? }
  predicate IsDispatch(e: Event) { e.Fired? && e.outcome.Dispatched? }
  predicate IsPriceRefusal(e: Event) { e.Fired? && e.outcome.RefusedPrice? }
  predicate IsSwitchRefusal(e: Event) { e.Fired? && e.outcome.RefusedKillSwitch? }

  /** Each counter is the number of events of its kind. */
  lemma {:induction false} CountersCount(log: seq<Event>)
    ensures Tally(log).framesRead == Count(log, IsTook)
    ensures Tally(log).acksAccepted == Count(log, IsAcceptance)
    ensures Tally(log).acksRejected == Count(log, IsRejection)
    ensures Tally(log).dispatched == Count(log, IsDispatch)
    ensures Tally(log).refusedPrice == Count(log, IsPriceRefusal)
    ensures Tally(log).refusedKillSwitch == Count(log, IsSwitchRefusal)
  {
    if log != [] {
      CountersCount(log[..|log| - 1]);
    }
  }
}
