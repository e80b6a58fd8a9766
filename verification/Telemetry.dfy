/** `record`, `insert`, `write_batch` and the drain of src/telemetry.cpp. */
module Telemetry {
  import opened Bytes
  import opened TelemetryStore
  import opened SpscRing
  import RingIndex

  const MAX_CORRELATION_ID_BYTES: nat := 128
  const MAX_BATCH_ROWS: nat := 500

  /** A ring slot: a fixed block for the id, and how much of it is used. */
  datatype Row = Row(
    startedAtMs: int, endedAtMs: int, durationMs: real, idLength: byte, stage: Stage, dryRun: bool, idBlock: bytes)

  ghost predicate ValidRow(r: Row) {
    |r.idBlock| == MAX_CORRELATION_ID_BYTES && r.idLength <= MAX_CORRELATION_ID_BYTES
  }

  /** The row `record` builds: zeroed, then the id copied to the front of the block. */
  function PackRow(e: LatencyEvent): (r: Row)
    requires |e.correlationId| <= MAX_CORRELATION_ID_BYTES
    ensures ValidRow(r)
  {
    var n := |e.correlationId|;
    Row(e.startedAtMs, e.endedAtMs, e.durationMs, n, e.stage, e.dryRun,
      e.correlationId + seq(MAX_CORRELATION_ID_BYTES - n, _ => 0))
  }

  /** What `insert` binds. */
  function EventOf(r: Row): (e: LatencyEvent)
    requires ValidRow(r)
  {
    LatencyEvent(r.idBlock[..r.idLength], r.stage, r.startedAtMs, r.endedAtMs, r.durationMs, r.dryRun)
  }

  lemma PackedEvent(e: LatencyEvent)
    requires |e.correlationId| <= MAX_CORRELATION_ID_BYTES
    ensures EventOf(PackRow(e)) == e
  {
    assert PackRow(e).idBlock[..|e.correlationId|] == e.correlationId;
  }

  ghost predicate ValidRows(rows: seq<Row>) {
    forall i :: 0 <= i < |rows| ==> ValidRow(rows[i])
  }

  function EventsOf(rows: seq<Row>): (es: seq<LatencyEvent>)
    requires ValidRows(rows)
    ensures |es| == |rows|
  {
    seq(|rows|, i requires 0 <= i < |rows| => EventOf(rows[i]))
  }

  /** The elements whose mark is true, in order. */
  function Marked<T>(xs: seq<T>, marks: seq<bool>): (ys: seq<T>)
    requires |marks| == |xs|
  {
    if xs == [] then []
    else Marked(xs[..|xs| - 1], marks[..|xs| - 1]) + (if marks[|xs| - 1] then [xs[|xs| - 1]] else [])
  }

  function Opposite(marks: seq<bool>): (r: seq<bool>)
    ensures |r| == |marks|
  {
    seq(|marks|, i requires 0 <= i < |marks| => !marks[i])
  }

  lemma MarkedStep<T>(xs: seq<T>, marks: seq<bool>, n: nat)
    requires |marks| == n < |xs|
    ensures Marked(xs[..n + 1], marks + [true]) == Marked(xs[..n], marks) + [xs[n]]
    ensures Marked(xs[..n + 1], marks + [false]) == Marked(xs[..n], marks)
  {
    assert xs[..n + 1][..n] == xs[..n] && (marks + [true])[..n] == marks && (marks + [false])[..n] == marks;
  }

  lemma {:induction false} AllMarked<T>(xs: seq<T>, marks: seq<bool>)
    requires |marks| == |xs| && forall i :: 0 <= i < |xs| ==> marks[i]
    ensures Marked(xs, marks) == xs
  {
    if xs != [] {
      AllMarked(xs[..|xs| - 1], marks[..|xs| - 1]);
    }
  }

  lemma OppositeStep(marks: seq<bool>, b: bool)
    ensures Opposite(marks + [b]) == Opposite(marks) + [!b]
  {
  }

  /** Every element is marked or not: nothing is lost between the two. */
  lemma {:induction false} MarkedPartition<T>(xs: seq<T>, marks: seq<bool>)
    requires |marks| == |xs|
    ensures multiset(xs) == multiset(Marked(xs, marks)) + multiset(Marked(xs, Opposite(marks)))
    ensures |Marked(xs, marks)| + |Marked(xs, Opposite(marks))| == |xs|
  {
    hide Marked, Opposite;
    if xs == [] {
      NothingMarked(xs, marks);
    } else {
      var n := |xs| - 1;
      var ms := marks[..n];
      MarkedPartition(xs[..n], ms);
      MarkedStep(xs, ms, n);
      MarkedStep(xs, Opposite(ms), n);
      OppositeStep(ms, marks[n]);
      assert xs[..n + 1] == xs == xs[..n] + [xs[n]] && marks == ms + [marks[n]];
    }
  }

  /** The tables after the marked events, each with its parent. */
  function WithRows(t: Tables, es: seq<LatencyEvent>): (r: Tables) {
    if es == [] then t
    else
      var e := es[|es| - 1];
      WithEvent(WithParent(WithRows(t, es[..|es| - 1]), e.correlationId), e)
  }

  lemma WithRowsStep(t: Tables, es: seq<LatencyEvent>, e: LatencyEvent)
    ensures WithRows(t, es + [e]) == WithEvent(WithParent(WithRows(t, es), e.correlationId), e)
  {
    assert (es + [e])[..|es|] == es;
  }

  /** What the rows add: themselves, once each and in order, and exactly their parents. */
  lemma {:induction false} WithRowsAdds(t: Tables, es: seq<LatencyEvent>)
    ensures WithRows(t, es).events == t.events + es
    ensures WithRows(t, es).parents == t.parents + (set i | 0 <= i < |es| :: es[i].correlationId)
  {
    if es != [] {
      var n := |es| - 1;
      WithRowsAdds(t, es[..n]);
      assert es == es[..n] + [es[n]];
    }
  }

  /** An environment that turns down particular rows, whenever they come, and nothing else. */
  ghost predicate RefusesOnly(env: Environment, bad: LatencyEvent -> bool) {
    && (forall n: nat :: env(n, BeginStatement).Accept? && env(n, CommitStatement).Accept?)
    && (forall m: nat, n: nat, e: LatencyEvent ::
      Passes(env, m, n, e) <==> !bad(e))
  }

  /** The two statements of `insert` go through at those times. */
  ghost predicate Passes(env: Environment, m: nat, n: nat, e: LatencyEvent) {
    env(m, ParentStatement(e.correlationId)).Accept? && env(n, EventStatement(e)).Accept?
  }

  lemma RefusalOf(env: Environment, bad: LatencyEvent -> bool, e: LatencyEvent, m: nat, n: nat)
    requires RefusesOnly(env, bad)
    ensures Passes(env, m, n, e) <==> !bad(e)
    ensures env(n, BeginStatement).Accept? && env(n, CommitStatement).Accept?
  {
  }

  class Writer {
    const db: Store
    var rowsWritten: nat
    var rowsFailed: nat

    ghost predicate Valid()
      reads this, db
    {
      db.Valid() && !db.open
    }

    constructor (environment: Environment)
      ensures Valid() && fresh(db) && rowsWritten == 0 && rowsFailed == 0 && db.environment == environment
    {
      db := new Store(environment);
      rowsWritten, rowsFailed := 0, 0;
    }

    /** `insert`: the parent, then the event. */
    method Insert(row: Row) returns (ok: bool)
      requires db.Valid() && db.open && ValidRow(row)
      modifies db
      ensures db.Valid() && db.committed == old(db.committed)
      ensures ok ==> db.open && db.pending == WithEvent(WithParent(old(db.pending), EventOf(row).correlationId), EventOf(row))
      ensures forall bad :: RefusesOnly(db.environment, bad) ==> ok == !bad(EventOf(row))
    {
      hide Linked, RefusesOnly;
      var id := row.idBlock[..row.idLength];
      ghost var n := db.statements;
      forall bad | RefusesOnly(db.environment, bad)
        ensures !bad(EventOf(row)) ==
          (db.environment(n, ParentStatement(id)).Accept? && db.environment(n + 1, EventStatement(EventOf(row))).Accept?)
      {
        RefusalOf(db.environment, bad, EventOf(row), n, n + 1);
      }
      ok := db.InsertParent(id);
      if ok {
        ok := db.InsertEvent(LatencyEvent(id, row.stage, row.startedAtMs, row.endedAtMs, row.durationMs, row.dryRun));
      }
    }

    /** The whole batch in one transaction. */
    method WriteWhole(batch: seq<Row>) returns (committed: bool)
      requires Valid() && ValidRows(batch)
      modifies db
      ensures Valid()
      ensures db.committed == if committed then WithRows(old(db.committed), EventsOf(batch)) else old(db.committed)
      ensures forall bad :: RefusesOnly(db.environment, bad) ==>
        (committed <==> forall i :: 0 <= i < |batch| ==> !bad(EventOf(batch[i])))
    {
      hide Linked, EventOf, WithRows, WithEvent, WithParent;
      committed := false;
      ghost var before := db.committed;
      var begun := db.Begin();
      if begun {
        var allInserted := true;
        var n := 0;
        assert WithRows(before, EventsOf(batch[..0])) == before by { NoRows(before, EventsOf(batch[..0])); }
        while n < |batch| && allInserted
          invariant 0 <= n <= |batch| && db.Valid() && db.committed == before
          invariant allInserted ==> db.open && db.pending == WithRows(before, EventsOf(batch[..n]))
          invariant forall bad :: RefusesOnly(db.environment, bad) && allInserted ==>
            forall i :: 0 <= i < n ==> !bad(EventOf(batch[i]))
          invariant forall bad :: RefusesOnly(db.environment, bad) && !allInserted ==>
            exists i :: 0 <= i < n && bad(EventOf(batch[i]))
        {
          var ok := Insert(batch[n]);
          EventsStep(batch, n);
          WithRowsStep(before, EventsOf(batch[..n]), EventOf(batch[n]));
          allInserted := ok;
          n := n + 1;
        }
        assert batch[..|batch|] == batch;
        if allInserted {
          committed := db.Commit();
        }
        if !committed {
          db.Rollback();
        }
      }
    }

    /** One row in a transaction of its own. */
    method WriteRow(row: Row) returns (ok: bool)
      requires Valid() && ValidRow(row)
      modifies db
      ensures Valid()
      ensures db.committed ==
        if ok then WithEvent(WithParent(old(db.committed), EventOf(row).correlationId), EventOf(row)) else old(db.committed)
      ensures forall bad :: RefusesOnly(db.environment, bad) ==> ok == !bad(EventOf(row))
    {
      hide Linked, EventOf, WithEvent, WithParent;
      ok := db.Begin();
      if ok {
        ok := Insert(row);
        if ok {
          ok := db.Commit();
        }
      }
      if !ok {
        db.Rollback();
      }
    }

    /** `write_batch`: `kept` marks the rows that ended up in the table. */
    method WriteBatch(batch: seq<Row>) returns (ghost kept: seq<bool>)
      requires Valid() && ValidRows(batch)
      modifies this, db
      ensures Valid() && |kept| == |batch|
      ensures db.committed == WithRows(old(db.committed), Marked(EventsOf(batch), kept))
      ensures rowsWritten == old(rowsWritten) + |Marked(EventsOf(batch), kept)|
      ensures rowsFailed == old(rowsFailed) + |Marked(EventsOf(batch), Opposite(kept))|
      ensures rowsWritten + rowsFailed == old(rowsWritten) + old(rowsFailed) + |batch|
      ensures forall bad :: RefusesOnly(db.environment, bad) ==>
        forall i :: 0 <= i < |batch| ==> kept[i] == !bad(EventOf(batch[i]))
    {
      hide Linked, EventOf, WithRows, Marked, Opposite, WithEvent, WithParent;
      var committed := WriteWhole(batch);
      if committed {
        rowsWritten := rowsWritten + |batch|;
        kept := seq(|batch|, _ => true);
        AllMarked(EventsOf(batch), kept);
        MarkedPartition(EventsOf(batch), kept);
        return;
      }
      kept := WriteRows(batch);
      MarkedPartition(EventsOf(batch), kept);
    }

    /** The retry, a row at a time. */
    method WriteRows(batch: seq<Row>) returns (ghost kept: seq<bool>)
      requires Valid() && ValidRows(batch)
      modifies this, db
      ensures Valid() && |kept| == |batch|
      ensures db.committed == WithRows(old(db.committed), Marked(EventsOf(batch), kept))
      ensures rowsWritten == old(rowsWritten) + |Marked(EventsOf(batch), kept)|
      ensures rowsFailed == old(rowsFailed) + |Marked(EventsOf(batch), Opposite(kept))|
      ensures forall bad :: RefusesOnly(db.environment, bad) ==>
        forall i :: 0 <= i < |batch| ==> kept[i] == !bad(EventOf(batch[i]))
    {
      hide Linked, EventOf, WithRows, Marked, Opposite, WithEvent, WithParent;
      kept := [];
      ghost var before, es := db.committed, EventsOf(batch);
      assert es[..0] == [];
      NothingMarked(es[..0], kept);
      NoRows(before, Marked(es[..0], kept));
      for n := 0 to |batch|
        invariant Valid() && |kept| == n && |es| == |batch|
        invariant db.committed == WithRows(before, Marked(es[..n], kept))
        invariant rowsWritten == old(rowsWritten) + |Marked(es[..n], kept)|
        invariant rowsFailed == old(rowsFailed) + |Marked(es[..n], Opposite(kept))|
        invariant forall bad :: RefusesOnly(db.environment, bad) ==>
          forall i :: 0 <= i < n ==> kept[i] == !bad(EventOf(batch[i]))
      {
        var ok := WriteRow(batch[n]);
        MarkedStep(es, kept, n);
        MarkedStep(es, Opposite(kept), n);
        OppositeStep(kept, ok);
        WithRowsStep(before, Marked(es[..n], kept), es[n]);
        if ok {
          rowsWritten := rowsWritten + 1;
        } else {
          rowsFailed := rowsFailed + 1;
        }
        kept := kept + [ok];
      }
      assert es[..|batch|] == es;
    }
  }

  lemma NoRows(t: Tables, es: seq<LatencyEvent>)
    requires es == []
    ensures WithRows(t, es) == t
  {
  }

  lemma NothingMarked<T>(es: seq<T>, marks: seq<bool>)
    requires es == [] && marks == []
    ensures Marked(es, marks) == [] && Marked(es, Opposite(marks)) == []
  {
  }

  lemma EventsStep(batch: seq<Row>, n: nat)
    requires n < |batch| && ValidRows(batch)
    ensures EventsOf(batch[..n + 1]) == EventsOf(batch[..n]) + [EventOf(batch[n])]
  {
    hide EventOf;
  }

  lemma {:induction false} MarkedConcat<T>(xs: seq<T>, ms: seq<bool>, ys: seq<T>, ns: seq<bool>)
    requires |ms| == |xs| && |ns| == |ys|
    ensures Marked(xs + ys, ms + ns) == Marked(xs, ms) + Marked(ys, ns)
  {
    if ys == [] {
      assert xs + ys == xs && ms + ns == ms;
    } else {
      var n := |ys| - 1;
      MarkedConcat(xs, ms, ys[..n], ns[..n]);
      assert (xs + ys)[..|xs| + n] == xs + ys[..n] && (ms + ns)[..|xs| + n] == ms + ns[..n];
    }
  }

  lemma {:induction false} WithRowsConcat(t: Tables, es: seq<LatencyEvent>, fs: seq<LatencyEvent>)
    ensures WithRows(t, es + fs) == WithRows(WithRows(t, es), fs)
  {
    hide WithEvent, WithParent;
    if fs == [] {
      assert es + fs == es;
    } else {
      var n := |fs| - 1;
      WithRowsConcat(t, es, fs[..n]);
      assert (es + fs)[..|es| + n] == es + fs[..n];
    }
  }

  lemma EventsConcat(xs: seq<Row>, ys: seq<Row>)
    requires ValidRows(xs) && ValidRows(ys)
    ensures ValidRows(xs + ys) && EventsOf(xs + ys) == EventsOf(xs) + EventsOf(ys)
  {
    hide EventOf, ValidRow;
  }

  /** What a writer that was given `rows` and kept the marked ones has done to its tables and counters. */
  ghost predicate Accounted(before: Tables, after: Tables, rows: seq<Row>, kept: seq<bool>, written: int, failed: int) {
    && ValidRows(rows) && |kept| == |rows|
    && after == WithRows(before, Marked(EventsOf(rows), kept))
    && written == |Marked(EventsOf(rows), kept)| && failed == |Marked(EventsOf(rows), Opposite(kept))|
  }

  lemma AccountedConcat(a: Tables, b: Tables, c: Tables, xs: seq<Row>, ms: seq<bool>, w: int, f: int,
                        ys: seq<Row>, ns: seq<bool>, w': int, f': int)
    requires Accounted(a, b, xs, ms, w, f) && Accounted(b, c, ys, ns, w', f')
    ensures Accounted(a, c, xs + ys, ms + ns, w + w', f + f')
  {
    hide EventsOf, ValidRows, Marked, WithRows;
    EventsConcat(xs, ys);
    MarkedConcat(EventsOf(xs), ms, EventsOf(ys), ns);
    MarkedConcat(EventsOf(xs), Opposite(ms), EventsOf(ys), Opposite(ns));
    assert Opposite(ms + ns) == Opposite(ms) + Opposite(ns);
    WithRowsConcat(a, Marked(EventsOf(xs), ms), Marked(EventsOf(ys), ns));
  }

  lemma NothingAccounted(t: Tables, rows: seq<Row>, kept: seq<bool>)
    requires rows == [] && kept == []
    ensures Accounted(t, t, rows, kept, 0, 0)
  {
  }

  class Sink {
    const ring: Ring<Row>
    const writer: Writer
    var droppedRingFull: nat
    var droppedOversizedId: nat

    ghost predicate Valid()
      reads this, ring, ring.slots, writer, writer.db
    {
      ring.Valid() && writer.Valid() && ValidRows(ring.contents)
    }

    constructor (capacity: nat, environment: Environment)
      requires capacity <= RingIndex.Pow2(63)
      ensures Valid() && ring.contents == [] && droppedRingFull == 0 && droppedOversizedId == 0
    {
      hide RingIndex.IsCapacity, RingIndex.Slot, RingIndex.Wrap, RingIndex.Pow2, Linked;
      ring := new Ring(capacity);
      writer := new Writer(environment);
      droppedRingFull, droppedOversizedId := 0, 0;
    }

    /** `record`: queued, or dropped and counted under exactly one reason. */
    method Record(e: LatencyEvent) returns (queued: bool)
      requires Valid()
      modifies this, ring, ring.slots
      ensures Valid()
      ensures var oversized := |e.correlationId| > 128;
        var full := !oversized && |old(ring.contents)| == ring.slots.Length;
        && queued == (!oversized && !full)
        && droppedOversizedId == old(droppedOversizedId) + (if oversized then 1 else 0)
        && droppedRingFull == old(droppedRingFull) + (if full then 1 else 0)
      ensures !queued ==> ring.contents == old(ring.contents)
      ensures queued ==> |ring.contents| == |old(ring.contents)| + 1 && ring.contents[..|old(ring.contents)|] == old(ring.contents)
      ensures queued ==> EventOf(ring.contents[|old(ring.contents)|]) == e
    {
      hide PackRow, EventOf;
      if |e.correlationId| > MAX_CORRELATION_ID_BYTES {
        droppedOversizedId := droppedOversizedId + 1;
        return false;
      }
      PackedEvent(e);
      queued := ring.TryPush(PackRow(e));
      if !queued {
        droppedRingFull := droppedRingFull + 1;
      }
    }

    /** The inner loop of `run_writer`: the oldest rows, up to a batch. */
    method TakeBatch() returns (batch: seq<Row>)
      requires Valid()
      modifies ring
      ensures Valid() && old(ring.contents) == batch + ring.contents
      ensures ValidRows(batch)
      ensures |batch| == if |old(ring.contents)| < 500 then |old(ring.contents)| else 500
    {
      hide ValidRow, RingIndex.IsCapacity, RingIndex.Slot, RingIndex.Wrap, Linked;
      batch := [];
      ghost var rows := ring.contents;
      while |batch| < MAX_BATCH_ROWS
        invariant ring.Valid() && writer.Valid() && ValidRows(rows) && rows == batch + ring.contents
        invariant ValidRows(batch) && ValidRows(ring.contents) && |batch| <= MAX_BATCH_ROWS
        decreases MAX_BATCH_ROWS - |batch|
      {
        var row := ring.TryPop();
        if row.None? {
          break;
        }
        OneMoreRow(batch, row.value, ring.contents);
        batch := batch + [row.value];
      }
    }

    /** `run_writer` from the moment it reads the stop flag as set: it empties the ring and returns. */
    method DrainAndReturn() returns (ghost kept: seq<bool>)
      requires Valid()
      modifies ring, writer, writer.db
      ensures Valid() && ring.contents == []
      ensures Accounted(old(writer.db.committed), writer.db.committed, old(ring.contents), kept,
        writer.rowsWritten - old(writer.rowsWritten), writer.rowsFailed - old(writer.rowsFailed))
    {
      hide Accounted, ValidRow, Marked, WithRows, Opposite, EventsOf;
      ghost var rows, taken, before := ring.contents, [], writer.db.committed;
      kept := [];
      NothingAccounted(before, taken, kept);
      while true
        invariant Valid() && rows == taken + ring.contents
        invariant Accounted(before, writer.db.committed, taken, kept,
          writer.rowsWritten - old(writer.rowsWritten), writer.rowsFailed - old(writer.rowsFailed))
        decreases |ring.contents|
      {
        var batch := TakeBatch();
        if batch == [] {
          assert taken == rows;
          return;
        }
        assert taken + (batch + ring.contents) == taken + batch + ring.contents;
        ghost var middle, w, f := writer.db.committed, writer.rowsWritten, writer.rowsFailed;
        ghost var marks := writer.WriteBatch(batch);
        BatchAccounted(middle, writer.db.committed, batch, marks, writer.rowsWritten - w, writer.rowsFailed - f);
        AccountedConcat(before, middle, writer.db.committed, taken, kept, w - old(writer.rowsWritten),
          f - old(writer.rowsFailed), batch, marks, writer.rowsWritten - w, writer.rowsFailed - f);
        taken, kept := taken + batch, kept + marks;
      }
    }
  }

  lemma OneMoreRow(batch: seq<Row>, row: Row, rest: seq<Row>)
    requires ValidRows(batch + ([row] + rest))
    ensures batch + ([row] + rest) == batch + [row] + rest
    ensures ValidRows(batch + [row]) && ValidRows(rest)
  {
    hide ValidRow;
    var rows := batch + ([row] + rest);
    forall i | 0 <= i < |rest|
      ensures ValidRow(rest[i])
    {
      assert rest[i] == rows[|batch| + 1 + i];
    }
    forall i | 0 <= i < |batch| + 1
      ensures ValidRow((batch + [row])[i])
    {
      assert (batch + [row])[i] == rows[i];
    }
  }

  lemma BatchAccounted(before: Tables, after: Tables, rows: seq<Row>, kept: seq<bool>, written: int, failed: int)
    requires ValidRows(rows) && |kept| == |rows|
    requires after == WithRows(before, Marked(EventsOf(rows), kept))
    requires written == |Marked(EventsOf(rows), kept)| && failed == |Marked(EventsOf(rows), Opposite(kept))|
    ensures Accounted(before, after, rows, kept, written, failed)
  {
  }
}
