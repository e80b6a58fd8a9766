/** SQLite as src/telemetry.cpp uses it: committed tables, at most one open transaction, and statements that
    may fail for any reason. */
module TelemetryStore {
  import opened Bytes

  datatype Stage =
    | DetectFire | IngestFetch | Decision | WakeSend | WakeRecv | OrderBuild | Sign | DispatchSend | DispatchAck
    | TelemetryWrite

  datatype LatencyEvent = LatencyEvent(
    correlationId: bytes, stage: Stage, startedAtMs: int, endedAtMs: int, durationMs: real, dryRun: bool)

  /** `latency_events` in insertion order, and the keys of `correlations`. */
  datatype Tables = Tables(events: seq<LatencyEvent>, parents: set<bytes>)

  /** The foreign key of `latency_events`. */
  ghost predicate Linked(t: Tables) {
    forall e :: e in t.events ==> e.correlationId in t.parents
  }

  function WithParent(t: Tables, id: bytes): (r: Tables)
    ensures Linked(t) ==> Linked(r)
  {
    t.(parents := t.parents + {id})
  }

  function WithEvent(t: Tables, e: LatencyEvent): (r: Tables)
    ensures Linked(t) && e.correlationId in t.parents ==> Linked(r)
  {
    t.(events := t.events + [e])
  }

  datatype Statement = BeginStatement | ParentStatement(id: bytes) | EventStatement(event: LatencyEvent) | CommitStatement

  /** A failed statement may take the transaction down with it. */
  datatype Verdict = Accept | Refuse | RefuseAndAbort

  /** The verdict on each statement, by how many came before it. */
  type Environment = (nat, Statement) -> Verdict

  class Store {
    const environment: Environment
    var statements: nat
    var committed: Tables
    var pending: Tables
    var open: bool

    ghost predicate Valid()
      reads this
    {
      Linked(committed) && (open ==> Linked(pending))
    }

    constructor (environment: Environment)
      ensures Valid() && !open && committed == Tables([], {}) && this.environment == environment
    {
      this.environment := environment;
      statements, committed, pending, open := 0, Tables([], {}), Tables([], {}), false;
    }

    method Ask(s: Statement) returns (ok: bool)
      requires Valid()
      modifies this
      ensures Valid() && committed == old(committed) && pending == old(pending)
      ensures statements == old(statements) + 1 && ok == environment(old(statements), s).Accept?
      ensures ok ==> open == old(open)
      ensures open ==> old(open)
    {
      var verdict := environment(statements, s);
      statements := statements + 1;
      ok := verdict.Accept?;
      if verdict.RefuseAndAbort? {
        open := false;
      }
    }

    method Begin() returns (ok: bool)
      requires Valid() && !open
      modifies this
      ensures Valid() && committed == old(committed) && open == ok && (ok ==> pending == committed)
      ensures statements == old(statements) + 1 && ok == environment(old(statements), BeginStatement).Accept?
    {
      ok := Ask(BeginStatement);
      open := ok;
      if ok {
        pending := committed;
      }
    }

    /** INSERT OR IGNORE. */
    method InsertParent(id: bytes) returns (ok: bool)
      requires Valid() && open
      modifies this
      ensures Valid() && committed == old(committed) && (ok ==> open && pending == WithParent(old(pending), id))
      ensures statements == old(statements) + 1 && ok == environment(old(statements), ParentStatement(id)).Accept?
    {
      ok := Ask(ParentStatement(id));
      if ok {
        pending := WithParent(pending, id);
      }
    }

    method InsertEvent(e: LatencyEvent) returns (ok: bool)
      requires Valid() && open
      modifies this
      ensures Valid() && committed == old(committed) && (ok ==> open && pending == WithEvent(old(pending), e))
      ensures statements == old(statements) + 1
      ensures ok == (environment(old(statements), EventStatement(e)).Accept? && e.correlationId in old(pending).parents)
    {
      ok := Ask(EventStatement(e));
      ok := ok && e.correlationId in pending.parents;
      if ok {
        pending := WithEvent(pending, e);
      }
    }

    method Commit() returns (ok: bool)
      requires Valid() && open
      modifies this
      ensures Valid() && committed == (if ok then old(pending) else old(committed)) && (ok ==> !open)
      ensures statements == old(statements) + 1 && ok == environment(old(statements), CommitStatement).Accept?
    {
      ok := Ask(CommitStatement);
      if ok {
        committed, open := pending, false;
      }
    }

    /** ROLLBACK always restores; without a transaction it does nothing. */
    method Rollback()
      requires Valid()
      modifies this
      ensures Valid() && committed == old(committed) && !open && statements == old(statements)
    {
      open := false;
    }
  }
}
