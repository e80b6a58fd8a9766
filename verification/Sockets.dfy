/** `read_exactly` and `send_frame` of src/executor.cpp, over a kernel that transfers what it likes. */
module Sockets {
  import opened Bytes

  /** What the kernel does with one call. */
  datatype Reply =
    | Transfer(most: nat)       // some bytes, at least one, at most this many
    | Interrupted               // EINTR
    | Shut                      // a read finds the end of the stream, a send fails
    | Broken                    // any other error

  /** `stopping_`: some load is the first that finds it set, or none is. */
  class StopFlag {
    const setAt: Option<nat>
    var loads: nat

    constructor (setAt: Option<nat>)
      ensures this.setAt == setAt && loads == 0
    {
      this.setAt, loads := setAt, 0;
    }

    predicate Set()
      reads this`loads
    {
      setAt.Some? && setAt.value <= loads
    }

    method Load() returns (stopping: bool)
      modifies this
      ensures loads == old(loads) + 1 && stopping == old(Set())
      ensures old(Set()) ==> Set()
    {
      stopping := Set();
      loads := loads + 1;
    }
  }

  function Least(a: nat, b: nat): (c: nat)
    ensures c <= a && c <= b && (c == a || c == b)
  {
    if a <= b then a else b
  }

  function AtLeastOne(n: nat): (m: nat)
    ensures m >= 1
  {
    if n == 0 then 1 else n
  }

  predicate IsCalm(replies: seq<Reply>) {
    forall i :: 0 <= i < |replies| ==> replies[i].Transfer? || replies[i].Interrupted?
  }

  /** A connected stream socket. When the list of replies is used up, calls transfer all they can. */
  class Connection {
    const incoming: bytes
    var taken: nat
    var sent: bytes
    var replies: seq<Reply>

    ghost predicate Valid()
      reads this
    {
      taken <= |incoming|
    }

    /** What the peer has sent and the server has not read. */
    ghost function Rest(): (s: bytes)
      requires Valid()
      reads this
    {
      incoming[taken..]
    }

    /** No errors and no shutdown to come. */
    ghost predicate Calm()
      reads this
    {
      IsCalm(replies)
    }

    constructor (incoming: bytes, replies: seq<Reply>)
      ensures Valid() && Rest() == incoming && sent == [] && this.incoming == incoming && this.replies == replies
    {
      this.incoming, this.replies := incoming, replies;
      taken, sent := 0, [];
    }

    method NextReply() returns (r: Reply)
      modifies this`replies
      ensures old(Calm()) ==> Calm() && (r.Transfer? || r.Interrupted?)
      ensures old(replies) != [] ==> |replies| < |old(replies)|
      ensures old(replies) == [] ==> replies == [] && r.Transfer?
    {
      if replies == [] {
        return Transfer(|incoming| + 65540);
      }
      r := replies[0];
      replies := replies[1..];
    }

    /** `::read` into `out[at..at + count]`. */
    method Read(out: array<byte>, at: nat, count: nat) returns (got: int, interrupted: bool)
      requires Valid() && count > 0 && at + count <= out.Length
      modifies this`taken, this`replies, out
      ensures Valid() && got <= count && (got >= 0 ==> !interrupted)
      ensures old(Calm()) ==> Calm() && (got < 0 ==> interrupted) && (got == 0 ==> Rest() == [])
      ensures forall i :: 0 <= i < out.Length && !(at <= i < at + got) ==> out[i] == old(out[i])
      ensures got > 0 ==> old(Rest()) == out[at..at + got] + Rest()
      ensures got <= 0 ==> Rest() == old(Rest())
      ensures |replies| <= |old(replies)|
      ensures got > 0 || interrupted ==> |replies| + |Rest()| < |old(replies)| + |old(Rest())|
    {
      var r := NextReply();
      match r
      case Interrupted => got, interrupted := -1, true;
      case Broken => got, interrupted := -1, false;
      case Shut => got, interrupted := 0, false;
      case Transfer(most) =>
        interrupted := false;
        got := Least(Least(AtLeastOne(most), count), |incoming| - taken);
        for i := 0 to got
          modifies out
          invariant out[at..at + i] == incoming[taken..taken + i]
          invariant forall j :: 0 <= j < out.Length && !(at <= j < at + i) ==> out[j] == old(out[j])
        {
          out[at + i] := incoming[taken + i];
          assert out[at..at + i + 1] == out[at..at + i] + [incoming[taken + i]];
          assert incoming[taken..taken + i + 1] == incoming[taken..taken + i] + [incoming[taken + i]];
        }
        assert incoming[taken..] == incoming[taken..taken + got] + incoming[taken + got..];
        taken := taken + got;
    }

    /** `::send` of `data[from..]`. */
    method Send(data: bytes, from: nat) returns (wrote: int, interrupted: bool)
      requires Valid() && from < |data|
      modifies this`sent, this`replies
      ensures Valid() && from + wrote <= |data| && (wrote >= 0 ==> !interrupted && wrote > 0)
      ensures old(Calm()) ==> Calm() && (wrote < 0 ==> interrupted)
      ensures sent == old(sent) + (if wrote > 0 then data[from..from + wrote] else [])
      ensures |replies| <= |old(replies)| && (interrupted ==> |replies| < |old(replies)|)
    {
      var r := NextReply();
      match r
      case Interrupted => wrote, interrupted := -1, true;
      case Broken => wrote, interrupted := -1, false;
      case Shut => wrote, interrupted := -1, false;
      case Transfer(most) =>
        interrupted := false;
        wrote := Least(AtLeastOne(most), |data| - from);
        sent := sent + data[from..from + wrote];
    }
  }

  datatype ReadResult = ReadOk | PeerClosed | ReadFailed

  /** `read_exactly`. */
  method ReadExactly(conn: Connection, out: array<byte>, count: nat, stop: StopFlag) returns (r: ReadResult)
    requires conn.Valid() && count <= out.Length
    modifies conn`taken, conn`replies, out, stop
    ensures conn.Valid() && (old(conn.Calm()) ==> conn.Calm()) && (old(stop.Set()) ==> stop.Set())
    ensures r.ReadOk? ==> old(conn.Rest()) == out[..count] + conn.Rest()
    ensures |conn.replies| + |conn.Rest()| <= |old(conn.replies)| + |old(conn.Rest())|
    ensures r.PeerClosed? ==> conn.Rest() == old(conn.Rest())
    ensures old(conn.Calm()) && !stop.Set() ==> (r.ReadOk? <==> |old(conn.Rest())| >= count)
    ensures old(conn.Calm()) && !stop.Set() ==> (r.PeerClosed? <==> count > 0 && old(conn.Rest()) == [])
  {
    var filled := 0;
    ghost var all := conn.Rest();
    assert all == out[..0] + conn.Rest();
    while filled < count
      invariant 0 <= filled <= count && conn.Valid() && all == out[..filled] + conn.Rest()
      invariant old(conn.Calm()) ==> conn.Calm()
      invariant old(stop.Set()) ==> stop.Set()
      invariant |conn.replies| + |conn.Rest()| <= |old(conn.replies)| + |old(conn.Rest())|
      decreases |conn.replies| + |conn.Rest()|
    {
      ghost var front := out[..filled];
      var got, interrupted := conn.Read(out, filled, count - filled);
      assert out[..filled] == front;
      if got == 0 {
        return if filled == 0 then PeerClosed else ReadFailed;
      }
      if got < 0 {
        if interrupted {
          var stopping := stop.Load();
          if !stopping {
            continue;
          }
        }
        return ReadFailed;
      }
      assert out[..filled + got] == front + out[filled..filled + got];
      Assoc(front, out[filled..filled + got], conn.Rest());
      filled := filled + got;
    }
    return ReadOk;
  }

  /** `send_frame`: the bytes go out once and in order; after a failure, only the first few of them have. */
  method SendFrame(conn: Connection, frame: bytes, stop: StopFlag) returns (ok: bool, ghost count: nat)
    requires conn.Valid()
    modifies conn`sent, conn`replies, stop
    ensures conn.Valid() && (old(conn.Calm()) ==> conn.Calm()) && (old(stop.Set()) ==> stop.Set())
    ensures count <= |frame| && conn.sent == old(conn.sent) + frame[..count] && (ok <==> count == |frame|)
    ensures |conn.replies| <= |old(conn.replies)|
    ensures old(conn.Calm()) && !stop.Set() ==> ok
  {
    var sent := 0;
    assert frame[..0] == [];
    while sent < |frame|
      invariant 0 <= sent <= |frame| && conn.Valid() && conn.sent == old(conn.sent) + frame[..sent]
      invariant old(conn.Calm()) ==> conn.Calm()
      invariant old(stop.Set()) ==> stop.Set()
      invariant |conn.replies| <= |old(conn.replies)|
      decreases |frame| - sent, |conn.replies|
    {
      var wrote, interrupted := conn.Send(frame, sent);
      if wrote < 0 {
        if interrupted {
          var stopping := stop.Load();
          if !stopping {
            continue;
          }
        }
        return false, sent;
      }
      assert frame[..sent + wrote] == frame[..sent] + frame[sent..sent + wrote];
      sent := sent + wrote;
    }
    return true, |frame|;
  }
}
