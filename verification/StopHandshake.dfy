/** `stop()` against the serving thread of src/executor.cpp, interleaved at every load, store and system call. */
module StopHandshake {
  import opened Bytes

  /** Where the serving thread is; `fd` is the connection it holds. */
  datatype Serving =
    | Entry                                            // about to load the flag in `serve_one_connection`
    | Polling                                          // in `poll`
    | PollInterrupted                                  // EINTR, about to load the flag
    | PollReturned(woken: bool, peer: bool)            // about to look at the pipe and the flag
    | Accepting                                        // in `accept`
    | AcceptFailed(interrupted: bool)                  // about to load the flag
    | Accepted(fd: nat)                                // about to store `connection_fd_`
    | LoopHead(fd: nat)                                // about to load the flag in `serve_connection`
    | Reading(fd: nat)                                 // in `read`
    | ReadInterrupted(fd: nat)
    | Sending(fd: nat)                                 // in `send`
    | SendInterrupted(fd: nat)
    | Firing(fd: nat)                                  // the ack is out; recording and firing
    | Leaving(fd: nat)                                 // about to store -1 in `connection_fd_`
    | Closing(fd: nat)                                 // about to close the descriptor
    | Exit                                             // about to load the flag for the result
    | Returned

  datatype Stopping =
    | NotCalled | Called | FlagStored | PipeWritten | FdLoaded(fd: Option<nat>) | Done

  datatype State = State(
    serving: Serving, stopping: Stopping,
    flag: bool, connectionFd: Option<nat>, pipe: nat,
    // The kernel: peers waiting to be accepted; for the open connection, unread bytes and its two ends.
    waiting: nat, unread: nat, shut: bool, peerClosed: bool)

  datatype Step =
    | ServerStep(choice: Choice)
    | StopStep
    | PeerConnects | PeerSends | PeerCloses

  /** What the kernel does with a system call, where it has a choice. */
  datatype Choice = Proceed(fd: nat, whole: bool) | Interrupt | Fail

  predicate HoldsConnection(p: Serving) {
    p.LoopHead? || p.Reading? || p.ReadInterrupted? || p.Sending? || p.SendInterrupted? || p.Firing? || p.Leaving? || p.Closing?
      || p.Accepted?
  }

  /** The thread is inside the loop of `serve_connection`, past the load at its head. */
  predicate Busy(p: Serving) {
    p.Reading? || p.ReadInterrupted? || p.Sending? || p.SendInterrupted? || p.Firing?
  }

  /** A system call that is sure to return. `poll` needs a byte in the pipe or a peer, `accept` a peer, `read` data or
      an end of the stream; `send` to a peer that may have stopped reading needs an end of the stream. */
  predicate Wakes(s: State) {
    match s.serving
    case Polling => s.pipe > 0 || s.waiting > 0
    case Accepting => s.waiting > 0
    case Reading(_) => s.shut || s.peerClosed || s.unread > 0
    case Sending(_) => s.shut || s.peerClosed
    case _ => true
  }

  predicate CanStep(s: State, step: Step) {
    match step
    case ServerStep(choice) => (
      match s.serving
      case Returned => false
      case Polling => choice.Interrupt? || choice.Fail? || (choice.Proceed? && Wakes(s))
      case Accepting => choice.Interrupt? || choice.Fail? || (choice.Proceed? && s.waiting > 0)
      case Reading(_) => choice.Interrupt? || choice.Fail? || (choice.Proceed? && Wakes(s))
      case Sending(_) => choice.Interrupt? || choice.Fail? || (choice.Proceed? && !s.shut)
      case _ => choice.Proceed?)
    case StopStep => !s.stopping.Done?
    case PeerConnects => true
    case PeerSends => HoldsConnection(s.serving) && !s.shut && !s.peerClosed
    case PeerCloses => HoldsConnection(s.serving)
  }

  function ServerNext(s: State, choice: Choice): (t: State)
    requires CanStep(s, ServerStep(choice))
  {
    match s.serving
    case Entry => s.(serving := if s.flag then Returned else Polling)
    case Polling =>
      s.(serving := if choice.Fail? then Returned else if choice.Interrupt? then PollInterrupted
        else PollReturned(s.pipe > 0, s.waiting > 0))
    case PollInterrupted => s.(serving := if s.flag then Returned else Polling)
    case PollReturned(woken, peer) =>
      s.(serving := if woken || s.flag then Returned else if peer then Accepting else Polling)
    case Accepting =>
      if choice.Proceed? then
        s.(serving := Accepted(choice.fd), waiting := s.waiting - 1, unread := 0, shut := false, peerClosed := false)
      else s.(serving := AcceptFailed(choice.Interrupt?))
    case AcceptFailed(interrupted) => s.(serving := if !s.flag && interrupted then Entry else Returned)
    case Accepted(fd) => s.(serving := LoopHead(fd), connectionFd := Some(fd))
    case LoopHead(fd) => s.(serving := if s.flag then Leaving(fd) else Reading(fd))
    case Reading(fd) =>
      if choice.Interrupt? then s.(serving := ReadInterrupted(fd))
      else if choice.Fail? || s.unread == 0 then s.(serving := Leaving(fd))
      else s.(serving := if choice.whole then Sending(fd) else Reading(fd), unread := s.unread - 1)
    case ReadInterrupted(fd) => s.(serving := if s.flag then Leaving(fd) else Reading(fd))
    case Sending(fd) =>
      if choice.Interrupt? then s.(serving := SendInterrupted(fd))
      else if choice.Fail? || s.peerClosed then s.(serving := Leaving(fd))
      else s.(serving := if choice.whole then Firing(fd) else Sending(fd))
    case SendInterrupted(fd) => s.(serving := if s.flag then Leaving(fd) else Sending(fd))
    case Firing(fd) => s.(serving := LoopHead(fd))
    case Leaving(fd) => s.(serving := Closing(fd), connectionFd := None)
    case Closing(fd) => s.(serving := Exit)
    case Exit => s.(serving := if s.flag then Returned else Entry)
  }

  /** `shutdown` acts on whatever connection has that number by then, if any. */
  function AfterShutdown(s: State, fd: Option<nat>): (t: State) {
    if fd.Some? && HoldsConnection(s.serving) && s.serving.fd == fd.value then s.(shut := true) else s
  }

  function StopNext(s: State): (t: State)
    requires !s.stopping.Done?
  {
    match s.stopping
    case NotCalled => s.(stopping := Called)
    case Called => s.(stopping := FlagStored, flag := true)
    case FlagStored => s.(stopping := PipeWritten, pipe := s.pipe + 1)
    case PipeWritten => s.(stopping := FdLoaded(s.connectionFd))
    case FdLoaded(fd) => AfterShutdown(s, fd).(stopping := Done)
  }

  function Next(s: State, step: Step): (t: State)
    requires CanStep(s, step)
  {
    match step
    case ServerStep(choice) => ServerNext(s, choice)
    case StopStep => StopNext(s)
    case PeerConnects => s.(waiting := s.waiting + 1)
    case PeerSends => s.(unread := s.unread + 1)
    case PeerCloses => s.(peerClosed := true)
  }

  predicate Init(s: State) {
    s.serving.Entry? && s.stopping.NotCalled? && !s.flag && s.connectionFd.None? && s.pipe == 0 && s.unread == 0
    && !s.shut && !s.peerClosed
  }

  // ------------------------------------------------------------------ invariant

  predicate FlagFollows(s: State) {
    && (s.flag <==> !s.stopping.NotCalled? && !s.stopping.Called?)
    && (s.stopping.PipeWritten? || s.stopping.FdLoaded? || s.stopping.Done? ==> s.pipe > 0)
    && (s.pipe > 0 ==> s.flag) && (s.serving.PollReturned? && s.serving.woken ==> s.flag)
  }

  /** While the thread is busy its connection is published, so a stop that has loaded the descriptor has this one. */
  predicate Published(s: State) {
    && (Busy(s.serving) || s.serving.LoopHead? || s.serving.Leaving? ==> s.connectionFd == Some(s.serving.fd))
    && (Busy(s.serving) && s.stopping.FdLoaded? ==> s.stopping.fd == Some(s.serving.fd))
    && (Busy(s.serving) && s.stopping.Done? ==> s.shut)
  }

  /** A peer that `poll` has seen is still there for `accept`. */
  predicate PeerStays(s: State) {
    s.serving.Accepting? || (s.serving.PollReturned? && s.serving.peer) ==> s.waiting > 0
  }

  predicate Inv(s: State) {
    FlagFollows(s) && Published(s) && PeerStays(s)
  }

  lemma InitHolds(s: State)
    requires Init(s)
    ensures Inv(s)
  {
  }

  lemma ServerKeeps(s: State, choice: Choice)
    requires Inv(s) && CanStep(s, ServerStep(choice))
    ensures Inv(ServerNext(s, choice))
  {
    hide Published;
    ServerKeepsPublished(s, choice);
  }

  lemma ServerKeepsPublished(s: State, choice: Choice)
    requires Inv(s) && CanStep(s, ServerStep(choice))
    ensures Published(ServerNext(s, choice))
  {
  }

  lemma StopKeeps(s: State)
    requires Inv(s) && !s.stopping.Done?
    ensures Inv(StopNext(s))
  {
  }

  lemma StepKeeps(s: State, step: Step)
    requires Inv(s) && CanStep(s, step)
    ensures Inv(Next(s, step))
  {
    match step
    case ServerStep(choice) => ServerKeeps(s, choice);
    case StopStep => StopKeeps(s);
    case PeerConnects =>
    case PeerSends =>
    case PeerCloses =>
  }

  ghost predicate Run(s: State, steps: seq<Step>, t: State)
    decreases |steps|
  {
    if steps == [] then s == t else CanStep(s, steps[0]) && Run(Next(s, steps[0]), steps[1..], t)
  }

  lemma {:induction false} RunKeeps(s: State, steps: seq<Step>, t: State)
    requires Inv(s) && Run(s, steps, t)
    ensures Inv(t)
    decreases |steps|
  {
    hide Inv, CanStep, Next;
    if steps != [] {
      StepKeeps(s, steps[0]);
      RunKeeps(Next(s, steps[0]), steps[1..], t);
    }
  }

  /** No lost wakeup: once `stop()` has returned, no call the server sits in can stay blocked, whatever the
      interleaving was. */
  lemma NoLostWakeup(s: State, steps: seq<Step>, t: State)
    requires Init(s) && Run(s, steps, t) && t.stopping.Done?
    ensures Wakes(t)
    ensures t.serving.Polling? ==> t.pipe > 0
    ensures t.serving.Reading? || t.serving.Sending? ==> t.shut
  {
    InitHolds(s);
    RunKeeps(s, steps, t);
  }

  /** A call of the server that has failed for good. */
  predicate FailedCall(s: State, choice: Choice) {
    || (s.serving.Polling? && choice.Fail?)
    || (s.serving.AcceptFailed? && !s.serving.interrupted)
  }

  /** The server returns only when a stop has been asked for, or when waiting for a peer failed. */
  lemma ReturnsOnlyForCause(s: State, choice: Choice)
    requires Inv(s) && CanStep(s, ServerStep(choice)) && ServerNext(s, choice).serving.Returned?
    ensures s.flag || FailedCall(s, choice)
  {
  }

  /** It gives up a connection only when a stop has been asked for, when a call failed, or at the end of the stream. */
  lemma LeavesOnlyForCause(s: State, choice: Choice)
    requires CanStep(s, ServerStep(choice)) && ServerNext(s, choice).serving.Leaving?
    ensures || s.flag
      || ((s.serving.Reading? || s.serving.Sending?) && choice.Fail?)
      || (s.serving.Reading? && s.unread == 0 && (s.shut || s.peerClosed))
      || (s.serving.Sending? && s.peerClosed)
  {
  }

  /** As long as no stop has been asked for, a peer that is waiting is accepted and its connection served: the steps
      from the entry to the first read, and from a finished connection back to the entry. */
  lemma ServesWhileNotStopped(s: State, fd: nat)
    requires Inv(s) && !s.flag
    ensures var p := Proceed(fd, true);
      && (s.serving.Entry? ==> ServerNext(s, p).serving.Polling?)
      && (s.serving.Polling? && s.waiting > 0 ==> ServerNext(s, p).serving == PollReturned(false, true))
      && (s.serving == PollReturned(false, true) ==> ServerNext(s, p).serving.Accepting?)
      && (s.serving.Accepting? ==> ServerNext(s, p).serving == Accepted(fd))
      && (s.serving == Accepted(fd) ==> ServerNext(s, p).serving == LoopHead(fd))
      && (s.serving == LoopHead(fd) ==> ServerNext(s, p).serving == Reading(fd))
      && (s.serving == Leaving(fd) ==> ServerNext(s, p).serving == Closing(fd))
      && (s.serving == Closing(fd) ==> ServerNext(s, p).serving.Exit?)
      && (s.serving.Exit? ==> ServerNext(s, p).serving.Entry?)
  {
  }

  // ---------------------------------------------------------------- termination

  /** How many server steps are left after a stop. */
  function Rank(s: State): (n: nat) {
    match s.serving
    case Returned => 0
    case Entry | Exit | AcceptFailed(_) | PollInterrupted => 1
    case Closing(_) => 2
    case Leaving(_) => 3
    case LoopHead(_) | ReadInterrupted(_) | SendInterrupted(_) => 4
    case Accepted(_) | Firing(_) => 5
    case Accepting | Sending(_) => 6
    case PollReturned(_, _) => 7
    case Polling => 8
    case Reading(_) => 7 + s.unread
  }

  /** After a stop every server step brings the return nearer, a peer cannot push it back, and there is always one
      more step until the server has returned. */
  lemma StopMakesProgress(s: State, step: Step)
    requires Inv(s) && s.stopping.Done? && CanStep(s, step)
    ensures Next(s, step).stopping.Done?
    ensures step.ServerStep? ==> Rank(Next(s, step)) < Rank(s)
    ensures !step.ServerStep? ==> Rank(Next(s, step)) == Rank(s)
  {
  }

  lemma ServerNotStuck(s: State) returns (choice: Choice)
    requires Inv(s) && s.stopping.Done? && !s.serving.Returned?
    ensures Wakes(s) && CanStep(s, ServerStep(choice)) && (choice.Proceed? || (choice.Fail? && s.shut))
  {
    choice := if s.serving.Sending? then Fail else Proceed(0, false);
  }

  function ServerSteps(steps: seq<Step>): (n: nat) {
    if steps == [] then 0 else (if steps[0].ServerStep? then 1 else 0) + ServerSteps(steps[1..])
  }

  /** The server takes a bounded number of steps after a stop, so `serve_forever` returns. */
  lemma {:induction false} ServerReturns(s: State, steps: seq<Step>, t: State)
    requires Inv(s) && s.stopping.Done? && Run(s, steps, t)
    ensures ServerSteps(steps) + Rank(t) <= Rank(s)
    ensures (forall choice :: !CanStep(t, ServerStep(choice))) ==> t.serving.Returned?
    decreases |steps|
  {
    hide Inv, CanStep, Next, Rank;
    if steps == [] {
      if !t.serving.Returned? {
        var choice := ServerNotStuck(t);
      }
    } else {
      StepKeeps(s, steps[0]);
      StopMakesProgress(s, steps[0]);
      ServerReturns(Next(s, steps[0]), steps[1..], t);
    }
  }
}
