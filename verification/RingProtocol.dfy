/** Producer and consumer of include/hotpath/spsc_ring.hpp, interleaved at every load and store.
    An atomic is the list of its writes; an acquire load may return any write no older than the last one that
    thread knows of. Rows are copied word by word, so a torn copy would show. */
module RingProtocol {
  import opened RingIndex

  type Row<W> = seq<W>

  datatype Producer<W> =
    | PIdle
    | PReload(row: Row<W>)                  // full by the cached tail, about to load the tail
    | PWrite(row: Row<W>, done: nat)        // copying the row, then the release store

  datatype Consumer<W> =
    | CIdle
    | CReload                               // empty by the cached head, about to load the head
    | CRead(got: Row<W>)                    // copying the row, then the release store

  datatype State<W> = State(
    capacity: nat, width: nat, slots: seq<Row<W>>,
    headWrites: seq<nat>, tailWrites: seq<nat>,
    tailCache: nat, headCache: nat,
    // The oldest write of the other side's counter that this side may still load.
    tailSeen: nat, headSeen: nat,
    producer: Producer<W>, consumer: Consumer<W>,
    // History: where the caches came from, and the rows whose calls returned true.
    cachedTail: nat, cachedHead: nat, pushed: seq<Row<W>>, popped: seq<Row<W>>)

  datatype Action<W> =
    | PushStart(row: Row<W>) | PushReload(at: nat) | PushWord | PushPublish
    | PopStart | PopReload(at: nat) | PopWord | PopPublish
    | PushSize(at: nat) | PopSize(at: nat)
    | LearnTail(at: nat) | LearnHead(at: nat)     // synchronisation through some other atomic

  datatype Event<W> =
    | Quiet | Pushed(row: Row<W>) | PushRefused | Popped(row: Row<W>) | PopRefused | Sized(n: nat)

  predicate Started<W>(s: State<W>) {
    |s.headWrites| >= 1 && |s.tailWrites| >= 1 && s.capacity >= 2
  }

  /** Each side loads its own counter, so it sees the newest write. */
  function Head<W>(s: State<W>): (h: nat) requires Started(s) { s.headWrites[|s.headWrites| - 1] }
  function Tail<W>(s: State<W>): (t: nat) requires Started(s) { s.tailWrites[|s.tailWrites| - 1] }

  predicate Loadable(seen: nat, writes: seq<nat>, at: nat) {
    seen <= at < |writes|
  }

  function WriteSlot<W>(s: State<W>): (i: nat) requires Started(s) { BitAnd(Head(s), s.capacity - 1) }
  function ReadSlot<W>(s: State<W>): (i: nat) requires Started(s) { BitAnd(Tail(s), s.capacity - 1) }

  predicate Enabled<W>(s: State<W>, a: Action<W>) {
    && Started(s)
    && match a {
      case PushStart(row) => s.producer.PIdle? && |row| == s.width
      case PushReload(at) => s.producer.PReload? && Loadable(s.tailSeen, s.tailWrites, at)
      case PushWord =>
        && s.producer.PWrite? && s.producer.done < s.width && |s.producer.row| == s.width
        && WriteSlot(s) < |s.slots| && |s.slots[WriteSlot(s)]| == s.width
      case PushPublish => s.producer.PWrite? && s.producer.done == s.width
      case PopStart => s.consumer.CIdle?
      case PopReload(at) => s.consumer.CReload? && Loadable(s.headSeen, s.headWrites, at)
      case PopWord =>
        && s.consumer.CRead? && |s.consumer.got| < s.width
        && ReadSlot(s) < |s.slots| && |s.slots[ReadSlot(s)]| == s.width
      case PopPublish => s.consumer.CRead? && |s.consumer.got| == s.width
      case PushSize(at) => s.producer.PIdle? && Loadable(s.tailSeen, s.tailWrites, at)
      case PopSize(at) => s.consumer.CIdle? && Loadable(s.headSeen, s.headWrites, at)
      case LearnTail(at) => Loadable(s.tailSeen, s.tailWrites, at)
      case LearnHead(at) => Loadable(s.headSeen, s.headWrites, at)
    }
  }

  /** `head - tail >= slots_.size()`. */
  predicate ShowsFull<W>(s: State<W>, tail: nat)
    requires Started(s)
  {
    WrapSub(Head(s), tail) >= s.capacity
  }

  function Apply<W>(s: State<W>, a: Action<W>): (t: State<W>)
    requires Enabled(s, a)
  {
    match a
    case PushStart(row) => s.(producer := if ShowsFull(s, s.tailCache) then PReload(row) else PWrite(row, 0))
    case PushReload(at) =>
      s.(tailCache := s.tailWrites[at], cachedTail := at, tailSeen := at,
         producer := if ShowsFull(s, s.tailWrites[at]) then PIdle else PWrite(s.producer.row, 0))
    case PushWord =>
      var i, k := WriteSlot(s), s.producer.done;
      s.(slots := s.slots[i := s.slots[i][k := s.producer.row[k]]], producer := PWrite(s.producer.row, k + 1))
    case PushPublish =>
      s.(headWrites := s.headWrites + [Wrap(Head(s) + 1)], pushed := s.pushed + [s.producer.row], producer := PIdle)
    case PopStart => s.(consumer := if Tail(s) == s.headCache then CReload else CRead([]))
    case PopReload(at) =>
      s.(headCache := s.headWrites[at], cachedHead := at, headSeen := at,
         consumer := if Tail(s) == s.headWrites[at] then CIdle else CRead([]))
    case PopWord =>
      s.(consumer := CRead(s.consumer.got + [s.slots[ReadSlot(s)][|s.consumer.got|]]))
    case PopPublish =>
      s.(tailWrites := s.tailWrites + [Wrap(Tail(s) + 1)], popped := s.popped + [s.consumer.got], consumer := CIdle)
    case PushSize(at) => s.(tailSeen := at)
    case PopSize(at) => s.(headSeen := at)
    case LearnTail(at) => s.(tailSeen := at)
    case LearnHead(at) => s.(headSeen := at)
  }

  /** What the calls return. */
  function Observed<W>(s: State<W>, a: Action<W>): (e: Event<W>)
    requires Enabled(s, a)
  {
    match a
    case PushReload(at) => if ShowsFull(s, s.tailWrites[at]) then PushRefused else Quiet
    case PushPublish => Pushed(s.producer.row)
    case PopReload(at) => if Tail(s) == s.headWrites[at] then PopRefused else Quiet
    case PopPublish => Popped(s.consumer.got)
    case PushSize(at) => Sized(WrapSub(Head(s), s.tailWrites[at]))
    case PopSize(at) => Sized(WrapSub(s.headWrites[at], Tail(s)))
    case _ => Quiet
  }

  ghost predicate Init<W>(s: State<W>) {
    && IsCapacity(s.capacity) && s.capacity >= 2 && |s.slots| == s.capacity
    && (forall i :: 0 <= i < |s.slots| ==> |s.slots[i]| == s.width)
    && s.headWrites == [0] && s.tailWrites == [0] && s.tailCache == 0 && s.headCache == 0
    && s.tailSeen == 0 && s.headSeen == 0 && s.producer == PIdle && s.consumer == CIdle
    && s.cachedTail == 0 && s.cachedHead == 0 && s.pushed == [] && s.popped == []
  }

  // ---------------------------------------------------------------- invariant

  /** tail_cache <= tail <= head_cache <= head <= tail_cache + capacity, unwrapped. */
  ghost predicate Ordered<W>(s: State<W>) {
    && s.cachedTail <= s.tailSeen <= |s.popped| <= s.cachedHead <= s.headSeen <= |s.pushed|
    && |s.pushed| <= s.cachedTail + s.capacity
  }

  /** The counters are the unbounded ones, wrapped. */
  ghost predicate Counting<W>(s: State<W>) {
    && |s.headWrites| == |s.pushed| + 1 && (forall i :: 0 <= i < |s.headWrites| ==> s.headWrites[i] == Wrap(i))
    && |s.tailWrites| == |s.popped| + 1 && (forall i :: 0 <= i < |s.tailWrites| ==> s.tailWrites[i] == Wrap(i))
    && s.tailCache == Wrap(s.cachedTail) && s.headCache == Wrap(s.cachedHead)
  }

  ghost predicate Shaped<W>(s: State<W>) {
    && IsCapacity(s.capacity) && s.capacity >= 2 && |s.slots| == s.capacity
    && (forall i :: 0 <= i < |s.slots| ==> |s.slots[i]| == s.width)
    && (forall i :: 0 <= i < |s.pushed| ==> |s.pushed[i]| == s.width)
  }

  ghost predicate Fifo<W>(s: State<W>) {
    |s.popped| <= |s.pushed| && s.popped == s.pushed[..|s.popped|]
  }

  /** Every row not yet popped is in its slot. */
  ghost predicate Stored<W>(s: State<W>) {
    && s.capacity >= 1 && |s.slots| == s.capacity
    && forall i :: |s.popped| <= i < |s.pushed| ==> s.slots[Slot(i, s.capacity)] == s.pushed[i]
  }

  ghost predicate ProducerHolds<W>(s: State<W>) {
    match s.producer
    case PIdle => true
    case PReload(row) => |row| == s.width && |s.pushed| == s.cachedTail + s.capacity
    case PWrite(row, done) =>
      && |row| == s.width && done <= s.width && |s.pushed| < s.cachedTail + s.capacity
      && s.capacity >= 1 && |s.slots| == s.capacity && |s.slots[Slot(|s.pushed|, s.capacity)]| == s.width
      && s.slots[Slot(|s.pushed|, s.capacity)][..done] == row[..done]
  }

  ghost predicate ConsumerHolds<W>(s: State<W>) {
    match s.consumer
    case CIdle => true
    case CReload => |s.popped| == s.cachedHead
    case CRead(got) =>
      && |s.popped| < s.cachedHead <= |s.pushed| && |s.pushed[|s.popped|]| == s.width
      && |got| <= s.width && got == s.pushed[|s.popped|][..|got|]
  }

  ghost predicate Inv<W>(s: State<W>) {
    && Shaped(s) && Ordered(s) && Counting(s) && Fifo(s) && Stored(s) && ProducerHolds(s) && ConsumerHolds(s)
  }

  /** A ring of two slots can start. */
  lemma CanStart<W>(empty: Row<W>) returns (s: State<W>)
    ensures Init(s) && s.width == |empty|
  {
    s := State(2, |empty|, [empty, empty], [0], [0], 0, 0, 0, 0, PIdle, CIdle, 0, 0, [], []);
    Pow2One();
  }

  lemma InitHolds<W>(s: State<W>)
    requires Init(s)
    ensures Inv(s)
  {
  }

  /** What the invariant says of the machine words. */
  lemma Words<W>(s: State<W>)
    requires Inv(s)
    ensures Started(s) && Head(s) == Wrap(|s.pushed|) && Tail(s) == Wrap(|s.popped|)
    ensures WriteSlot(s) == Slot(|s.pushed|, s.capacity) && ReadSlot(s) == Slot(|s.popped|, s.capacity)
    ensures Wrap(Head(s) + 1) == Wrap(|s.pushed| + 1) && Wrap(Tail(s) + 1) == Wrap(|s.popped| + 1)
    ensures forall at :: s.cachedTail <= at <= |s.popped| ==> WrapSub(Head(s), Wrap(at)) == |s.pushed| - at
    ensures forall at :: |s.popped| <= at <= |s.pushed| ==>
      WrapSub(Wrap(at), Tail(s)) == at - |s.popped| && (Wrap(at) == Tail(s) <==> at == |s.popped|)
  {
    hide Wrap, WrapSub, Slot, BitAnd, IsCapacity, Stored, ProducerHolds, ConsumerHolds, Fifo;
    var m := CapacityDivides(s.capacity);
    MaskedSlot(|s.pushed|, s.capacity);
    MaskedSlot(|s.popped|, s.capacity);
    WrappedSuccessor(|s.pushed|);
    WrappedSuccessor(|s.popped|);
    forall at | s.cachedTail <= at <= |s.popped|
      ensures WrapSub(Head(s), Wrap(at)) == |s.pushed| - at
    {
      WrappedDifference(|s.pushed|, at);
    }
    forall at | |s.popped| <= at <= |s.pushed|
      ensures WrapSub(Wrap(at), Tail(s)) == at - |s.popped| && (Wrap(at) == Tail(s) <==> at == |s.popped|)
    {
      WrappedDifference(at, |s.popped|);
      WrappedEqual(at, |s.popped|);
    }
  }

  /** The slot being written is not the slot being read, nor any slot that holds a row. */
  lemma WriteSlotIsFree<W>(s: State<W>)
    requires Inv(s) && s.producer.PWrite?
    ensures forall i :: |s.popped| <= i < |s.pushed| ==> Slot(i, s.capacity) != Slot(|s.pushed|, s.capacity)
  {
    forall i | |s.popped| <= i < |s.pushed|
      ensures Slot(i, s.capacity) != Slot(|s.pushed|, s.capacity)
    {
      SlotsDiffer(i, |s.pushed|, s.capacity);
    }
  }

  lemma NoRace<W>(s: State<W>)
    requires Inv(s) && s.producer.PWrite? && s.consumer.CRead?
    ensures Started(s) && WriteSlot(s) != ReadSlot(s)
  {
    hide Slot, IsCapacity;
    Words(s);
    WriteSlotIsFree(s);
  }

  // ------------------------------------------------------------ every step

  lemma StepHolds<W>(s: State<W>, a: Action<W>)
    requires Inv(s) && Enabled(s, a)
    ensures Inv(Apply(s, a))
  {
    hide Inv, Apply;
    match a
    case PushStart(row) => PushStartHolds(s, a);
    case PushReload(at) => PushReloadHolds(s, a);
    case PushWord => PushWordHolds(s, a);
    case PushPublish => PushPublishHolds(s, a);
    case PopStart => PopStartHolds(s, a);
    case PopReload(at) => PopReloadHolds(s, a);
    case PopWord => PopWordHolds(s, a);
    case PopPublish => PopPublishHolds(s, a);
    case PushSize(at) => LookHolds(s, a);
    case PopSize(at) => LookHolds(s, a);
    case LearnTail(at) => LookHolds(s, a);
    case LearnHead(at) => LookHolds(s, a);
  }

  lemma PushStartHolds<W>(s: State<W>, a: Action<W>)
    requires Inv(s) && Enabled(s, a) && a.PushStart?
    ensures Inv(Apply(s, a))
  {
    hide Wrap, WrapSub, Slot, BitAnd, IsCapacity;
    Words(s);
  }

  lemma PushReloadHolds<W>(s: State<W>, a: Action<W>)
    requires Inv(s) && Enabled(s, a) && a.PushReload?
    ensures Inv(Apply(s, a))
  {
    hide Wrap, WrapSub, Slot, BitAnd, IsCapacity;
    Words(s);
  }

  lemma PushWordHolds<W>(s: State<W>, a: Action<W>)
    requires Inv(s) && Enabled(s, a) && a.PushWord?
    ensures Inv(Apply(s, a))
  {
    hide Wrap, WrapSub, Slot, BitAnd, IsCapacity;
    Words(s);
    WriteSlotIsFree(s);
    var i, k := Slot(|s.pushed|, s.capacity), s.producer.done;
    assert s.slots[i][k := s.producer.row[k]][..k + 1] == s.slots[i][..k] + [s.producer.row[k]];
  }

  lemma PushPublishHolds<W>(s: State<W>, a: Action<W>)
    requires Inv(s) && Enabled(s, a) && a.PushPublish?
    ensures Inv(Apply(s, a))
  {
    hide Wrap, WrapSub, Slot, BitAnd, IsCapacity;
    Words(s);
    var i := Slot(|s.pushed|, s.capacity);
    assert s.slots[i] == s.slots[i][..s.width] && s.producer.row == s.producer.row[..s.width];
  }

  lemma PopStartHolds<W>(s: State<W>, a: Action<W>)
    requires Inv(s) && Enabled(s, a) && a.PopStart?
    ensures Inv(Apply(s, a))
  {
    hide Wrap, WrapSub, Slot, BitAnd, IsCapacity;
    Words(s);
  }

  lemma PopReloadHolds<W>(s: State<W>, a: Action<W>)
    requires Inv(s) && Enabled(s, a) && a.PopReload?
    ensures Inv(Apply(s, a))
  {
    hide Wrap, WrapSub, Slot, BitAnd, IsCapacity;
    Words(s);
  }

  lemma PopWordHolds<W>(s: State<W>, a: Action<W>)
    requires Inv(s) && Enabled(s, a) && a.PopWord?
    ensures Inv(Apply(s, a))
  {
    hide Wrap, WrapSub, BitAnd, IsCapacity;
    Words(s);
    var row, k := s.pushed[|s.popped|], |s.consumer.got|;
    assert s.slots[Slot(|s.popped|, s.capacity)] == row;
    assert row[..k + 1] == row[..k] + [row[k]];
  }

  lemma PopPublishHolds<W>(s: State<W>, a: Action<W>)
    requires Inv(s) && Enabled(s, a) && a.PopPublish?
    ensures Inv(Apply(s, a))
  {
    hide Wrap, WrapSub, Slot, BitAnd, IsCapacity;
    Words(s);
    var row := s.pushed[|s.popped|];
    assert row[..s.width] == row;
    assert s.pushed[..|s.popped| + 1] == s.popped + [row];
  }

  lemma LookHolds<W>(s: State<W>, a: Action<W>)
    requires Inv(s) && Enabled(s, a) && (a.PushSize? || a.PopSize? || a.LearnTail? || a.LearnHead?)
    ensures Inv(Apply(s, a))
  {
    hide Wrap, WrapSub, Slot, BitAnd, IsCapacity;
  }

  // ------------------------------------------------- what the calls may return

  /** The rows pushed and not yet popped. */
  function Queue<W>(s: State<W>): (q: seq<Row<W>>)
    requires |s.popped| <= |s.pushed|
  {
    s.pushed[|s.popped|..]
  }

  /** A refusal names a loaded index that shows the ring full or empty; nothing else is refused. */
  lemma RefusalShows<W>(s: State<W>, a: Action<W>)
    requires Inv(s) && Enabled(s, a)
    ensures Observed(s, a).PushRefused? <==> a.PushReload? && |s.pushed| - a.at == s.capacity
    ensures Observed(s, a).PopRefused? <==> a.PopReload? && a.at == |s.popped|
  {
    hide Wrap, WrapSub, BitAnd, IsCapacity, Stored, Fifo, Shaped;
    Words(s);
  }

  /** The load returns the newest write, as under sequential consistency. */
  predicate Newest<W>(s: State<W>, a: Action<W>) {
    match a
    case PushReload(at) => at + 1 == |s.tailWrites|
    case PopReload(at) => at + 1 == |s.headWrites|
    case _ => true
  }

  /** `size()` on either thread. */
  lemma SizeInRange<W>(s: State<W>, a: Action<W>)
    requires Inv(s) && Enabled(s, a) && Observed(s, a).Sized?
    ensures 0 <= Observed(s, a).n <= s.capacity
    ensures a == PopSize(|s.pushed|) || a == PushSize(|s.popped|) ==> Observed(s, a).n == |Queue(s)|
  {
    hide Wrap, WrapSub, BitAnd, IsCapacity, Stored, Fifo, ProducerHolds, ConsumerHolds;
    Words(s);
  }

  /** A third thread subtracts some write of the tail from some write of the head: the answer is in range exactly
      when the head it saw is, but for whole turns of the counters, at the tail it saw or at most a ring ahead. Within
      one turn that means the tail is not ahead of the head, nor a whole ring behind. */
  lemma ThirdPartySize<W>(s: State<W>, h: nat, t: nat)
    requires Inv(s) && h < |s.headWrites| && t < |s.tailWrites|
    ensures WrapSub(s.headWrites[h], s.tailWrites[t]) <= s.capacity <==>
      exists k: int :: t + Turns(k) <= h <= t + Turns(k) + s.capacity
    ensures h - t < WORD && t - h < WORD - s.capacity ==>
      (WrapSub(s.headWrites[h], s.tailWrites[t]) <= s.capacity <==> t <= h <= t + s.capacity)
  {
    hide IsCapacity, Stored, Fifo, ProducerHolds, ConsumerHolds, Slot, BitAnd, Wrap, WrapSub, Turns;
    var m := CapacityDivides(s.capacity);
    WrappedWithin(h, t, s.capacity);
    if h - t < WORD && t - h < WORD - s.capacity {
      if t <= h {
        WrappedDifference(h, t);
      } else {
        WrappedBehind(h, t);
      }
    }
  }

  // ----------------------------------------------------------------- whole runs

  /** The state after a run of actions, each enabled where it is taken. */
  ghost predicate Run<W>(s: State<W>, actions: seq<Action<W>>, t: State<W>)
    decreases |actions|
  {
    if actions == [] then s == t
    else Enabled(s, actions[0]) && Run(Apply(s, actions[0]), actions[1..], t)
  }

  function Events<W>(s: State<W>, actions: seq<Action<W>>): (es: seq<Event<W>>)
    decreases |actions|
  {
    if actions == [] || !Enabled(s, actions[0]) then []
    else [Observed(s, actions[0])] + Events(Apply(s, actions[0]), actions[1..])
  }

  lemma {:induction false} RunHolds<W>(s: State<W>, actions: seq<Action<W>>, t: State<W>)
    requires Inv(s) && Run(s, actions, t)
    ensures Inv(t)
    decreases |actions|
  {
    hide Inv, Enabled, Apply;
    if actions != [] {
      StepHolds(s, actions[0]);
      RunHolds(Apply(s, actions[0]), actions[1..], t);
    }
  }

  /** A bounded queue with unbounded counters, which the ring must look like from outside. With `strict`, a
      refusal needs the queue to be full or empty at that moment. */
  ghost function QueueStep<W>(capacity: nat, q: seq<Row<W>>, e: Event<W>, strict: bool): (r: seq<seq<Row<W>>>) {
    match e
    case Quiet => [q]
    case Pushed(row) => if |q| < capacity then [q + [row]] else []
    case PushRefused => if strict && |q| != capacity then [] else [q]
    case Popped(row) => if q != [] && q[0] == row then [q[1..]] else []
    case PopRefused => if strict && q != [] then [] else [q]
    case Sized(n) => if n <= capacity then [q] else []
  }

  /** The queue accepts the events one after the other and ends as `r`. */
  ghost predicate QueueRun<W>(capacity: nat, q: seq<Row<W>>, es: seq<Event<W>>, strict: bool, r: seq<Row<W>>)
    decreases |es|
  {
    if es == [] then q == r
    else
      var n := QueueStep(capacity, q, es[0], strict);
      |n| == 1 && QueueRun(capacity, n[0], es[1..], strict, r)
  }

  ghost predicate AllNewest<W>(s: State<W>, actions: seq<Action<W>>)
    decreases |actions|
  {
    actions == [] || (Newest(s, actions[0]) && (Enabled(s, actions[0]) ==> AllNewest(Apply(s, actions[0]), actions[1..])))
  }

  lemma StepIsQueueStep<W>(s: State<W>, a: Action<W>, strict: bool)
    requires Inv(s) && Enabled(s, a) && (strict ==> Newest(s, a))
    ensures |s.popped| <= |s.pushed| && |Apply(s, a).popped| <= |Apply(s, a).pushed|
    ensures QueueStep(s.capacity, Queue(s), Observed(s, a), strict) == [Queue(Apply(s, a))]
  {
    hide Wrap, WrapSub, BitAnd, IsCapacity, Stored, Slot, ShowsFull;
    RefusalShows(s, a);
    if Observed(s, a).Sized? {
      SizeInRange(s, a);
    }
    if a.PushPublish? {
      assert (s.pushed + [s.producer.row])[|s.popped|..] == Queue(s) + [s.producer.row];
    }
    if a.PopPublish? {
      var row := s.pushed[|s.popped|];
      assert row[..s.width] == row;
      assert Queue(s)[0] == row && Queue(s)[1..] == s.pushed[|s.popped| + 1..];
    }
  }

  /** Every run of the ring is a run of the bounded queue, across any number of counter overflows. */
  lemma {:induction false} RingRefinesQueue<W>(s: State<W>, actions: seq<Action<W>>, t: State<W>, strict: bool)
    requires Inv(s) && Run(s, actions, t) && (strict ==> AllNewest(s, actions))
    ensures |s.popped| <= |s.pushed| && |t.popped| <= |t.pushed|
    ensures QueueRun(s.capacity, Queue(s), Events(s, actions), strict, Queue(t)) && t.capacity == s.capacity
    decreases |actions|
  {
    hide Enabled, Apply, Observed, QueueStep, Shaped, Counting, Stored, ProducerHolds, ConsumerHolds;
    if actions != [] {
      var u := Apply(s, actions[0]);
      StepHolds(s, actions[0]);
      StepIsQueueStep(s, actions[0], strict);
      CapacityKept(s, actions[0]);
      RingRefinesQueue(u, actions[1..], t, strict);
      assert Events(s, actions)[1..] == Events(u, actions[1..]);
    }
  }

  lemma CapacityKept<W>(s: State<W>, a: Action<W>)
    requires Enabled(s, a)
    ensures Apply(s, a).capacity == s.capacity && Apply(s, a).width == s.width
  {
  }

  /** From the start: order of the counters, first in first out, and no slot shared, in every reachable state. */
  lemma RingIsSafe<W>(s: State<W>, actions: seq<Action<W>>, t: State<W>)
    requires Init(s) && Run(s, actions, t)
    ensures t.cachedTail <= |t.popped| <= t.cachedHead <= |t.pushed| <= t.cachedTail + t.capacity
    ensures t.popped == t.pushed[..|t.popped|]
    ensures Started(t) && Head(t) == Wrap(|t.pushed|) && Tail(t) == Wrap(|t.popped|)
    ensures t.tailCache == Wrap(t.cachedTail) && t.headCache == Wrap(t.cachedHead)
    ensures t.producer.PWrite? && t.consumer.CRead? ==> WriteSlot(t) != ReadSlot(t)
    ensures QueueRun(t.capacity, [], Events(s, actions), false, Queue(t))
    ensures AllNewest(s, actions) ==> QueueRun(t.capacity, [], Events(s, actions), true, Queue(t))
  {
    hide Events, Run, QueueRun, AllNewest, Wrap, WrapSub, BitAnd, Slot, IsCapacity;
    InitHolds(s);
    RunHolds(s, actions, t);
    Words(t);
    assert Queue(s) == [];
    RingRefinesQueue(s, actions, t, false);
    if AllNewest(s, actions) {
      RingRefinesQueue(s, actions, t, true);
    }
    if t.producer.PWrite? && t.consumer.CRead? {
      NoRace(t);
    }
  }

  lemma RunSnoc<W>(s: State<W>, actions: seq<Action<W>>, t: State<W>, a: Action<W>)
    requires Run(s, actions, t) && Enabled(t, a)
    ensures Run(s, actions + [a], Apply(t, a))
    decreases |actions|
  {
    hide Enabled, Apply;
    if actions == [] {
      assert [a][1..] == [] && [] + [a] == [a];
      assert Run(Apply(s, a), [a][1..], Apply(s, a));
    } else {
      RunSnoc(Apply(s, actions[0]), actions[1..], t, a);
      assert (actions + [a])[1..] == actions[1..] + [a];
    }
  }

  /** A third thread that loads the head before a push and a pop, and the tail after them, gets a huge size. */
  lemma ThirdPartyCanWrap() returns (s: State<int>, actions: seq<Action<int>>, t: State<int>)
    ensures Init(s) && Run(s, actions, t) && Started(s) && Started(t)
    ensures WrapSub(Head(s), Tail(t)) == WORD - 1 > t.capacity
  {
    hide Run, Inv, Init, Wrap, WrapSub, IsCapacity;
    s := CanStart([0]);
    assert Started(s) && Head(s) == Wrap(0) && s.capacity < WORD - 1 by { StartFacts(s); }
    var pushing, u := PushOne(s);
    actions, t := PopOne(s, pushing, u);
    WrappedBehind(0, 1);
  }

  lemma StartFacts<W>(s: State<W>)
    requires Init(s)
    ensures Started(s) && Head(s) == Wrap(0) && s.capacity < WORD - 1
  {
    hide IsCapacity;
    var m := CapacityDivides(s.capacity);
  }

  lemma PushOne(s: State<int>) returns (actions: seq<Action<int>>, t: State<int>)
    requires Init(s) && s.width == 1
    ensures Run(s, actions, t) && Inv(t) && t.width == 1 && t.capacity == s.capacity && t.consumer == CIdle
    ensures |t.pushed| == 1 && t.popped == [] && t.headSeen == 0 && t.cachedHead == 0
  {
    hide Run, BitAnd, IsCapacity, Slot, Stored, Fifo, Wrap, WrapSub;
    InitHolds(s);
    RunEmpty(s);
    Words(s);
    assert s.tailCache == Wrap(0) && !ShowsFull(s, s.tailCache);
    var s1 := Taken(s, [], s, PushStart([7]));
    var s2 := Taken(s, [] + [PushStart([7])], s1, PushWord);
    t := Taken(s, [] + [PushStart([7])] + [PushWord], s2, PushPublish);
    actions := [] + [PushStart([7])] + [PushWord] + [PushPublish];
  }

  lemma PopOne(s: State<int>, before: seq<Action<int>>, u: State<int>) returns (actions: seq<Action<int>>, t: State<int>)
    requires Run(s, before, u) && Inv(u) && u.width == 1 && u.consumer == CIdle
    requires |u.pushed| == 1 && u.popped == [] && u.headSeen == 0 && u.cachedHead == 0
    ensures Run(s, actions, t) && Started(t) && Tail(t) == Wrap(1) && t.capacity == u.capacity
  {
    hide Run, BitAnd, IsCapacity, Slot, Stored, Fifo, Wrap, WrapSub, ProducerHolds;
    Words(u);
    assert u.headCache == Wrap(0) == Tail(u) && u.headWrites[1] == Wrap(1) != Tail(u);
    var s1 := Taken(s, before, u, PopStart);
    var s2 := Taken(s, before + [PopStart], s1, PopReload(1));
    var s3 := Taken(s, before + [PopStart] + [PopReload(1)], s2, PopWord);
    t := Taken(s, before + [PopStart] + [PopReload(1)] + [PopWord], s3, PopPublish);
    actions := before + [PopStart] + [PopReload(1)] + [PopWord] + [PopPublish];
  }

  lemma RunEmpty<W>(s: State<W>)
    ensures Run(s, [], s)
  {
  }

  lemma Taken<W>(s: State<W>, actions: seq<Action<W>>, t: State<W>, a: Action<W>) returns (u: State<W>)
    requires Run(s, actions, t) && Enabled(t, a) && Inv(t)
    ensures u == Apply(t, a) && Run(s, actions + [a], u) && Inv(u)
    ensures Started(u) && Head(u) == Wrap(|u.pushed|) && Tail(u) == Wrap(|u.popped|)
    ensures WriteSlot(u) < |u.slots| && ReadSlot(u) < |u.slots|
  {
    hide Run, Apply, Enabled, BitAnd, IsCapacity;
    u := Apply(t, a);
    RunSnoc(s, actions, t, a);
    StepHolds(t, a);
    Words(u);
  }
}
