/** The TTL cache over the kill file of src/killswitch.cpp. */
module KillSwitch {
  import opened JsonNumbers

  /** What `std::filesystem::exists` says of the path at some instant. */
  datatype Look = Present | Absent | Failed

  /** The clocks and the file system, as the calls find them. Time passes between calls. */
  class World {
    const wall: nat -> int
    const ticks: nat -> int
    const file: int -> Look
    var elapsed: nat

    ghost predicate Valid() {
      && (forall i: nat :: IsInt64(wall(i)))
      && (forall i: nat, j: nat :: i <= j ==> ticks(i) <= ticks(j))
    }

    constructor (wall: nat -> int, ticks: nat -> int, file: int -> Look)
      requires forall i: nat :: IsInt64(wall(i))
      requires forall i: nat, j: nat :: i <= j ==> ticks(i) <= ticks(j)
      ensures Valid() && this.wall == wall && this.ticks == ticks && this.file == file && elapsed == 0
    {
      this.wall, this.ticks, this.file, elapsed := wall, ticks, file, 0;
    }

    /** `wall_clock_ms`. */
    method WallClock() returns (t: int)
      requires Valid()
      modifies this
      ensures elapsed == old(elapsed) + 1 && t == wall(old(elapsed)) && IsInt64(t)
    {
      t := wall(elapsed);
      elapsed := elapsed + 1;
    }

    /** `monotonic_ns`. */
    method Now() returns (t: int)
      modifies this
      ensures elapsed == old(elapsed) + 1 && t == ticks(old(elapsed))
    {
      t := ticks(elapsed);
      elapsed := elapsed + 1;
    }

    /** A `stat`, some time after the last clock reading. */
    method Stat() returns (look: Look, at: int)
      modifies this
      ensures elapsed == old(elapsed) + 1 && at == ticks(old(elapsed)) && look == file(at)
    {
      at := ticks(elapsed);
      look := file(ticks(elapsed));
      elapsed := elapsed + 1;
    }
  }

  /** The file was there at every instant from one time to another. */
  ghost predicate PresentDuring(file: int -> Look, from: int, until: int) {
    forall t :: from <= t <= until ==> file(t).Present?
  }

  ghost predicate AbsentDuring(file: int -> Look, from: int, until: int) {
    forall t :: from <= t <= until ==> file(t).Absent?
  }

  /** When a call began and when it was over. */
  datatype Span = Span(now: int, until: int)

  /** The answer is what a look gave less than the time to live before the call, or during it. */
  ghost predicate Recent(file: int -> Look, ttl: int, call: Span, engaged: bool) {
    exists t :: (call.now - ttl < t || call.now <= t) && t <= call.until && engaged == file(t).Present?
  }

  /** The first instant at which a change made at `t0` is sure to be seen. */
  function HonouredFrom(ttl: int, t0: int): (t: int)
    ensures t0 <= t && (ttl >= 1 ==> t < t0 + ttl)
  {
    if ttl >= 1 then t0 + ttl - 1 else t0
  }

  class Switch {
    const ttl: int
    var checkedAt: int
    var cached: bool
    var hasCached: bool
    // The tick of the look behind the cached answer.
    ghost var looked: nat

    ghost predicate Valid(world: World)
      reads this, world
    {
      hasCached ==>
        && looked < world.elapsed && checkedAt <= world.ticks(looked)
        && cached == world.file(world.ticks(looked)).Present?
    }

    constructor (ttl: int)
      ensures this.ttl == ttl && !hasCached
    {
      this.ttl := ttl;
      checkedAt, cached, hasCached, looked := 0, false, false, 0;
    }

    /** `is_engaged`. The clock is read first; the look, if there is one, comes after. */
    method IsEngaged(world: World) returns (engaged: bool, call: Span)
      requires world.Valid() && Valid(world)
      modifies this, world
      ensures Valid(world) && world.elapsed > old(world.elapsed)
      ensures call == Span(world.ticks(old(world.elapsed)), world.ticks(world.elapsed - 1))
      ensures Recent(world.file, ttl, call, engaged)
      ensures hasCached && engaged == cached
      ensures var cacheHolds := old(hasCached) && call.now - old(checkedAt) < ttl;
        && checkedAt == (if cacheHolds then old(checkedAt) else call.now)
        && world.elapsed == old(world.elapsed) + (if cacheHolds then 1 else 2)
        && engaged == (if cacheHolds then old(cached) else world.file(call.until).Present?)
    {
      var now := world.Now();
      if hasCached && now - checkedAt < ttl {
        call := Span(now, now);
        ghost var t := world.ticks(looked);
        assert call.now - ttl < t <= call.until && cached == world.file(t).Present?;
        return cached, call;
      }
      looked := world.elapsed;
      var look, at := world.Stat();
      assert now <= at;
      cached, hasCached, checkedAt := look.Present?, true, now;
      return cached, Span(now, at);
    }

    /** `invalidate`, as `engage` and `release` call it: the next check looks at the file. */
    method Invalidate(ghost world: World)
      requires Valid(world)
      modifies this
      ensures Valid(world) && !hasCached && checkedAt == 0
    {
      hasCached, checkedAt := false, 0;
    }
  }

  /** A file that has been there for the time to live, up to the end of the call, is reported. */
  lemma EngagedWithinTtl(file: int -> Look, ttl: int, t0: int, call: Span, engaged: bool)
    requires PresentDuring(file, t0, call.until) && call.now >= HonouredFrom(ttl, t0) && Recent(file, ttl, call, engaged)
    ensures engaged
  {
    var t :| (call.now - ttl < t || call.now <= t) && t <= call.until && engaged == file(t).Present?;
    assert t0 <= t <= call.until;
  }

  /** A file that has been gone for the time to live, up to the end of the call, is reported gone. */
  lemma ReleasedWithinTtl(file: int -> Look, ttl: int, t0: int, call: Span, engaged: bool)
    requires AbsentDuring(file, t0, call.until) && call.now >= HonouredFrom(ttl, t0) && Recent(file, ttl, call, engaged)
    ensures !engaged
  {
    var t :| (call.now - ttl < t || call.now <= t) && t <= call.until && engaged == file(t).Present?;
    assert t0 <= t <= call.until;
  }

  /** The bound is exact: for every time to live, a switch that is asked just before the file appears and again one
      instant short of the bound still says it is released. */
  method StaleJustBefore(ttl: int, t0: int) returns (world: World, engaged: bool, call: Span)
    ensures world.Valid() && forall t :: world.file(t) == if t >= t0 then Present else Absent
    ensures forall until :: PresentDuring(world.file, t0, until)
    ensures call.now == HonouredFrom(ttl, t0) - 1 && !engaged
  {
    var late := HonouredFrom(ttl, t0) - 1;
    var file := (t: int) => if t >= t0 then Present else Absent;
    world := new World(n => 0, n => if n < 2 then t0 - 1 else late, file);
    var switch := new Switch(ttl);
    engaged, call := switch.IsEngaged(world);
    engaged, call := switch.IsEngaged(world);
  }

  /** A look that fails reads as released, however long the file has been there: the bound needs looks that succeed. */
  method FailureReadsAsReleased(ttl: int, now: int) returns (world: World, engaged: bool, call: Span)
    ensures world.Valid() && world.file(call.until).Failed? && call.now == now && !engaged
  {
    world := new World(n => 0, n => now, t => Failed);
    var switch := new Switch(ttl);
    engaged, call := switch.IsEngaged(world);
  }
}
