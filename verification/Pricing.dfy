/** Half-to-even rounding and the price grid of src/pricing.cpp, over exact reals. */
module Pricing {
  /** `std::round`: to the nearest integer, halves away from zero. */
  function Round(x: real): (n: int) {
    if x >= 0.0 then (x + 0.5).Floor else -((-x + 0.5).Floor)
  }

  function Distance(x: real, n: int): (d: real)
    ensures d >= 0.0
  {
    if x >= n as real then x - n as real else n as real - x
  }

  /** `round_half_even`. */
  function RoundHalfEven(x: real): (n: int) {
    if Distance(x, Round(x)) == 0.5 then 2 * Round(x / 2.0) else Round(x)
  }

  /** Nearest, and even when two integers are equally near. */
  predicate IsNearestEven(x: real, n: int) {
    Distance(x, n) <= 0.5 && (Distance(x, n) == 0.5 ==> n % 2 == 0)
  }

  lemma RoundNear(x: real)
    ensures Distance(x, Round(x)) <= 0.5
  {
  }

  lemma RoundsToNearestEven(x: real)
    ensures IsNearestEven(x, RoundHalfEven(x))
  {
    RoundNear(x);
    if Distance(x, Round(x)) == 0.5 {
      var r, h := Round(x), Round(x / 2.0);
      RoundNear(x / 2.0);
      // x lies halfway between r and a neighbour, and 2h is the even one of the two.
      assert Distance(x, 2 * h) == 2.0 * Distance(x / 2.0, h) <= 1.0;
      HalfPoint(x, r, 2 * h);
    }
  }

  /** A half point within one of an even integer is half a unit from it. */
  lemma HalfPoint(x: real, r: int, n: int)
    requires Distance(x, r) == 0.5 && Distance(x, n) <= 1.0
    ensures Distance(x, n) == 0.5
  {
    assert n == r || n == r + 1 || n == r - 1;
  }

  /** `round_half_even` is the nearest integer with ties to even, and the only one. */
  lemma NearestEvenIsRoundHalfEven(x: real, n: int)
    ensures n == RoundHalfEven(x) <==> IsNearestEven(x, n)
  {
    RoundsToNearestEven(x);
    var r := RoundHalfEven(x);
    if IsNearestEven(x, n) {
      assert n == r || n == r + 1 || n == r - 1;
    }
  }

  lemma RoundMonotone(x: real, y: real)
    requires x <= y
    ensures RoundHalfEven(x) <= RoundHalfEven(y)
  {
    hide RoundHalfEven;
    RoundsToNearestEven(x);
    RoundsToNearestEven(y);
    var m, n := RoundHalfEven(x), RoundHalfEven(y);
  }

  lemma RoundInteger(n: int)
    ensures RoundHalfEven(n as real) == n
  {
    NearestEvenIsRoundHalfEven(n as real, n);
  }

  // ----------------------------------------------------------------- the grid

  datatype Range = Range(start: real, end: real, step: real)

  const CENT: real := 0.01

  predicate Contains(r: Range, price: real) {
    r.step > 0.0 && r.start <= price <= r.end
  }

  function SnapTo(price: real, step: real): (p: real)
    requires step > 0.0
  {
    Multiple(RoundHalfEven(price / step), step)
  }

  function Multiple(k: int, step: real): (p: real) {
    Times(k as real, step)
  }

  /** A product, kept as a name so that what is proved about it stays linear. */
  function Times(a: real, b: real): (p: real) {
    a * b
  }

  /** `snap_to_grid`: the step of the first range that contains the price, or one cent. */
  function SnapToGrid(price: real, ranges: seq<Range>): (p: real) {
    if ranges == [] then SnapTo(price, CENT)
    else if Contains(ranges[0], price) then SnapTo(price, ranges[0].step)
    else SnapToGrid(price, ranges[1..])
  }

  ghost predicate OnGrid(p: real, step: real) {
    exists k: int :: p == Multiple(k, step)
  }

  lemma Scaled(a: real, b: real, s: real)
    requires a <= b && s > 0.0
    ensures Times(a, s) <= Times(b, s)
  {
  }

  lemma ScaledStrictly(a: real, b: real, s: real)
    requires a < b && s > 0.0
    ensures Times(a, s) < Times(b, s)
  {
  }

  lemma HalfMore(a: real, s: real)
    ensures Times(a + 0.5, s) == Times(a, s) + s / 2.0
  {
  }

  lemma QuotientTimes(a: real, s: real)
    requires s > 0.0
    ensures Times(a / s, s) == a
  {
  }

  lemma SameMultiple(a: real, b: real, s: real)
    requires s > 0.0 && Times(a, s) == Times(b, s)
    ensures a == b
  {
    hide Times;
    if a < b {
      ScaledStrictly(a, b, s);
    } else if b < a {
      ScaledStrictly(b, a, s);
    }
  }

  lemma DivMonotone(a: real, b: real, s: real)
    requires a <= b && s > 0.0
    ensures a / s <= b / s
  {
    hide Times;
    QuotientTimes(a, s);
    QuotientTimes(b, s);
    if b / s < a / s {
      ScaledStrictly(b / s, a / s, s);
    }
  }

  /** A multiple of the step within half a step: the nearest one, the even one of two. */
  lemma SnapIsNearest(price: real, step: real, k: int)
    requires step > 0.0
    ensures OnGrid(SnapTo(price, step), step)
    ensures -(step / 2.0) <= SnapTo(price, step) - price <= step / 2.0
    ensures SnapTo(price, step) == Multiple(k, step) <==> IsNearestEven(price / step, k)
  {
    hide RoundHalfEven, Times;
    var x, n := price / step, RoundHalfEven(price / step);
    SnapOffset(price, step, x, n);
    NearestEvenIsRoundHalfEven(x, k);
    if SnapTo(price, step) == Multiple(k, step) {
      SameMultiple(n as real, k as real, step);
    }
  }

  lemma SnapOffset(price: real, step: real, x: real, n: int)
    requires step > 0.0 && x == price / step && n == RoundHalfEven(x)
    ensures -(step / 2.0) <= Times(n as real, step) - price <= step / 2.0
  {
    hide RoundHalfEven, Times;
    WithinHalf(x);
    QuotientTimes(price, step);
    Scaled(n as real, x + 0.5, step);
    Scaled(x, n as real + 0.5, step);
    HalfMore(x, step);
    HalfMore(n as real, step);
  }

  lemma WithinHalf(x: real)
    ensures -0.5 <= RoundHalfEven(x) as real - x <= 0.5
  {
    hide RoundHalfEven;
    RoundsToNearestEven(x);
  }

  lemma SnapMonotone(p: real, q: real, step: real)
    requires p <= q && step > 0.0
    ensures SnapTo(p, step) <= SnapTo(q, step)
  {
    hide RoundHalfEven, Times;
    DivMonotone(p, q, step);
    RoundMonotone(p / step, q / step);
    Scaled(RoundHalfEven(p / step) as real, RoundHalfEven(q / step) as real, step);
  }

  lemma SnapFixes(p: real, step: real)
    requires step > 0.0 && OnGrid(p, step)
    ensures SnapTo(p, step) == p
  {
    hide RoundHalfEven, Times;
    var k: int :| p == Multiple(k, step);
    QuotientTimes(p, step);
    SameMultiple(p / step, k as real, step);
    RoundInteger(k);
  }

  // ------------------------------------------------------------ which step is used

  /** When no range contains the price, the nearest whole cent, the even one of two. */
  lemma {:induction false} FallbackIsOneCent(price: real, ranges: seq<Range>, k: int)
    requires forall i :: 0 <= i < |ranges| ==>
      !(ranges[i].step > 0.0 && ranges[i].start <= price && price <= ranges[i].end)
    ensures SnapToGrid(price, ranges) == k as real * 0.01 <==> IsNearestEven(price / 0.01, k)
  {
    hide SnapTo, IsNearestEven;
    if ranges == [] {
      SnapIsNearest(price, 0.01, k);
    } else {
      FallbackIsOneCent(price, ranges[1..], k);
    }
  }

  /** Otherwise, on any grid, the nearest multiple of the step of the first range that contains it. */
  lemma {:induction false} FirstRangeSetsStep(price: real, ranges: seq<Range>, i: nat, k: int)
    requires i < |ranges| && ranges[i].step > 0.0 && ranges[i].start <= price && price <= ranges[i].end
    requires forall j :: 0 <= j < i ==>
      !(ranges[j].step > 0.0 && ranges[j].start <= price && price <= ranges[j].end)
    ensures SnapToGrid(price, ranges) == k as real * ranges[i].step <==> IsNearestEven(price / ranges[i].step, k)
  {
    hide SnapTo, IsNearestEven;
    if i == 0 {
      SnapIsNearest(price, ranges[0].step, k);
    } else {
      assert !Contains(ranges[0], price);
      FirstRangeSetsStep(price, ranges[1..], i - 1, k);
    }
  }

  // -------------------------------------------------------------- on a ladder

  /** A usable range: a positive step, both ends on its own grid. */
  ghost predicate Rung(r: Range) {
    r.step > 0.0 && r.start <= r.end && OnGrid(r.start, r.step) && OnGrid(r.end, r.step)
  }

  /** Contiguous ranges that share only their endpoints. */
  ghost predicate Ladder(ranges: seq<Range>) {
    && (forall i :: 0 <= i < |ranges| ==> Rung(ranges[i]))
    && (forall i :: 0 < i < |ranges| ==> ranges[i - 1].end == ranges[i].start)
  }

  predicate Spans(ranges: seq<Range>, price: real) {
    ranges != [] && ranges[0].start <= price <= ranges[|ranges| - 1].end
  }

  lemma LadderTail(ranges: seq<Range>)
    requires Ladder(ranges) && ranges != []
    ensures Ladder(ranges[1..])
  {
    hide Rung;
    var tail := ranges[1..];
    assert forall i :: 0 <= i < |tail| ==> tail[i] == ranges[i + 1];
  }

  /** The snapped price stays in the range that was chosen for it. */
  lemma SnapStaysInRung(price: real, r: Range)
    requires Rung(r) && Contains(r, price)
    ensures r.start <= SnapTo(price, r.step) <= r.end
  {
    hide SnapTo, OnGrid;
    SnapMonotone(r.start, price, r.step);
    SnapMonotone(price, r.end, r.step);
    SnapFixes(r.start, r.step);
    SnapFixes(r.end, r.step);
  }

  /** A price within the ladder snaps inside the first range that contains it. */
  lemma {:induction false} SnapStaysInRange(price: real, ranges: seq<Range>) returns (i: nat)
    requires Ladder(ranges) && Spans(ranges, price)
    ensures i < |ranges| && Contains(ranges[i], price) && (i > 0 ==> ranges[i].start < price)
    ensures SnapToGrid(price, ranges) == SnapTo(price, ranges[i].step)
    ensures ranges[i].start <= SnapToGrid(price, ranges) <= ranges[i].end
    ensures OnGrid(SnapToGrid(price, ranges), ranges[i].step)
  {
    hide SnapTo, OnGrid;
    if Contains(ranges[0], price) {
      i := 0;
      SnapStaysInRung(price, ranges[0]);
      SnapIsNearest(price, ranges[0].step, 0);
    } else {
      assert Rung(ranges[0]) && |ranges| > 1 && ranges[1 - 1].end == ranges[1].start;
      LadderTail(ranges);
      var j := SnapStaysInRange(price, ranges[1..]);
      i := j + 1;
    }
  }

  lemma {:induction false} LadderAscends(ranges: seq<Range>, i: nat, j: nat)
    requires Ladder(ranges) && i < j < |ranges|
    ensures ranges[i].end <= ranges[j].start
  {
    hide OnGrid;
    assert Rung(ranges[j - 1]) && ranges[j - 1].end == ranges[j].start;
    if i < j - 1 {
      LadderAscends(ranges, i, j - 1);
    }
  }

  /** On a ladder, a higher price never snaps lower. */
  lemma GridMonotone(p: real, q: real, ranges: seq<Range>)
    requires Ladder(ranges) && Spans(ranges, p) && Spans(ranges, q) && p <= q
    ensures SnapToGrid(p, ranges) <= SnapToGrid(q, ranges)
  {
    hide SnapToGrid, SnapTo, OnGrid, Ladder;
    var i := SnapStaysInRange(p, ranges);
    var j := SnapStaysInRange(q, ranges);
    if i == j {
      SnapMonotone(p, q, ranges[i].step);
    } else if i < j {
      LadderAscends(ranges, i, j);
    } else {
      LadderAscends(ranges, j, i);
    }
  }

  /** On a ladder, snapping a snapped price changes nothing. */
  lemma GridIdempotent(p: real, ranges: seq<Range>)
    requires Ladder(ranges) && Spans(ranges, p)
    ensures Spans(ranges, SnapToGrid(p, ranges)) && SnapToGrid(SnapToGrid(p, ranges), ranges) == SnapToGrid(p, ranges)
  {
    hide SnapToGrid, SnapTo, OnGrid;
    var q := SnapToGrid(p, ranges);
    var i := SnapStaysInRange(p, ranges);
    var last: nat := |ranges| - 1;
    if 0 < i { LadderAscends(ranges, 0, i); }
    if i < last { LadderAscends(ranges, i, last); }
    assert Rung(ranges[0]) && Rung(ranges[last]) && Rung(ranges[i]);
    var j := SnapStaysInRange(q, ranges);
    assert Rung(ranges[j]);
    if j < i {
      LadderAscends(ranges, j, i);
    } else if i < j {
      LadderAscends(ranges, i, j);
    }
    SnapFixes(q, ranges[j].step);
  }

  // ----------------------------------------------------- the open unit interval

  /** The step `snap_to_grid` uses: of the first range that contains the price, or one cent. */
  function StepFor(price: real, ranges: seq<Range>): (step: real)
    ensures step > 0.0
  {
    if ranges == [] then CENT
    else if Contains(ranges[0], price) then ranges[0].step
    else StepFor(price, ranges[1..])
  }

  lemma {:induction false} SnapUsesStep(price: real, ranges: seq<Range>)
    ensures SnapToGrid(price, ranges) == SnapTo(price, StepFor(price, ranges))
  {
    hide SnapTo;
    if ranges != [] && !Contains(ranges[0], price) {
      SnapUsesStep(price, ranges[1..]);
    }
  }

  /** Rounding stays at or below `k` up to the half above it, that half included when `k` is even. */
  lemma RoundAtMost(x: real, k: int)
    ensures RoundHalfEven(x) <= k <==> x < k as real + 0.5 || (x == k as real + 0.5 && k % 2 == 0)
  {
    hide RoundHalfEven;
    RoundsToNearestEven(x);
  }

  /** The number of the largest multiple of the step below one. */
  function LastBelowOne(step: real): (k: int)
    requires step > 0.0
  {
    -((-(1.0 / step)).Floor) - 1
  }

  lemma BelowOne(step: real, n: int)
    requires step > 0.0
    ensures Multiple(n, step) < 1.0 <==> n <= LastBelowOne(step)
  {
    hide Times;
    var q := 1.0 / step;
    QuotientTimes(1.0, step);
    CeilingLess(q, n);
    if n as real < q {
      ScaledStrictly(n as real, q, step);
    } else {
      Scaled(q, n as real, step);
    }
  }

  lemma CeilingLess(q: real, n: int)
    ensures n <= -((-q).Floor) - 1 <==> (n as real) < q
  {
  }

  lemma AboveZero(step: real, n: int)
    requires step > 0.0
    ensures 0.0 < Multiple(n, step) <==> n >= 1
  {
    hide Times;
    assert Times(0.0, step) == 0.0 by { TimesZero(step); }
    if n >= 1 {
      ScaledStrictly(0.0, n as real, step);
    } else {
      Scaled(n as real, 0.0, step);
    }
  }

  lemma TimesZero(s: real)
    ensures Times(0.0, s) == 0.0
  {
  }

  /** More than half a step above zero, and below the half that rounds up from the last multiple under one. */
  predicate StaysOpen(price: real, step: real)
    requires step > 0.0
  {
    var x, k := price / step, LastBelowOne(step);
    x > 0.5 && (x < k as real + 0.5 || (x == k as real + 0.5 && k % 2 == 0))
  }

  /** On every grid: the snapped price is strictly between 0 and 1 exactly in that band. The guard in front of the
      snap does not imply it. */
  lemma SnappedPriceStaysOpen(price: real, ranges: seq<Range>)
    ensures 0.0 < SnapToGrid(price, ranges) < 1.0 <==> StaysOpen(price, StepFor(price, ranges))
  {
    hide RoundHalfEven, Multiple, LastBelowOne, SnapToGrid, StepFor;
    var step := StepFor(price, ranges);
    SnapUsesStep(price, ranges);
    var n := RoundHalfEven(price / step);
    AboveZero(step, n);
    BelowOne(step, n);
    RoundAtMost(price / step, 0);
    RoundAtMost(price / step, LastBelowOne(step));
  }

  /** A tradeable price that is sent above one: the ranges of a message are not checked. */
  lemma SnapMayExceedOne()
    ensures SnapToGrid(0.9, [Range(0.0, 1.0, 1.5)]) == 1.5
  {
    NearestEvenIsRoundHalfEven(0.9 / 1.5, 1);
  }

  /** On the default one-cent grid a tradeable price stays tradeable exactly when it is more than half a cent from
      both ends. */
  lemma CentGridStaysOpen(price: real)
    requires 0.0 < price < 1.0
    ensures 0.0 < SnapToGrid(price, [Range(0.0, 1.0, CENT)]) < 1.0 <==> 0.005 < price < 0.995
  {
    hide RoundHalfEven;
    var x, n := price / CENT, RoundHalfEven(price / CENT);
    RoundsToNearestEven(x);
    assert SnapToGrid(price, [Range(0.0, 1.0, CENT)]) == n as real * CENT;
  }

  /** A price inside the open interval that is sent as zero. */
  lemma SnapMayReachZero()
    ensures SnapToGrid(0.004, [Range(0.0, 1.0, CENT)]) == 0.0
  {
    NearestEvenIsRoundHalfEven(0.004 / CENT, 0);
  }
}
