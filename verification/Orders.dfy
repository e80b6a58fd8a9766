/** The orders that go out, against the frames they come from, with nothing said through the functions that build them. */
module Orders {
  import opened Bytes
  import opened JsonNumbers
  import opened JsonGrammar
  import opened JsonStrings
  import opened WireKeys
  import opened WireText
  import opened WireGrammar
  import opened Wire
  import opened WireNames
  import opened KillSwitch
  import opened Firing
  import opened ExecutorRuns
  import Accounts
  import Pricing

  // ------------------------------------------------------------------- the price

  /** A multiple of the step, the nearest to `p`, the even one of two. */
  ghost predicate NearestOnStep(price: real, p: real, step: real)
    requires step > 0.0
  {
    NearestTimes(price, p / step, step)
  }

  ghost predicate NearestTimes(price: real, x: real, step: real) {
    exists k: int :: Pricing.IsNearestEven(x, k) && price == k as real * step
  }

  predicate InRange(r: PriceRange, p: real)
    requires NumericRange(r)
  {
    Worth(r.step) > 0.0 && Worth(r.start) <= p && p <= Worth(r.end)
  }

  /** The nearest price on the step of the first range that holds `p`, or on one cent when none does. */
  ghost predicate SnappedPrice(price: real, p: real, rs: seq<PriceRange>)
    requires Numeric(rs)
  {
    && (forall i :: 0 <= i < |rs| && InRange(rs[i], p) && (forall j :: 0 <= j < i ==> !InRange(rs[j], p)) ==>
      NearestOnStep(price, p, Worth(rs[i].step)))
    && ((forall i :: 0 <= i < |rs| ==> !InRange(rs[i], p)) ==> NearestOnStep(price, p, 0.01))
  }

  lemma GridIsRanges(rs: seq<PriceRange>, i: nat)
    requires Numeric(rs) && i < |rs|
    ensures NumericRange(rs[i])
    ensures GridOf(rs)[i] == Pricing.Range(Worth(rs[i].start), Worth(rs[i].end), Worth(rs[i].step))
  {
    hide DoubleMagnitude, IsNumber;
    WorthIsValue(rs[i].start);
    WorthIsValue(rs[i].end);
    WorthIsValue(rs[i].step);
  }

  lemma PriceIsSnapped(x: Double, rs: seq<PriceRange>)
    requires IsNumber(x) && Numeric(rs)
    ensures SnappedPrice(Pricing.SnapToGrid(SignedValue(x), GridOf(rs)), Worth(x), rs)
  {
    hide Pricing.SnapToGrid, Pricing.IsNearestEven, IsNumber, Worth, SignedValue, GridOf;
    WorthIsValue(x);
    var p, grid := Worth(x), GridOf(rs);
    var price := Pricing.SnapToGrid(p, grid);
    forall i | 0 <= i < |rs|
      ensures NumericRange(rs[i]) && grid[i] == Pricing.Range(Worth(rs[i].start), Worth(rs[i].end), Worth(rs[i].step))
    {
      GridIsRanges(rs, i);
    }
    forall i | 0 <= i < |rs| && InRange(rs[i], p) && (forall j :: 0 <= j < i ==> !InRange(rs[j], p))
      ensures NearestOnStep(price, p, Worth(rs[i].step))
    {
      var step := grid[i].step;
      var k := SomeNearest(p / step);
      Pricing.FirstRangeSetsStep(p, grid, i, k);
    }
    if forall i :: 0 <= i < |rs| ==> !InRange(rs[i], p) {
      var k := SomeNearest(p / 0.01);
      Pricing.FallbackIsOneCent(p, grid, k);
    }
  }

  lemma SomeNearest(x: real) returns (k: int)
    ensures Pricing.IsNearestEven(x, k)
  {
    k := Pricing.RoundHalfEven(x);
    Pricing.RoundsToNearestEven(x);
  }

  // ------------------------------------------------------- decoded doubles are numbers

  lemma {:induction false} LastNamedExists(ms: seq<Member>, name: string) returns (i: int)
    requires SomeNamed(ms, name)
    ensures LastNamed(ms, name, i)
  {
    hide HasName;
    i := |ms| - 1;
    while !HasName(ms[i], name)
      invariant 0 <= i < |ms|
      invariant forall j :: i < j < |ms| ==> !HasName(ms[j], name)
      invariant exists j :: 0 <= j <= i && HasName(ms[j], name)
      decreases i
    {
      i := i - 1;
    }
  }

  lemma ReadNumber(fc: FromChars, v: Value, x: Double)
    requires NumbersOnly(fc) && ValidValue(v) && NumberOf(fc, v) == Some(x)
    ensures IsNumber(x)
  {
    hide IsNumber, Magnitude;
  }

  lemma NamedNumber(fc: FromChars, ms: seq<Member>, name: string, x: Double)
    requires NumbersOnly(fc) && DoubleIs(fc, ms, name, x)
    ensures IsNumber(x)
  {
    hide HasName, NumberOf, IsNumber, NumbersOnly;
    if SomeNamed(ms, name) {
      var i := LastNamedExists(ms, name);
      ReadNumber(fc, ms[i].value, x);
    } else {
      ZeroIsNumber();
    }
  }

  lemma ZeroIsNumber()
    ensures IsNumber(Finite(false, Ascii("0"), 0)) && IsNumber(Finite(false, Ascii("1"), 0))
    ensures IsNumber(Finite(false, Ascii("1"), -2))
  {
    assert Ascii("0") == [ZERO] && Ascii("1") == [0x31];
  }

  lemma NamedRanges(fc: FromChars, ms: seq<Member>, name: string, rs: seq<PriceRange>)
    requires NumbersOnly(fc) && RangesAre(fc, ms, name, rs)
    ensures Numeric(rs)
  {
    hide HasName, BoundsAre, IsNumber, NumbersOnly;
    if SomeNamed(ms, name) {
      var i := LastNamedExists(ms, name);
      forall j | 0 <= j < |rs|
        ensures NumericRange(rs[j])
      {
        BoundsAreNumbers(fc, ms[i].value.elems[j], rs[j]);
      }
    } else {
      ZeroIsNumber();
    }
  }

  lemma BoundsAreNumbers(fc: FromChars, e: Elem, r: PriceRange)
    requires NumbersOnly(fc) && BoundsAre(fc, e, r)
    ensures NumericRange(r)
  {
    hide NumberOf, IsNumber, NumbersOnly;
    ReadNumber(fc, e.value.elems[0].value, r.start);
    ReadNumber(fc, e.value.elems[1].value, r.end);
    ReadNumber(fc, e.value.elems[2].value, r.step);
  }

  // ------------------------------------------------------------------ every order

  /** The request is made of the fields of the message, at the snapped wire price. */
  ghost predicate OrderOf(r: Request, m: WakeMessage) {
    && r.order.ticker == m.marketTicker && r.order.side == m.direction && r.exchangeIndex == m.exchangeIndex
    && r.correlationId == m.correlationId && r.correlationGroup == m.correlationGroup && r.dryRun == m.dryRun
    && IsNumber(m.wirePrice) && Numeric(m.priceRanges)
    && r.price.Some? && SnappedPrice(r.price.value, Worth(m.wirePrice), m.priceRanges)
  }

  /** The message is what the members of the body say, name by name. */
  ghost predicate SaidBy(fc: FromChars, m: WakeMessage, body: bytes) {
    exists d :: SpelledWake(fc, d) && PrintDocument(d) == body && WakeIs(fc, d.root.members, m)
  }

  lemma RequestIsOrder(m: WakeMessage)
    requires IsNumber(m.wirePrice) && Numeric(m.priceRanges)
    ensures OrderOf(RequestFor(m), m)
  {
    hide Pricing.SnapToGrid, IsNumber, Worth, SignedValue, GridOf, SnappedPrice;
    PriceIsSnapped(m.wirePrice, m.priceRanges);
  }

  lemma MessageIsSaid(fc: FromChars, body: bytes, m: WakeMessage)
    requires NumbersOnly(fc) && DecodeWake(fc, body) == Good(m)
    ensures SaidBy(fc, m, body) && IsNumber(m.wirePrice) && Numeric(m.priceRanges)
  {
    hide DecodeWake, WakeMember, SomeNamed, PrintDocument, IntIs, TextIs, DoubleIs, FlagIs, DirectionIs, RangesAre, IsNumber, Numeric, NumbersOnly, ValidDocument;
    var d := DecodedByName(fc, body, m);
    NamedNumber(fc, d.root.members, "wire_price_yes_dollars", m.wirePrice);
    NamedRanges(fc, d.root.members, "price_ranges", m.priceRanges);
  }

  /** Over every run: the order of each dispatched fire is made of the fields that the body of its own frame carries, name
      by name, and goes out at the price on the grid of that body nearest to its wire price. */
  lemma OrdersMatchTheirFrames(fc: FromChars, g: Guard, recording: bool, runs: seq<seq<Served>>, i: int)
    requires NumbersOnly(fc) && Accounts.ValidRuns(fc, g, runs)
    requires var log := RunsLog(fc, recording, runs);
      0 <= i < |log| && log[i].Fired? && log[i].outcome.Dispatched?
    ensures var log := RunsLog(fc, recording, runs);
      && i >= 1 && AckIndex(log, i) >= 2 && log[AckIndex(log, i) - 2].Took?
      && SaidBy(fc, log[i].message, log[AckIndex(log, i) - 2].body)
      && OrderOf(log[i].outcome.request, log[i].message)
  {
    hide DecodeWake, RunsLog, Accounts.ValidRuns, Recent, IsNumber, NumbersOnly, SaidBy, OrderOf, RequestFor, Numeric;
    var log := RunsLog(fc, recording, runs);
    FiresFollowAcks(fc, g, recording, runs);
    assert Justified(fc, g, recording, log, i);
    MessageIsSaid(fc, log[AckIndex(log, i) - 2].body, log[i].message);
    RequestIsOrder(log[i].message);
  }

  /** What `handle_fire` decides, by the number the wire price is: a real fire is refused for its price exactly outside the
      open interval, asks the kill switch exactly when there is one, and a dry run is always dispatched without asking. */
  lemma DecisionSpelledOut(g: Guard, m: WakeMessage, o: Outcome)
    requires Decides(g, m, o) && IsNumber(m.wirePrice)
    ensures o.RefusedPrice? <==> !m.dryRun && (Worth(m.wirePrice) <= 0.0 || Worth(m.wirePrice) >= 1.0)
    ensures m.dryRun ==> o.Dispatched? && o.check.None?
    ensures !m.dryRun && o.Dispatched? ==> (o.check.Some? <==> g.ttl.Some?)
    ensures o.RefusedKillSwitch? ==> !m.dryRun && g.ttl.Some?
  {
    hide Recent, RequestFor, DoubleMagnitude;
    WorthIsValue(m.wirePrice);
  }
}
