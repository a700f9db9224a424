/** What the cumulative sums behind the TWAP amount to over a run. */
module TwapHistory {
  import opened MachineInts
  import opened Keys
  import opened PriceTypes
  import opened Aggregation
  import opened AccountState
  import opened ConfidenceFilter
  import opened AggregateHistory
  import opened Wrappers
  import opened Multiplication

  /** The sums an observer forms over the successful aggregations, each weighted by the slots since the one before. */
  datatype Sums = Sums(price: int, conf: int, slots: int, downSlots: int)

  const NO_SUMS: Sums := Sums(0, 0, 0, 0)

  function Plus(a: Sums, b: Sums): Sums {
    Sums(a.price + b.price, a.conf + b.conf, a.slots + b.slots, a.downSlots + b.downSlots)
  }

  /** What one effect contributes, given the slot of the last success before it. */
  ghost function Contribution(f: Effect, lastSlot: int): Sums {
    match f
    case Quiet => NO_SUMS
    case Reset => NO_SUMS
    case Attempt(result, slot, timestamp, maxLatency) =>
      match result
      case NoPrice => NO_SUMS
      case Price(price, conf) =>
        var gap := slot - lastSlot;
        Sums(price * gap, conf * gap, gap, Max(0, gap - if maxLatency == 0 then 25 else maxLatency))
  }

  ghost function Total(s: State, events: seq<Event>, now: int): Sums
    requires s.num <= |s.comp| && ValidRun(events, now)
    decreases |events|
  {
    if events == [] then NO_SUMS
    else
      NextKeepsTable(s, events[0]);
      Plus(Contribution(EffectOf(s, events[0]), s.lastSlot), Total(Next(s, events[0]), events[1..], events[0].slot))
  }

  ghost predicate Orderly(s: State, now: int) {
    s.num <= |s.comp| && Coherent(ViewOf(s), now) && 0 <= s.maxLatency
  }

  lemma OrderlyTable(s: State, now: int)
    requires Orderly(s, now)
    ensures s.num <= |s.comp| && 0 <= s.lastSlot <= now
  {
  }

  lemma KeepsLatency(s: State, e: Event)
    requires s.num <= |s.comp| && ValidEvent(e) && 0 <= s.maxLatency
    ensures 0 <= Next(s, e).maxLatency
  {
    hide Aggregate, Accumulated, StatusFor, CountingQuotes, FindKey;
    match e.ins
    case Update(key, args, buffer, noFail) =>
      assert Refreshed(s, e.slot, e.timestamp).maxLatency == s.maxLatency;
    case _ =>
  }

  lemma EffectLatency(s: State, e: Event)
    requires s.num <= |s.comp| && ValidEvent(e) && 0 <= s.maxLatency
    ensures EffectOf(s, e).Attempt? ==> 0 <= EffectOf(s, e).maxLatency
  {
    hide UpdPrice, Aggregate;
  }

  lemma OrderlyNext(s: State, e: Event, now: int)
    requires Orderly(s, now) && ValidEvent(e) && now <= e.slot
    ensures Orderly(Next(s, e), e.slot)
    ensures 0 <= Contribution(EffectOf(s, e), s.lastSlot).slots
  {
    hide Next, EffectOf, Apply, ValidEvent;
    NextKeepsTable(s, e);
    NextView(s, e);
    EffectTimely(s, e);
    KeepsLatency(s, e);
    ApplyCoherent(ViewOf(s), EffectOf(s, e), now, e.slot);
  }

  // ----- Slots -----

  /** What the re-initialisations of a run take off the slot of the last success. */
  ghost function ClearedSlots(s: State, events: seq<Event>, now: int): int
    requires s.num <= |s.comp| && ValidRun(events, now)
    decreases |events|
  {
    if events == [] then 0
    else
      NextKeepsTable(s, events[0]);
      (if EffectOf(s, events[0]).Reset? then s.lastSlot else 0)
      + ClearedSlots(Next(s, events[0]), events[1..], events[0].slot)
  }

  lemma LastSlotMoves(s: State, e: Event, now: int)
    requires Orderly(s, now) && ValidEvent(e) && now <= e.slot
    ensures var f := EffectOf(s, e);
            Next(s, e).lastSlot == if f.Reset? then 0 else s.lastSlot + Contribution(f, s.lastSlot).slots
  {
    hide Next, EffectOf, ValidEvent, Accumulated;
    NextView(s, e);
  }

  lemma ResetContribution(f: Effect, lastSlot: int)
    ensures f.Reset? ==> Contribution(f, lastSlot) == NO_SUMS
  {
  }

  /** The slots counted are those the last success has moved on, and those that re-initialisations have cleared. */
  lemma {:induction false} SlotsCounted(s: State, events: seq<Event>, now: int)
    requires Orderly(s, now) && ValidRun(events, now)
    ensures Orderly(Run(s, events, now), EndSlot(events, now))
    ensures var d := Total(s, events, now);
            0 <= d.slots == ClearedSlots(s, events, now) + Run(s, events, now).lastSlot - s.lastSlot
    decreases |events|
  {
    hide Next, EffectOf, ValidEvent, Orderly, Contribution;
    OrderlyTable(s, now);
    if events != [] {
      OrderlyNext(s, events[0], now);
      LastSlotMoves(s, events[0], now);
      ResetContribution(EffectOf(s, events[0]), s.lastSlot);
      SlotsCounted(Next(s, events[0]), events[1..], events[0].slot);
    }
  }

  /** Re-initialisation happens only where there is no success since the creation or the previous re-initialisation. */
  ghost predicate NoLateReset(s: State, events: seq<Event>, now: int)
    requires s.num <= |s.comp| && ValidRun(events, now)
    decreases |events|
  {
    events != [] ==>
      && (EffectOf(s, events[0]).Reset? ==> s.lastSlot == 0)
      && (NextKeepsTable(s, events[0]); NoLateReset(Next(s, events[0]), events[1..], events[0].slot))
  }

  /** No re-initialisation at all. */
  ghost predicate NoReset(s: State, events: seq<Event>, now: int)
    requires s.num <= |s.comp| && ValidRun(events, now)
    decreases |events|
  {
    events != [] ==>
      && !EffectOf(s, events[0]).Reset?
      && (NextKeepsTable(s, events[0]); NoReset(Next(s, events[0]), events[1..], events[0].slot))
  }

  /** No slots are cleared exactly when no re-initialisation is late, and once something was aggregated every one is. */
  lemma {:induction false} ClearedNothing(s: State, events: seq<Event>, now: int)
    requires Orderly(s, now) && ValidRun(events, now)
    ensures s.num <= |s.comp|
    ensures 0 <= ClearedSlots(s, events, now)
    ensures ClearedSlots(s, events, now) == 0 <==> NoLateReset(s, events, now)
    ensures s.lastSlot > 0 ==> (NoLateReset(s, events, now) <==> NoReset(s, events, now))
    decreases |events|
  {
    hide Next, EffectOf, ValidEvent, Orderly, Contribution;
    OrderlyTable(s, now);
    if events != [] {
      OrderlyNext(s, events[0], now);
      LastSlotMoves(s, events[0], now);
      ClearedNothing(Next(s, events[0]), events[1..], events[0].slot);
    }
  }

  // ----- Sums in machine integers -----

  ghost function Grown(c: Cumulative, d: Sums): Cumulative {
    Cumulative(c.price + d.price, c.conf + d.conf, c.numDownSlots + d.downSlots)
  }

  /** The accumulators a ledger of unbounded sums shows through its i128, u128 and u64. */
  ghost function Reduced(c: Cumulative): Cumulative {
    Cumulative(ToInt128(c.price), ToUint128(c.conf), ToUint64(c.numDownSlots))
  }

  lemma ToInt128Sum(x: int, y: int)
    ensures ToInt128(ToInt128(x) + y) == ToInt128(x + y)
  {
  }

  lemma ToUint128Sum(x: int, y: int)
    ensures ToUint128(ToUint128(x) + y) == ToUint128(x + y)
  {
  }

  lemma ToUint64Sum(x: int, y: int)
    ensures ToUint64(ToUint64(x) + y) == ToUint64(x + y)
  {
  }

  /** Wrapping around early or late makes no difference. */
  lemma ReducedGrows(c: Cumulative, d: Sums)
    ensures Reduced(Grown(Reduced(c), d)) == Reduced(Grown(c, d))
  {
    hide ToInt128, ToUint128, ToUint64;
    ToInt128Sum(c.price, d.price);
    ToUint128Sum(c.conf, d.conf);
    ToUint64Sum(c.numDownSlots, d.downSlots);
  }

  lemma ReducedTwice(c: Cumulative)
    ensures Reduced(Reduced(c)) == Reduced(c)
  {
    hide ToInt128, ToUint128, ToUint64;
  }

  lemma GrownTwice(c: Cumulative, d: Sums, e: Sums)
    ensures Grown(Grown(c, d), e) == Grown(c, Plus(d, e))
  {
  }

  lemma ApplyReduced(v: View, f: Effect, now: int, slot: int, c: Cumulative)
    requires Coherent(v, now) && now <= slot && Timely(v, f, slot) && v.cum == Reduced(c)
    ensures Apply(v, f).cum == Reduced(Grown(c, Contribution(f, v.lastSlot)))
  {
    hide ToInt128, ToUint128, ToUint64;
    ReducedGrows(c, Contribution(f, v.lastSlot));
    ReducedTwice(c);
  }

  lemma NextReduced(s: State, e: Event, now: int, c: Cumulative)
    requires Orderly(s, now) && ValidEvent(e) && now <= e.slot && s.cum == Reduced(c)
    ensures Next(s, e).cum == Reduced(Grown(c, Contribution(EffectOf(s, e), s.lastSlot)))
  {
    hide Next, EffectOf, Apply, Coherent, Timely, Contribution, ValidEvent, Grown, Reduced;
    NextView(s, e);
    EffectTimely(s, e);
    ApplyReduced(ViewOf(s), EffectOf(s, e), now, e.slot, c);
  }

  /**
   Over every run, re-initialisations and overflows included, the accumulators are the sums an observer forms,
   reduced to i128, u128 and u64.
   */
  lemma {:induction false} SumsModulo(s: State, events: seq<Event>, now: int, c: Cumulative)
    requires Orderly(s, now) && ValidRun(events, now) && s.cum == Reduced(c)
    ensures s.num <= |s.comp|
    ensures Run(s, events, now).cum == Reduced(Grown(c, Total(s, events, now)))
    decreases |events|
  {
    hide Next, EffectOf, ValidEvent, Orderly, Contribution, Reduced;
    OrderlyTable(s, now);
    if events == [] {
      assert Grown(c, NO_SUMS) == c;
    } else {
      var d := Contribution(EffectOf(s, events[0]), s.lastSlot);
      OrderlyNext(s, events[0], now);
      NextReduced(s, events[0], now, c);
      SumsModulo(Next(s, events[0]), events[1..], events[0].slot, Grown(c, d));
      GrownTwice(c, d, Total(Next(s, events[0]), events[1..], events[0].slot));
    }
  }

  /** From a new account, the accumulators are exact if and only if the observer's sums fit their types. */
  lemma AccumulatorsExact(exponent: int, minPub: int, v2: bool, events: seq<Event>)
    requires ValidRun(events, 0)
    ensures var s := Fresh(exponent, minPub, v2);
            var t, d := Run(s, events, 0), Total(s, events, 0);
            t.cum == Cumulative(d.price, d.conf, d.downSlots)
            <==> IsInt128(d.price) && IsUint128(d.conf) && IsUint64(d.downSlots)
  {
    var s := Fresh(exponent, minPub, v2);
    hide Run, Total, ToInt128, ToUint128, ToUint64;
    SumsModulo(s, events, 0, s.cum);
  }

  // ----- When the sums fit -----

  /** What sums weighted by that many slots can amount to. */
  ghost predicate Within(c: Cumulative, slots: int) {
    -(TWO63 * slots) <= c.price <= TWO63 * slots && 0 <= c.conf <= UINT64_MAX * slots && 0 <= c.numDownSlots <= slots
  }

  lemma WithinFits(c: Cumulative, slots: int)
    requires 0 <= slots <= UINT64_MAX && Within(c, slots)
    ensures Reduced(c) == c
  {
    hide ToInt128, ToUint128, ToUint64;
  }

  lemma ProductBounds(price: int, conf: int, gap: nat)
    requires IsInt64(price) && IsUint64(conf)
    ensures -(TWO63 * gap) <= price * gap <= TWO63 * gap && 0 <= conf * gap <= UINT64_MAX * gap
  {
    MulMonotone(-TWO63, price, gap);
    MulMonotone(price, TWO63, gap);
    MulMonotone(0, conf, gap);
    MulMonotone(conf, UINT64_MAX, gap);
  }

  /** As long as the slots counted so far fit 64 bits no accumulator wraps: the update adds exactly the contribution. */
  lemma AccumulatedExactly(c: Cumulative, price: int, conf: int, counted: int, gap: int, maxLatency: int)
    requires 0 <= counted && 0 <= gap && counted + gap <= UINT64_MAX && Within(c, counted)
    requires IsInt64(price) && IsUint64(conf) && 0 <= maxLatency
    ensures var latency := if maxLatency == 0 then MAX_SEND_LATENCY else maxLatency;
            var d := Cumulative(c.price + price * gap, c.conf + conf * gap, c.numDownSlots + Max(0, gap - latency));
            Accumulated(c, price, conf, gap, maxLatency) == d && Within(d, counted + gap)
  {
    hide ToInt128, ToUint128, ToUint64;
    ProductBounds(price, conf, gap);
    var latency := if maxLatency == 0 then MAX_SEND_LATENCY else maxLatency;
    var d := Cumulative(c.price + price * gap, c.conf + conf * gap, c.numDownSlots + Max(0, gap - latency));
    WithinFits(d, counted + gap);
  }

  /** Every price aggregated in the segment lies in [lo, hi]. */
  ghost predicate PricesWithin(s: State, events: seq<Event>, now: int, lo: int, hi: int)
    requires s.num <= |s.comp| && ValidRun(events, now)
    decreases |events|
  {
    events != [] ==>
      && (var f := EffectOf(s, events[0]); f.Attempt? && f.result.Price? ==> lo <= f.result.price <= hi)
      && (NextKeepsTable(s, events[0]); PricesWithin(Next(s, events[0]), events[1..], events[0].slot, lo, hi))
  }

  lemma ContributionWithin(v: View, f: Effect, now: int, slot: int)
    requires Coherent(v, now) && now <= slot && Timely(v, f, slot) && (f.Attempt? ==> 0 <= f.maxLatency)
    ensures var d := Contribution(f, v.lastSlot); Within(Grown(Cumulative(0, 0, 0), d), d.slots)
  {
    if f.Attempt? && f.result.Price? {
      ProductBounds(f.result.price, f.result.conf, f.slot - v.lastSlot);
    }
  }

  lemma EffectWithin(s: State, e: Event, now: int)
    requires Orderly(s, now) && ValidEvent(e) && now <= e.slot
    ensures var d := Contribution(EffectOf(s, e), s.lastSlot); Within(Grown(Cumulative(0, 0, 0), d), d.slots)
  {
    hide EffectOf, ValidEvent, Coherent, Timely, Within;
    EffectTimely(s, e);
    EffectLatency(s, e);
    ContributionWithin(ViewOf(s), EffectOf(s, e), now, e.slot);
  }

  lemma WithinGrown(c: Cumulative, counted: int, d: Sums)
    requires Within(c, counted) && Within(Grown(Cumulative(0, 0, 0), d), d.slots)
    ensures Within(Grown(c, d), counted + d.slots)
  {
  }

  /** The observer's sums are no more than the slots counted allow. */
  lemma {:induction false} TotalWithinSlots(s: State, events: seq<Event>, now: int, c: Cumulative, counted: int)
    requires Orderly(s, now) && ValidRun(events, now) && Within(c, counted)
    ensures s.num <= |s.comp|
    ensures var d := Total(s, events, now); Within(Grown(c, d), counted + d.slots)
    decreases |events|
  {
    hide Next, EffectOf, ValidEvent, Orderly, Contribution, Within;
    OrderlyTable(s, now);
    if events == [] {
      assert Grown(c, NO_SUMS) == c;
    } else {
      var d := Contribution(EffectOf(s, events[0]), s.lastSlot);
      OrderlyNext(s, events[0], now);
      EffectWithin(s, events[0], now);
      WithinGrown(c, counted, d);
      TotalWithinSlots(Next(s, events[0]), events[1..], events[0].slot, Grown(c, d), counted + d.slots);
      GrownTwice(c, d, Total(Next(s, events[0]), events[1..], events[0].slot));
    }
  }

  /**
   While the slots counted fit 64 bits the sums grow by exactly the sum of price times gap, and the gaps add up to the
   distance between the last slots and what re-initialisations cleared.
   */
  lemma Telescopes(s: State, events: seq<Event>, now: int, counted: int)
    requires Orderly(s, now) && ValidRun(events, now) && 0 <= counted && Within(s.cum, counted)
    requires counted + Total(s, events, now).slots <= UINT64_MAX
    ensures var t, d := Run(s, events, now), Total(s, events, now);
            && t.cum == Grown(s.cum, d) && Within(t.cum, counted + d.slots)
            && 0 <= d.slots == t.lastSlot - s.lastSlot + ClearedSlots(s, events, now)
            && Orderly(t, EndSlot(events, now))
  {
    hide Run, Total, Orderly, Within, Reduced;
    SlotsCounted(s, events, now);
    TotalWithinSlots(s, events, now, s.cum, counted);
    WithinFits(s.cum, counted);
    WithinFits(Grown(s.cum, Total(s, events, now)), counted + Total(s, events, now).slots);
    SumsModulo(s, events, now, s.cum);
  }

  /**
   From a new account, the accumulators are exact and bounded while the slots that re-initialisations have cleared and
   the slot of the last success together fit 64 bits.
   */
  lemma AccumulatorsBounded(exponent: int, minPub: int, v2: bool, events: seq<Event>)
    requires ValidRun(events, 0)
    requires var s := Fresh(exponent, minPub, v2);
             ClearedSlots(s, events, 0) + Run(s, events, 0).lastSlot <= UINT64_MAX
    ensures var s := Fresh(exponent, minPub, v2);
            var t, d := Run(s, events, 0), Total(s, events, 0);
            && t.cum == Cumulative(d.price, d.conf, d.downSlots)
            && Within(t.cum, ClearedSlots(s, events, 0) + t.lastSlot)
  {
    hide Run, Total, Within;
    var s := Fresh(exponent, minPub, v2);
    assert Within(s.cum, 0) by { NothingWithin(); }
    SlotsCounted(s, events, 0);
    Telescopes(s, events, 0, 0);
  }

  lemma NothingWithin()
    ensures Within(Cumulative(0, 0, 0), 0)
  {
  }

  /**
   On every run from a new account without a late re-initialisation, the i128, u128 and u64 accumulators never
   overflow: they hold exactly the sums over the successes, and the down slots never exceed the last slot.
   */
  lemma AccumulatorsNeverOverflow(exponent: int, minPub: int, v2: bool, events: seq<Event>)
    requires ValidRun(events, 0) && NoLateReset(Fresh(exponent, minPub, v2), events, 0)
    ensures var s := Fresh(exponent, minPub, v2);
            var t, d := Run(s, events, 0), Total(s, events, 0);
            && t.cum == Cumulative(d.price, d.conf, d.downSlots)
            && Abs(t.cum.price) <= TWO63 * t.lastSlot && 0 <= t.cum.conf <= UINT64_MAX * t.lastSlot
            && 0 <= t.cum.numDownSlots <= t.lastSlot
  {
    hide Run, Total, Orderly;
    var s := Fresh(exponent, minPub, v2);
    assert Orderly(s, 0) by { NewIsOrderly(exponent, minPub, v2); }
    SlotsCounted(s, events, 0);
    ClearedNothing(s, events, 0);
    LastSlotFits(events, 0);
    OrderlyTable(Run(s, events, 0), EndSlot(events, 0));
    AccumulatorsBounded(exponent, minPub, v2, events);
  }

  lemma NewIsOrderly(exponent: int, minPub: int, v2: bool)
    ensures Orderly(Fresh(exponent, minPub, v2), 0)
  {
  }

  lemma {:induction false} LastSlotFits(events: seq<Event>, now: int)
    requires ValidRun(events, now) && now <= INT64_MAX
    ensures EndSlot(events, now) <= INT64_MAX
    decreases |events|
  {
    if events != [] {
      LastSlotFits(events[1..], events[0].slot);
    }
  }

  // ----- The TWAP -----

  lemma PriceWithin(v: View, f: Effect, now: int, slot: int, lo: int, hi: int)
    requires Coherent(v, now) && now <= slot && Timely(v, f, slot)
    requires f.Attempt? && f.result.Price? ==> lo <= f.result.price <= hi
    ensures var d := Contribution(f, v.lastSlot); lo * d.slots <= d.price <= hi * d.slots
  {
    if f.Attempt? && f.result.Price? {
      MulMonotone(lo, f.result.price, f.slot - v.lastSlot);
      MulMonotone(f.result.price, hi, f.slot - v.lastSlot);
    }
  }

  lemma {:induction false} TotalWithin(s: State, events: seq<Event>, now: int, lo: int, hi: int)
    requires Orderly(s, now) && ValidRun(events, now) && PricesWithin(s, events, now, lo, hi)
    ensures var d := Total(s, events, now); lo * d.slots <= d.price <= hi * d.slots
    decreases |events|
  {
    hide Next, EffectOf, Coherent, ValidEvent, Contribution, Timely;
    if events != [] {
      var e := events[0];
      OrderlyNext(s, e, now);
      EffectTimely(s, e);
      PriceWithin(ViewOf(s), EffectOf(s, e), now, e.slot, lo, hi);
      TotalWithin(Next(s, e), events[1..], e.slot, lo, hi);
      AddWithin(Contribution(EffectOf(s, e), s.lastSlot), Total(Next(s, e), events[1..], e.slot), lo, hi);
    }
  }

  lemma AddWithin(a: Sums, b: Sums, lo: int, hi: int)
    requires lo * a.slots <= a.price <= hi * a.slots && lo * b.slots <= b.price <= hi * b.slots
    ensures var d := Plus(a, b); lo * d.slots <= d.price <= hi * d.slots
  {
  }

  lemma TradingAtLastSlot(s: State, now: int)
    requires Orderly(s, now) && s.agg.status == STATUS_TRADING
    ensures s.lastSlot == s.agg.pubSlot > 0
  {
  }

  /**
   Between two TRADING snapshots the cumulative price grows by a price between the smallest and the largest aggregate
   in between, for every slot between the snapshots and every slot that re-initialisations cleared.
   */
  lemma TwapBetweenExtremes(s: State, events: seq<Event>, now: int, counted: int, lo: int, hi: int)
    requires Orderly(s, now) && ValidRun(events, now) && PricesWithin(s, events, now, lo, hi)
    requires 0 <= counted && Within(s.cum, counted) && counted + Total(s, events, now).slots <= UINT64_MAX
    requires s.agg.status == STATUS_TRADING && Run(s, events, now).agg.status == STATUS_TRADING
    ensures var t := Run(s, events, now);
            var slots := t.agg.pubSlot - s.agg.pubSlot + ClearedSlots(s, events, now);
            && 0 <= slots
            && lo * slots <= t.cum.price - s.cum.price <= hi * slots
  {
    hide Run, Total, Orderly, Within, PricesWithin;
    OrderlyTable(s, now);
    Telescopes(s, events, now, counted);
    TradingAtLastSlot(s, now);
    TradingAtLastSlot(Run(s, events, now), EndSlot(events, now));
    TotalWithin(s, events, now, lo, hi);
  }

  /**
   The TWAP is the difference of the cumulative prices over the difference of the publish slots.  While the price stays
   the same, the TWAP is that price if and only if the account is not re-initialised between the snapshots.
   */
  lemma TwapExactIff(s: State, events: seq<Event>, now: int, counted: int, price: int)
    requires Orderly(s, now) && ValidRun(events, now) && PricesWithin(s, events, now, price, price) && price != 0
    requires 0 <= counted && Within(s.cum, counted) && counted + Total(s, events, now).slots <= UINT64_MAX
    requires s.agg.status == STATUS_TRADING && Run(s, events, now).agg.status == STATUS_TRADING
    ensures var t := Run(s, events, now);
            t.cum.price - s.cum.price == price * (t.agg.pubSlot - s.agg.pubSlot) <==> NoReset(s, events, now)
    ensures NoReset(s, events, now) <==> ClearedSlots(s, events, now) == 0
  {
    hide Run, Total, Orderly, Within, PricesWithin;
    OrderlyTable(s, now);
    TwapBetweenExtremes(s, events, now, counted, price, price);
    TradingAtLastSlot(s, now);
    ClearedNothing(s, events, now);
    var slots, cleared := Run(s, events, now).agg.pubSlot - s.agg.pubSlot, ClearedSlots(s, events, now);
    ExactIffNothingCleared(price, slots, cleared);
  }

  /** The downtime between two such snapshots is a fraction of the same slots. */
  lemma DowntimeIsFraction(s: State, events: seq<Event>, now: int, counted: int)
    requires Orderly(s, now) && ValidRun(events, now)
    requires 0 <= counted && Within(s.cum, counted) && counted + Total(s, events, now).slots <= UINT64_MAX
    requires s.agg.status == STATUS_TRADING && Run(s, events, now).agg.status == STATUS_TRADING
    ensures var t := Run(s, events, now);
            var slots := t.agg.pubSlot - s.agg.pubSlot + ClearedSlots(s, events, now);
            0 <= t.cum.numDownSlots - s.cum.numDownSlots <= slots
  {
    hide Run, Total, Orderly, Within;
    OrderlyTable(s, now);
    Telescopes(s, events, now, counted);
    TradingAtLastSlot(s, now);
    TradingAtLastSlot(Run(s, events, now), EndSlot(events, now));
    NothingWithin();
    TotalWithinSlots(s, events, now, Cumulative(0, 0, 0), 0);
    WithinDowntime(Total(s, events, now));
  }

  lemma WithinDowntime(d: Sums)
    requires Within(Grown(Cumulative(0, 0, 0), d), d.slots)
    ensures 0 <= d.downSlots <= d.slots
  {
  }

  lemma ExactIffNothingCleared(price: int, slots: int, cleared: int)
    requires price != 0 && cleared >= 0
    ensures price * (slots + cleared) == price * slots <==> cleared == 0
  {
    assert price * (slots + cleared) == price * slots + price * cleared;
    if cleared > 0 && price > 0 {
      MulMonotone(1, price, cleared);
    } else if cleared > 0 {
      MulMonotone(price, -1, cleared);
    }
  }
}
