/** Re-initialisation after the first aggregate: when it breaks the down-slot count, and what it does to the sums. */
module LateResets {
  import opened MachineInts
  import opened Keys
  import opened PriceTypes
  import opened Aggregation
  import opened AccountState
  import opened ConfidenceFilter
  import opened AggregateHistory
  import opened PublisherTable
  import opened TwapHistory
  import opened Wrappers
  import opened Multiplication
  import Quantiles

  // ----- The down slots -----

  /** num_down_slots is at most last_slot_ in every state of the run. */
  ghost predicate DownSlotsWithin(s: State, events: seq<Event>, now: int)
    requires s.num <= |s.comp| && ValidRun(events, now)
    decreases |events|
  {
    && s.cum.numDownSlots <= s.lastSlot
    && (events != [] ==>
          (NextKeepsTable(s, events[0]); DownSlotsWithin(Next(s, events[0]), events[1..], events[0].slot)))
  }

  /** Every re-initialisation that succeeds finds no down slots counted. */
  ghost predicate ResetsFindNoDownSlots(s: State, events: seq<Event>, now: int)
    requires s.num <= |s.comp| && ValidRun(events, now)
    decreases |events|
  {
    events != [] ==>
      && (EffectOf(s, events[0]).Reset? ==> s.cum.numDownSlots == 0)
      && (NextKeepsTable(s, events[0]); ResetsFindNoDownSlots(Next(s, events[0]), events[1..], events[0].slot))
  }

  lemma DownSlotsStep(v: View, f: Effect, now: int, slot: int)
    requires Coherent(v, now) && now <= slot && Timely(v, f, slot) && 0 <= v.cum.numDownSlots <= v.lastSlot
    requires f.Attempt? ==> 0 <= f.maxLatency
    ensures 0 <= Apply(v, f).cum.numDownSlots
    ensures Apply(v, f).cum.numDownSlots <= Apply(v, f).lastSlot <==> (f.Reset? ==> v.cum.numDownSlots == 0)
  {
    hide ToInt128, ToUint128, ToUint64;
  }

  lemma {:induction false} DownSlotsIff(s: State, events: seq<Event>, now: int)
    requires Orderly(s, now) && ValidRun(events, now) && 0 <= s.cum.numDownSlots <= s.lastSlot
    ensures s.num <= |s.comp|
    ensures DownSlotsWithin(s, events, now) <==> ResetsFindNoDownSlots(s, events, now)
    decreases |events|
  {
    hide Next, EffectOf, Apply, Coherent, Timely, ValidEvent;
    if events != [] {
      var e := events[0];
      var t := Next(s, e);
      OrderlyNext(s, e, now);
      NextView(s, e);
      EffectTimely(s, e);
      EffectLatency(s, e);
      DownSlotsStep(ViewOf(s), EffectOf(s, e), now, e.slot);
      if t.cum.numDownSlots <= t.lastSlot {
        DownSlotsIff(t, events[1..], e.slot);
      }
    }
  }

  /**
   On a run from a new account num_down_slots stays at most last_slot_ if and only if every re-initialisation finds
   it zero.
   */
  lemma DownSlotsWithinIff(exponent: int, minPub: int, v2: bool, events: seq<Event>)
    requires ValidRun(events, 0)
    ensures var s := Fresh(exponent, minPub, v2);
            DownSlotsWithin(s, events, 0) <==> ResetsFindNoDownSlots(s, events, 0)
  {
    DownSlotsIff(Fresh(exponent, minPub, v2), events, 0);
  }

  // ----- Runs with one publisher -----

  /** A publisher's update with the smallest confidence, at its publishing slot. */
  function Quote(key: Key, price: int, slot: int): Event {
    Event(Update(key, UpdArgs(true, price, 1, STATUS_TRADING, slot), NoBuffer, true), slot, 0)
  }

  function Validated(slot: int): Event {
    Event(Validate, slot, 0)
  }

  /** An update, and the aggregation at the end of its slot. */
  function Trade(key: Key, price: int, slot: int): seq<Event> {
    [Quote(key, price, slot), Validated(slot)]
  }

  function Reinit(slot: int): seq<Event> {
    [Event(Init(0), slot, 0)]
  }

  predicate Tradable(price: int) {
    MAX_CI_DIVISOR <= price < INT64_MAX
  }

  ghost predicate OnePublisher(s: State, key: Key, quote: PriceInfo) {
    && |s.comp| == NUM_COMP_TOTAL && s.num == 1 && s.comp[0].pub == key && s.comp[0].latest == quote
    && s.accumulatorV2 && s.bufferCleared && s.minPub <= 1 && s.maxLatency == 0
  }

  /** Nothing quoted and nothing aggregated since the account was initialised. */
  ghost predicate Waiting(s: State, key: Key) {
    OnePublisher(s, key, ZERO_INFO) && s.agg == ZERO_INFO && s.lastSlot == s.prevSlot == 0
  }

  /** The account after a trade. */
  ghost predicate Traded(s: State, key: Key, price: int, slot: int) {
    && OnePublisher(s, key, PriceInfo(price, 1, STATUS_TRADING, slot))
    && s.agg == PriceInfo(price, 1, STATUS_TRADING, slot) && s.lastSlot == slot
  }

  lemma FoundFirst(s: State, key: Key, quote: PriceInfo)
    requires OnePublisher(s, key, quote)
    ensures FindKey(s.comp[..s.num], key) == Some(0)
  {
    var c := s.comp[..1];
    assert c == [s.comp[0]] && c[..0] == [];
  }

  lemma OnlyQuote(s: State, key: Key, quote: PriceInfo, slot: int)
    requires OnePublisher(s, key, quote)
    ensures CountingQuotes(s, slot) == if Counts(quote, slot, 0) then [quote] else []
  {
    var c := s.comp[..1];
    assert c == [s.comp[0]] && c[..0] == [];
    assert Quotes(c[..0], slot, 0) == [];
  }

  lemma ThreeInOrder(v: seq<int>)
    requires |v| == 3 && v[0] < v[1] < v[2]
    ensures Quantiles.P25(v) == v[0] && Quantiles.P50(v) == v[1] && Quantiles.P75(v) == v[2]
  {
    hide Quantiles.Ascending;
    Quantiles.AscendingSorts(v);
    Quantiles.AscendingUnique(v, Quantiles.Ascending(v));
  }

  lemma VotesOfOne(price: int, slot: int)
    requires Tradable(price)
    ensures Votes([PriceInfo(price, 1, STATUS_TRADING, slot)]) == [price - 1, price, price + 1]
  {
    var q := PriceInfo(price, 1, STATUS_TRADING, slot);
    assert [q][..0] == [];
  }

  /** One quote of confidence 1 is aggregated to itself. */
  lemma OneQuoteAggregates(price: int, slot: int, minPub: int)
    requires Tradable(price) && minPub <= 1
    ensures Aggregate([PriceInfo(price, 1, STATUS_TRADING, slot)], minPub) == Price(price, 1)
  {
    hide Votes, Quantiles.P25, Quantiles.P50, Quantiles.P75;
    VotesOfOne(price, slot);
    ThreeInOrder([price - 1, price, price + 1]);
    assert ToInt64(1) == 1;
  }

  lemma QuoteKept(price: int)
    requires Tradable(price)
    ensures StatusFor(price, 1, STATUS_TRADING) == Some(STATUS_TRADING)
  {
  }

  /** The program aggregates in the validator, so the update only records the quote. */
  lemma QuoteStep(s: State, key: Key, quote: PriceInfo, price: int, slot: int)
    requires OnePublisher(s, key, quote) && Tradable(price) && quote.pubSlot < slot && 0 <= slot <= INT64_MAX
    ensures var e := Quote(key, price, slot);
            && ValidEvent(e) && EffectOf(s, e).Quiet?
            && OnePublisher(Next(s, e), key, PriceInfo(price, 1, STATUS_TRADING, slot))
            && ViewOf(Next(s, e)) == ViewOf(s)
  {
    hide Outcome, Accumulated, CountingQuotes, StatusFor, FindKey;
    FoundFirst(s, key, quote);
    QuoteKept(price);
  }

  lemma ValidateStep(s: State, key: Key, price: int, slot: int)
    requires OnePublisher(s, key, PriceInfo(price, 1, STATUS_TRADING, slot)) && Tradable(price)
    requires s.agg.pubSlot != slot && 0 <= slot <= INT64_MAX
    ensures var e, t := Validated(slot), Next(s, Validated(slot));
            && ValidEvent(e) && EffectOf(s, e) == Attempt(Price(price, 1), slot, 0, 0)
            && OnePublisher(t, key, PriceInfo(price, 1, STATUS_TRADING, slot))
            && ViewOf(t) == Apply(ViewOf(s), EffectOf(s, e))
  {
    hide Aggregate, Accumulated, Counts, Quotes, Apply;
    OnlyQuote(s, key, PriceInfo(price, 1, STATUS_TRADING, slot), slot);
    TradingCounts(price, slot);
    OneQuoteAggregates(price, slot, s.minPub);
    NextView(s, Validated(slot));
  }

  lemma Stepped(s: State, e: Event, rest: seq<Event>, now: int)
    requires s.num <= |s.comp| && ValidEvent(e) && now <= e.slot && ValidRun(rest, e.slot)
    ensures ValidRun([e] + rest, now) && Next(s, e).num <= |Next(s, e).comp|
    ensures Run(s, [e] + rest, now) == Run(Next(s, e), rest, e.slot)
    ensures Total(s, [e] + rest, now)
         == Plus(Contribution(EffectOf(s, e), s.lastSlot), Total(Next(s, e), rest, e.slot))
    ensures EndSlot([e] + rest, now) == EndSlot(rest, e.slot)
  {
    hide Next, EffectOf, Contribution, ValidEvent;
    NextKeepsTable(s, e);
    assert ([e] + rest)[1..] == rest && ([e] + rest)[0] == e;
  }

  /** A trade counts the slots from zero on. */
  lemma AfterTrade(s: State, key: Key, price: int, slot: int, rest: seq<Event>, now: int) returns (t: State)
    requires Waiting(s, key) && Tradable(price) && 0 < slot <= INT64_MAX && now <= slot && ValidRun(rest, slot)
    ensures var events := Trade(key, price, slot) + rest;
            && t.num <= |t.comp| && ValidRun(events, now)
            && Run(s, events, now) == Run(t, rest, slot) && EndSlot(events, now) == EndSlot(rest, slot)
            && Total(s, events, now)
               == Plus(Sums(price * slot, slot, slot, Max(0, slot - MAX_SEND_LATENCY)), Total(t, rest, slot))
    ensures Traded(t, key, price, slot) && t.cum == Accumulated(s.cum, price, 1, slot, 0)
  {
    hide Next, EffectOf, Accumulated, ValidEvent;
    var a, b := Quote(key, price, slot), Validated(slot);
    QuoteStep(s, key, ZERO_INFO, price, slot);
    var r := Next(s, a);
    ValidateStep(r, key, price, slot);
    t := Next(r, b);
    Stepped(r, b, rest, slot);
    Stepped(s, a, [b] + rest, now);
    assert Trade(key, price, slot) + rest == [a] + ([b] + rest);
    assert price * slot == price * (slot - 0);
    Nothing(Total(r, [b] + rest, slot));
  }

  lemma TradingCounts(price: int, slot: int)
    requires Tradable(price)
    ensures Counts(PriceInfo(price, 1, STATUS_TRADING, slot), slot, 0)
  {
  }

  lemma ResetStep(s: State, key: Key, quote: PriceInfo, slot: int)
    requires OnePublisher(s, key, quote) && 0 <= slot <= INT64_MAX
    ensures var e := Event(Init(0), slot, 0);
            && ValidEvent(e) && EffectOf(s, e).Reset?
            && Waiting(Next(s, e), key) && Next(s, e).cum == s.cum
  {
  }

  /** Re-initialisation keeps the sums and makes the account wait again. */
  lemma Reinitialised(s: State, key: Key, quote: PriceInfo, slot: int, rest: seq<Event>, now: int) returns (t: State)
    requires OnePublisher(s, key, quote) && 0 <= slot <= INT64_MAX && now <= slot && ValidRun(rest, slot)
    ensures var events := Reinit(slot) + rest;
            && t.num <= |t.comp| && ValidRun(events, now)
            && Run(s, events, now) == Run(t, rest, slot) && Total(s, events, now) == Total(t, rest, slot)
    ensures Waiting(t, key) && t.cum == s.cum
  {
    hide Next, EffectOf, ValidEvent, Run, Total, ValidRun;
    var e := Event(Init(0), slot, 0);
    ResetStep(s, key, quote, slot);
    t := Next(s, e);
    Stepped(s, e, rest, now);
    Nothing(Total(t, rest, slot));
  }

  lemma Nothing(d: Sums)
    ensures Plus(NO_SUMS, d) == d
  {
  }

  /** The minimum of publishers lowered to one, and one publisher added. */
  function Setup(key: Key): seq<Event> {
    [Event(SetMinPub(1), 0, 0), Event(Add(key), 0, 0)]
  }

  lemma AddStep(s: State, key: Key)
    requires Ordinary(key) && s == Fresh(0, 1, true)
    ensures var e := Event(Add(key), 0, 0);
            && ValidEvent(e) && EffectOf(s, e).Quiet?
            && Waiting(Next(s, e), key) && Next(s, e).cum == Cumulative(0, 0, 0)
  {
    assert s.comp[..0] == [];
    var c := Extended([], key);
    assert c == [PriceComponent(key, ZERO_INFO, ZERO_INFO)] && c[1..] == [];
    assert ByKey(c) == c;
  }

  lemma SetStep()
    ensures var e := Event(SetMinPub(1), 0, 0);
            && ValidEvent(e) && EffectOf(Created(0), e).Quiet? && Next(Created(0), e) == Fresh(0, 1, true)
  {
  }

  /** A new account with its first publisher. */
  lemma Started(key: Key, rest: seq<Event>) returns (t: State)
    requires Ordinary(key) && ValidRun(rest, 0)
    ensures var events := Setup(key) + rest;
            && t.num <= |t.comp| && ValidRun(events, 0)
            && Run(Created(0), events, 0) == Run(t, rest, 0) && Total(Created(0), events, 0) == Total(t, rest, 0)
            && EndSlot(events, 0) == EndSlot(rest, 0)
    ensures Waiting(t, key) && t.cum == Cumulative(0, 0, 0)
  {
    hide Next, EffectOf, ValidEvent, Run, Total, ValidRun;
    var a, b := Event(SetMinPub(1), 0, 0), Event(Add(key), 0, 0);
    SetStep();
    var r := Next(Created(0), a);
    AddStep(r, key);
    t := Next(r, b);
    Stepped(r, b, rest, 0);
    Stepped(Created(0), a, [b] + rest, 0);
    assert Setup(key) + rest == [a] + ([b] + rest);
    Nothing(Total(t, rest, 0));
    Nothing(Total(r, [b] + rest, 0));
  }

  // ----- What late resets do -----

  /** A first trade after the setup, and a second one after a re-initialisation. */
  function FirstTrade(key: Key, price: int, slot: int): seq<Event> {
    Setup(key) + (Trade(key, price, slot) + [])
  }

  function TradeAfterReset(key: Key, price: int, resetSlot: int, slot: int): seq<Event> {
    Reinit(resetSlot) + (Trade(key, price, slot) + [])
  }

  lemma Twice(c: Cumulative, price: int, a: int, b: int)
    requires Tradable(price) && 0 <= a && 0 <= b && a + b <= UINT64_MAX && c == Cumulative(0, 0, 0)
    ensures Accumulated(Accumulated(c, price, 1, a, 0), price, 1, b, 0)
         == Cumulative(price * a + price * b, a + b, Max(0, a - MAX_SEND_LATENCY) + Max(0, b - MAX_SEND_LATENCY))
  {
    hide Accumulated;
    AccumulatedExactly(c, price, 1, 0, a, 0);
    AccumulatedExactly(Accumulated(c, price, 1, a, 0), price, 1, a, b, 0);
  }

  /**
   The TWAP between two TRADING snapshots with a re-initialisation in between: the price is the same throughout, but it
   is counted for all slots up to the second snapshot, so the TWAP comes out above every price.  The down slots exceed
   the last slot.
   */
  lemma LateResetCountsTwice(key: Key, price: int, a: int, b: int)
    requires Ordinary(key) && Tradable(price) && 2 * MAX_SEND_LATENCY < a < b <= INT64_MAX
    ensures var before, after := FirstTrade(key, price, a), TradeAfterReset(key, price, a, b);
            && ValidRun(before, 0) && ValidRun(after, EndSlot(before, 0))
            && var s := Run(Created(0), before, 0);
            && var t := Run(s, after, EndSlot(before, 0));
            && s.agg == PriceInfo(price, 1, STATUS_TRADING, a) && t.agg == PriceInfo(price, 1, STATUS_TRADING, b)
            && t.cum.price - s.cum.price == price * b > price * (b - a)
            && t.cum.numDownSlots == a + b - 2 * MAX_SEND_LATENCY > t.lastSlot
  {
    hide Waiting, OnePublisher, Trade, Reinit, Setup, Accumulated, Run, Total, ValidRun, EndSlot;
    var second := Trade(key, price, b) + [];
    EmptyRun(a);
    EmptyRun(b);
    ValidTail(key, price, b, []);
    ValidReset(a, second);
    ValidTail(key, price, a, []);
    var s0 := Started(key, Trade(key, price, a) + []);
    var s := AfterTrade(s0, key, price, a, [], 0);
    Ended(s, a);
    var u := Reinitialised(s, key, PriceInfo(price, 1, STATUS_TRADING, a), a, second, a);
    var t := AfterTrade(u, key, price, b, [], a);
    Ended(t, b);
    Once(s0.cum, price, a);
    Twice(s0.cum, price, a, b);
    MulMonotone(1, price, a);
    assert price * (b - a) == price * b - price * a;
  }

  lemma Once(c: Cumulative, price: int, a: int)
    requires Tradable(price) && 0 <= a <= UINT64_MAX && c == Cumulative(0, 0, 0)
    ensures Accumulated(c, price, 1, a, 0).price == price * a
  {
    hide Accumulated;
    AccumulatedExactly(c, price, 1, 0, a, 0);
  }

  /** The highest price that is still aggregated. */
  const HIGH: int := INT64_MAX - 1

  /** Three trades in the last slot, with two re-initialisations between them. */
  function TwoResets(key: Key): seq<Event> {
    var trade := Trade(key, HIGH, INT64_MAX);
    Setup(key) + (trade + (Reinit(INT64_MAX) + (trade + (Reinit(INT64_MAX) + (trade + [])))))
  }

  /** The third term is one too many for the i128 and the u64. */
  lemma ThirdWraps()
    ensures var gaps := 3 * INT64_MAX;
            var c := Accumulated(Cumulative(HIGH * INT64_MAX + HIGH * INT64_MAX, INT64_MAX + INT64_MAX,
                                            INT64_MAX - MAX_SEND_LATENCY + (INT64_MAX - MAX_SEND_LATENCY)),
                                 HIGH, 1, INT64_MAX, 0);
            && c.price == HIGH * gaps - TWO128 < 0 && HIGH * gaps >= TWO127
            && c.numDownSlots == gaps - 3 * MAX_SEND_LATENCY - TWO64 >= 0
  {
  }

  /**
   With two late re-initialisations the accumulators can overflow: on this run from a new account every aggregated
   price is positive, and the cumulative price comes out negative and the down slots short by 2^64.
   */
  lemma AccumulatorsCanOverflow(key: Key)
    requires Ordinary(key)
    ensures var events := TwoResets(key);
            && ValidRun(events, 0)
            && var t, d := Run(Created(0), events, 0), Total(Created(0), events, 0);
            && d.price >= TWO127 && t.cum.price == d.price - TWO128 < 0
            && d.downSlots > UINT64_MAX && t.cum.numDownSlots == d.downSlots - TWO64
  {
    hide Waiting, OnePublisher, Trade, Reinit, Setup, Accumulated, Run, Total, ValidRun;
    var late := INT64_MAX;
    var quote := PriceInfo(HIGH, 1, STATUS_TRADING, late);
    var last := Trade(key, HIGH, late) + [];
    var reset2 := Reinit(late) + last;
    var second := Trade(key, HIGH, late) + reset2;
    var reset1 := Reinit(late) + second;
    var first := Trade(key, HIGH, late) + reset1;
    EmptyRun(late);
    ValidTail(key, HIGH, late, []);
    ValidReset(late, last);
    ValidTail(key, HIGH, late, reset2);
    ValidReset(late, second);
    ValidTail(key, HIGH, late, reset1);
    var s0 := Started(key, first);
    var s1 := AfterTrade(s0, key, HIGH, late, reset1, 0);
    var s2 := Reinitialised(s1, key, quote, late, second, late);
    var s3 := AfterTrade(s2, key, HIGH, late, reset2, late);
    var s4 := Reinitialised(s3, key, quote, late, last, late);
    var s5 := AfterTrade(s4, key, HIGH, late, [], late);
    Ended(s5, late);
    Twice(s0.cum, HIGH, late, late);
    ThirdWraps();
  }

  lemma EmptyRun(now: int)
    ensures ValidRun([], now)
  {
  }

  lemma ValidTail(key: Key, price: int, slot: int, rest: seq<Event>)
    requires Tradable(price) && 0 <= slot <= INT64_MAX && ValidRun(rest, slot)
    ensures forall now :: now <= slot ==> ValidRun(Trade(key, price, slot) + rest, now)
  {
    var a, b := Quote(key, price, slot), Validated(slot);
    assert Trade(key, price, slot) + rest == [a] + ([b] + rest);
    assert ([b] + rest)[1..] == rest;
    assert ValidRun([b] + rest, slot);
    assert ([a] + ([b] + rest))[1..] == [b] + rest;
  }

  lemma ValidReset(slot: int, rest: seq<Event>)
    requires 0 <= slot <= INT64_MAX && ValidRun(rest, slot)
    ensures ValidRun(Reinit(slot) + rest, slot)
  {
    assert (Reinit(slot) + rest)[1..] == rest;
  }

  lemma Ended(s: State, now: int)
    requires s.num <= |s.comp|
    ensures ValidRun([], now) && Run(s, [], now) == s && Total(s, [], now) == NO_SUMS && EndSlot([], now) == now
  {
  }
}
