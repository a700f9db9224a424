/**
 What a run does to the current, previous and cumulative aggregate.  Seen through these fields an event is
 one of three things: quiet, an aggregation attempt, or a reset.
 */
module AggregateHistory {
  import opened MachineInts
  import opened Keys
  import opened PriceTypes
  import opened Aggregation
  import opened AccountState
  import opened Settings
  import opened ConfidenceFilter
  import opened Wrappers

  datatype View = View(
    lastSlot: int, timestamp: int,
    prevSlot: int, prevPrice: int, prevConf: int, prevTimestamp: int,
    agg: PriceInfo, cum: Cumulative)

  ghost function ViewOf(s: State): View {
    View(s.lastSlot, s.timestamp, s.prevSlot, s.prevPrice, s.prevConf, s.prevTimestamp, s.agg, s.cum)
  }

  datatype Effect = Quiet | Attempt(result: Result, slot: int, timestamp: int, maxLatency: int) | Reset

  ghost function EffectOf(s: State, e: Event): Effect
    requires s.num <= |s.comp| && ValidEvent(e)
  {
    match e.ins
    case Update(key, args, buffer, noFail) =>
      if Accepted(s, key, args, e.slot) && !s.accumulatorV2 && e.slot > s.agg.pubSlot
         && (noFail || UpdPrice(s, key, args, e.slot, e.timestamp, buffer).1)
      then Attempt(Outcome(s, e.slot), e.slot, e.timestamp, s.maxLatency) else Quiet
    case Validate =>
      if s.accumulatorV2 && s.bufferCleared && s.agg.pubSlot != e.slot
      then Attempt(Outcome(s, e.slot), e.slot, e.timestamp, s.maxLatency) else Quiet
    case Init(exponent) => if InitPrice(s, exponent).Some? then Reset else Quiet
    case _ => Quiet
  }

  ghost function Tried(v: View, slot: int, timestamp: int): View {
    var trading := v.agg.status == STATUS_TRADING;
    View(v.lastSlot, timestamp,
         if trading then v.agg.pubSlot else v.prevSlot, if trading then v.agg.price else v.prevPrice,
         if trading then v.agg.conf else v.prevConf, if trading then v.timestamp else v.prevTimestamp,
         PriceInfo(v.agg.price, v.agg.conf, STATUS_UNKNOWN, slot), v.cum)
  }

  ghost function Apply(v: View, f: Effect): View {
    match f
    case Quiet => v
    case Reset => View(0, v.timestamp, 0, 0, 0, 0, ZERO_INFO, v.cum)
    case Attempt(result, slot, timestamp, maxLatency) =>
      var t := Tried(v, slot, timestamp);
      match result
      case NoPrice => t
      case Price(price, conf) =>
        View(slot, timestamp, t.prevSlot, t.prevPrice, t.prevConf, t.prevTimestamp,
             PriceInfo(price, conf, STATUS_TRADING, slot),
             Accumulated(v.cum, price, conf, Max(0, slot - t.prevSlot), maxLatency))
  }

  lemma AttemptView(s: State, slot: int, timestamp: int)
    requires s.num <= |s.comp|
    ensures ViewOf(AggregateStep(s, slot, timestamp)) == Apply(ViewOf(s), Attempt(Outcome(s, slot), slot, timestamp, s.maxLatency))
  {
    hide Outcome, Accumulated, CountingQuotes;
  }

  lemma UpdateView(s: State, key: Key, args: UpdArgs, slot: int, timestamp: int, buffer: Buffer)
    requires s.num <= |s.comp| && IsInt64(args.price)
    ensures var t := UpdPrice(s, key, args, slot, timestamp, buffer).0;
            if Accepted(s, key, args, slot) && !s.accumulatorV2 && slot > s.agg.pubSlot
            then ViewOf(t) == ViewOf(AggregateStep(s, slot, timestamp))
            else ViewOf(t) == ViewOf(s)
  {
    hide AggregateStep, StatusFor;
    UpdPriceKeepsTable(s, key, args, slot, timestamp, buffer);
  }

  /** Every event acts on the view as its effect says. */
  lemma NextView(s: State, e: Event)
    requires s.num <= |s.comp| && ValidEvent(e)
    ensures ViewOf(Next(s, e)) == Apply(ViewOf(s), EffectOf(s, e))
  {
    hide AggregateStep;
    match e.ins
    case Update(key, args, buffer, noFail) =>
      hide UpdPrice;
      UpdateView(s, key, args, e.slot, e.timestamp, buffer);
      AttemptView(s, e.slot, e.timestamp);
    case Validate =>
      AttemptView(s, e.slot, e.timestamp);
    case _ =>
  }

  // ----- Current, previous and last aggregate -----

  /**
   The aggregate, the previous one and the slot of the last success fit together, `now` being the clock:
   while trading, the current aggregate is the last success and lies strictly after the previous one;
   otherwise the previous one is the last success and the current price still repeats it.
   */
  ghost predicate Coherent(v: View, now: int) {
    && 0 <= v.prevSlot <= v.lastSlot <= v.agg.pubSlot <= now
    && (v.agg.status == STATUS_TRADING || v.agg.status == STATUS_UNKNOWN)
    && (v.agg.status == STATUS_TRADING ==> v.lastSlot == v.agg.pubSlot > v.prevSlot && v.agg.conf > 0)
    && (v.agg.status != STATUS_TRADING ==>
          v.lastSlot == v.prevSlot && v.agg.price == v.prevPrice && v.agg.conf == v.prevConf)
  }

  /** An effect that can follow a view at time now. */
  ghost predicate Timely(v: View, f: Effect, slot: int) {
    f.Attempt? ==>
      && f.slot == slot && v.agg.pubSlot != slot && 0 <= slot <= INT64_MAX
      && (f.result.Price? ==> IsInt64(f.result.price) && 0 < f.result.conf <= INT64_MAX)
  }

  lemma EffectTimely(s: State, e: Event)
    requires s.num <= |s.comp| && ValidEvent(e)
    ensures Timely(ViewOf(s), EffectOf(s, e), e.slot)
  {
    hide Aggregate, Quotes, UpdPrice;
    AggregateBounds(s.comp[..s.num], e.slot, s.maxLatency, s.minPub);
  }

  lemma ApplyCoherent(v: View, f: Effect, now: int, slot: int)
    requires Coherent(v, now) && now <= slot && Timely(v, f, slot)
    ensures Coherent(Apply(v, f), slot)
  {
    hide Accumulated;
  }

  lemma {:induction false} RunCoherent(s: State, events: seq<Event>, now: int)
    requires s.num <= |s.comp| && ValidRun(events, now) && Coherent(ViewOf(s), now)
    ensures Coherent(ViewOf(Run(s, events, now)), EndSlot(events, now))
    decreases |events|
  {
    hide Next, EffectOf, Coherent, Apply, ViewOf, Timely, ValidEvent;
    if events != [] {
      var e := events[0];
      NextKeepsTable(s, e);
      NextView(s, e);
      EffectTimely(s, e);
      ApplyCoherent(ViewOf(s), EffectOf(s, e), now, e.slot);
      RunCoherent(Next(s, e), events[1..], e.slot);
    }
  }

  /** In every state a new account can reach, current, previous and last aggregate fit together. */
  lemma ReachableCoherent(exponent: int, minPub: int, v2: bool, events: seq<Event>)
    requires ValidRun(events, 0)
    ensures Coherent(ViewOf(Run(Fresh(exponent, minPub, v2), events, 0)), EndSlot(events, 0))
  {
    RunCoherent(Fresh(exponent, minPub, v2), events, 0);
  }

  // ----- The messages -----

  /** A successful aggregation, as an observer of the run would note it down. */
  datatype Success = Success(price: int, conf: int, timestamp: int, slot: int)

  const NO_SUCCESS: Success := Success(0, 0, 0, 0)

  /** The last two successes since the last reset. */
  datatype Record = Record(last: Success, before: Success)

  ghost function Noted(r: Record, f: Effect): Record {
    match f
    case Quiet => r
    case Reset => Record(NO_SUCCESS, NO_SUCCESS)
    case Attempt(result, slot, timestamp, maxLatency) =>
      match result
      case NoPrice => r
      case Price(price, conf) => Record(Success(price, conf, timestamp, slot), r.last)
  }

  /** The observer's record at the end of a run. */
  ghost function Recorded(r: Record, s: State, events: seq<Event>, now: int): Record
    requires s.num <= |s.comp| && ValidRun(events, now)
    decreases |events|
  {
    if events == [] then r
    else
      NextKeepsTable(s, events[0]);
      Recorded(Noted(r, EffectOf(s, events[0])), Next(s, events[0]), events[1..], events[0].slot)
  }

  ghost predicate Describes(v: View, r: Record) {
    && v.lastSlot == r.last.slot
    && if v.agg.status == STATUS_TRADING
       then Success(v.agg.price, v.agg.conf, v.timestamp, v.agg.pubSlot) == r.last
            && Success(v.prevPrice, v.prevConf, v.prevTimestamp, v.prevSlot) == r.before
       else Success(v.prevPrice, v.prevConf, v.prevTimestamp, v.prevSlot) == r.last
  }

  lemma ApplyDescribes(v: View, r: Record, f: Effect)
    requires Describes(v, r)
    ensures Describes(Apply(v, f), Noted(r, f))
  {
    hide Accumulated;
  }

  lemma {:induction false} RunDescribes(s: State, r: Record, events: seq<Event>, now: int)
    requires s.num <= |s.comp| && ValidRun(events, now) && Describes(ViewOf(s), r)
    ensures Describes(ViewOf(Run(s, events, now)), Recorded(r, s, events, now))
    decreases |events|
  {
    hide Next, EffectOf, Describes, Apply, ViewOf, Noted, ValidEvent;
    if events != [] {
      var e := events[0];
      NextKeepsTable(s, e);
      NextView(s, e);
      ApplyDescribes(ViewOf(s), r, EffectOf(s, e));
      RunDescribes(Next(s, e), Noted(r, EffectOf(s, e)), events[1..], e.slot);
    }
  }

  /**
   After any run, also one in which errors were swallowed halfway, both messages describe the last
   successful aggregation: its price, confidence and time, and its slot, in the exponent set last, with the sums so far.
   */
  lemma MessagesDescribeLastSuccess(exponent: int, minPub: int, v2: bool, events: seq<Event>)
    requires ValidRun(events, 0)
    ensures var t := Run(Fresh(exponent, minPub, v2), events, 0);
            var r := Recorded(Record(NO_SUCCESS, NO_SUCCESS), Fresh(exponent, minPub, v2), events, 0);
            var feed, twap := AsFeedMessage(t), AsTwapMessage(t);
            && feed.price == r.last.price && feed.conf == r.last.conf
            && feed.publishTime == twap.publishTime == r.last.timestamp
            && twap.publishSlot == r.last.slot
            && feed.prevPublishTime == twap.prevPublishTime
            && feed.prevPublishTime == (if t.agg.status == STATUS_TRADING then r.before else r.last).timestamp
            && feed.exponent == twap.exponent == Latest(SetsExponent, events, exponent)
            && twap.cumulative == t.cum
  {
    RunDescribes(Fresh(exponent, minPub, v2), Record(NO_SUCCESS, NO_SUCCESS), events, 0);
    RunSettings(Fresh(exponent, minPub, v2), events, 0);
  }
}
