/** What the calls of a run leave in the message buffer, seen from the account. */
module MessageBuffer {
  import opened MachineInts
  import opened Keys
  import opened PriceTypes
  import opened Aggregation
  import opened AccountState
  import opened Settings
  import opened ConfidenceFilter
  import opened AggregateHistory
  import opened Wrappers

  /** The buffer's entry for the account: nothing, or messages of the aggregation within upd_price. */
  datatype Content = Empty | Messages(feed: FeedMessage, twap: TwapMessage)

  /** The event calls the buffer, and its transaction goes through. */
  ghost predicate Calls(s: State, e: Event)
    requires s.num <= |s.comp| && ValidEvent(e)
  {
    match e.ins
    case Update(key, args, buffer, noFail) =>
      && Accepted(s, key, args, e.slot) && NeedsBuffer(Refreshed(s, e.slot, e.timestamp)) && buffer.CallSucceeds?
      && (noFail || UpdPrice(s, key, args, e.slot, e.timestamp, buffer).1)
    case _ => false
  }

  /** A call replaces the whole entry. */
  ghost function Put(c: Content, s: State, e: Event): Content
    requires s.num <= |s.comp| && ValidEvent(e)
  {
    if !Calls(s, e) then c
    else if s.accumulatorV2 then Empty
    else var r := Refreshed(s, e.slot, e.timestamp); Messages(AsFeedMessage(r), AsTwapMessage(r))
  }

  /** The entry at the end of a run. */
  ghost function Held(c: Content, s: State, events: seq<Event>, now: int): Content
    requires s.num <= |s.comp| && ValidRun(events, now)
    decreases |events|
  {
    if events == [] then c
    else
      NextKeepsTable(s, events[0]);
      Held(Put(c, s, events[0]), Next(s, events[0]), events[1..], events[0].slot)
  }

  // ----- The flag -----

  /** MESSAGE_BUFFER_CLEARED says the truth, and is only set while the validator aggregates. */
  ghost predicate FlagRight(s: State, c: Content) {
    s.bufferCleared ==> s.accumulatorV2 && c.Empty?
  }

  lemma RefreshedFlags(s: State, slot: int, timestamp: int)
    requires s.num <= |s.comp|
    ensures var r := Refreshed(s, slot, timestamp);
            && r.accumulatorV2 == s.accumulatorV2 && r.bufferCleared == s.bufferCleared && r.exponent == s.exponent
            && (r.messageSent != 0 ==> r.messageSent == s.messageSent)
  {
    hide Outcome, Accumulated, CountingQuotes;
  }

  /** What an update leaves in the flags and the aggregate, and when the buffer was called. */
  lemma UpdateSends(s: State, key: Key, args: UpdArgs, slot: int, timestamp: int, buffer: Buffer)
    requires s.num <= |s.comp| && IsInt64(args.price)
    ensures var t, r := UpdPrice(s, key, args, slot, timestamp, buffer).0, Refreshed(s, slot, timestamp);
            if !Accepted(s, key, args, slot) then t == s
            else
              && ViewOf(t) == ViewOf(r) && t.accumulatorV2 == s.accumulatorV2 && t.exponent == s.exponent
              && if NeedsBuffer(r) && buffer.CallSucceeds?
                 then t.messageSent == 1 && t.bufferCleared == (s.bufferCleared || s.accumulatorV2)
                 else t.messageSent == r.messageSent && t.bufferCleared == s.bufferCleared
  {
    hide Refreshed, StatusFor, Accepted;
    RefreshedFlags(s, slot, timestamp);
    UpdPriceKeepsTable(s, key, args, slot, timestamp, buffer);
    assert Refreshed(s, slot, timestamp).num <= |Refreshed(s, slot, timestamp).comp| by { RefreshedTable(s, slot, timestamp); }
  }

  lemma RefreshedTable(s: State, slot: int, timestamp: int)
    requires s.num <= |s.comp|
    ensures var r := Refreshed(s, slot, timestamp); r.num == s.num && |r.comp| == |s.comp|
  {
    hide Outcome, Accumulated, CountingQuotes;
  }

  lemma NextFlagRight(s: State, c: Content, e: Event)
    requires s.num <= |s.comp| && ValidEvent(e) && FlagRight(s, c)
    ensures FlagRight(Next(s, e), Put(c, s, e))
  {
    hide UpdPrice, Accepted, Outcome, Accumulated, CountingQuotes, Refreshed;
    match e.ins
    case Update(key, args, buffer, noFail) =>
      UpdateSends(s, key, args, e.slot, e.timestamp, buffer);
    case _ =>
  }

  lemma {:induction false} RunFlagRight(s: State, c: Content, events: seq<Event>, now: int)
    requires s.num <= |s.comp| && ValidRun(events, now) && FlagRight(s, c)
    ensures FlagRight(Run(s, events, now), Held(c, s, events, now))
    decreases |events|
  {
    hide Next, Put, FlagRight, ValidEvent;
    if events != [] {
      NextKeepsTable(s, events[0]);
      NextFlagRight(s, c, events[0]);
      RunFlagRight(Next(s, events[0]), Put(c, s, events[0]), events[1..], events[0].slot);
    }
  }

  /**
   In every state a new account can reach, when the validator makes messages no message of an aggregation within
   upd_price is left in the buffer.
   */
  lemma NoMixedMessages(exponent: int, minPub: int, v2: bool, c: Content, events: seq<Event>, slot: int, timestamp: int)
    requires ValidRun(events, 0) && (v2 ==> c.Empty?)
    ensures var s := Fresh(exponent, minPub, v2);
            ValidatorAggregate(Run(s, events, 0), slot, timestamp).Some? ==> Held(c, s, events, 0).Empty?
  {
    hide AggregateStep;
    RunFlagRight(Fresh(exponent, minPub, v2), c, events, 0);
  }

  // ----- When the buffer is called -----

  /** What an observer knows: whether a success still waits to be sent, and whether the buffer was emptied since. */
  datatype Duties = Duties(unsent: bool, emptied: bool)

  ghost predicate Succeeds(s: State, e: Event)
    requires s.num <= |s.comp| && ValidEvent(e)
  {
    EffectOf(s, e).Attempt? && EffectOf(s, e).result.Price?
  }

  /** A call sends what is unsent, an aggregation comes before it, and turning the new mode off undoes the emptying. */
  ghost function Observed(d: Duties, s: State, e: Event): Duties
    requires s.num <= |s.comp| && ValidEvent(e)
  {
    Duties(!Calls(s, e) && (d.unsent || Succeeds(s, e)),
           if SetsMode(e) == Some(false) then false else d.emptied || (Calls(s, e) && s.accumulatorV2))
  }

  ghost function ObservedOver(d: Duties, s: State, events: seq<Event>, now: int): Duties
    requires s.num <= |s.comp| && ValidRun(events, now)
    decreases |events|
  {
    if events == [] then d
    else
      NextKeepsTable(s, events[0]);
      ObservedOver(Observed(d, s, events[0]), Next(s, events[0]), events[1..], events[0].slot)
  }

  ghost function DutiesOf(s: State): Duties {
    Duties(s.messageSent == 0, s.bufferCleared)
  }

  lemma RefreshedUnsent(s: State, slot: int, timestamp: int)
    requires s.num <= |s.comp|
    ensures Refreshed(s, slot, timestamp).messageSent == 0
            <==> s.messageSent == 0 || (!s.accumulatorV2 && slot > s.agg.pubSlot && Outcome(s, slot).Price?)
  {
    hide Outcome, Accumulated, CountingQuotes;
  }

  lemma NextDuties(s: State, e: Event)
    requires s.num <= |s.comp| && ValidEvent(e)
    ensures DutiesOf(Next(s, e)) == Observed(DutiesOf(s), s, e)
  {
    hide UpdPrice, Accepted, Outcome, Accumulated, CountingQuotes, Refreshed, IsFlag;
    match e.ins
    case Update(key, args, buffer, noFail) =>
      UpdateSends(s, key, args, e.slot, e.timestamp, buffer);
      RefreshedUnsent(s, e.slot, e.timestamp);
      RefreshedFlags(s, e.slot, e.timestamp);
    case Add(key) => FlagKeys(key);
    case _ =>
  }

  lemma {:induction false} RunDuties(s: State, events: seq<Event>, now: int)
    requires s.num <= |s.comp| && ValidRun(events, now)
    ensures DutiesOf(Run(s, events, now)) == ObservedOver(DutiesOf(s), s, events, now)
    decreases |events|
  {
    hide Next, Observed, DutiesOf, ValidEvent;
    if events != [] {
      NextKeepsTable(s, events[0]);
      NextDuties(s, events[0]);
      RunDuties(Next(s, events[0]), events[1..], events[0].slot);
    }
  }

  /** The event brings the buffer's accounts, the call would succeed, and its transaction goes through. */
  ghost predicate Offers(s: State, e: Event)
    requires s.num <= |s.comp| && ValidEvent(e)
  {
    match e.ins
    case Update(key, args, buffer, noFail) =>
      && Accepted(s, key, args, e.slot) && buffer.CallSucceeds?
      && (noFail || UpdPrice(s, key, args, e.slot, e.timestamp, buffer).1)
    case _ => false
  }

  /**
   After every run from a new account, the next update that offers a call makes it exactly when it has something to do:
   while the program aggregates, when a success, its own included, was not sent yet, or nothing was ever sent; after
   that, when the buffer was not emptied since the mode was last turned off.
   */
  lemma CallsWhenDue(exponent: int, minPub: int, v2: bool, events: seq<Event>, e: Event)
    requires ValidRun(events, 0) && ValidEvent(e)
    ensures var s0 := Fresh(exponent, minPub, v2);
            var s, d := Run(s0, events, 0), ObservedOver(Duties(true, v2), s0, events, 0);
            Calls(s, e) <==>
              Offers(s, e) && if Latest(SetsMode, events, v2) then !d.emptied else d.unsent || Succeeds(s, e)
  {
    hide Run, ObservedOver, UpdPrice, Accepted, Outcome, Refreshed, Latest;
    var s0 := Fresh(exponent, minPub, v2);
    var s := Run(s0, events, 0);
    RunDuties(s0, events, 0);
    RunSettings(s0, events, 0);
    RefreshedUnsent(s, e.slot, e.timestamp);
    RefreshedFlags(s, e.slot, e.timestamp);
  }

  // ----- The messages -----

  /**
   Once there was a success and message_sent_ is set, what is in the buffer is what the account would send now, but for
   the time before.
   */
  ghost predicate UpToDate(s: State, c: Content) {
    s.messageSent != 0 && s.lastSlot != 0 && c.Messages? ==>
      && c.feed == AsFeedMessage(s).(prevPublishTime := c.feed.prevPublishTime)
      && c.twap == AsTwapMessage(s).(prevPublishTime := c.twap.prevPublishTime)
  }

  /** A success clears message_sent_, and any other attempt keeps the messages but for their previous time. */
  lemma AttemptKeepsMessages(s: State, slot: int, timestamp: int)
    requires s.num <= |s.comp|
    ensures var t := AggregateStep(s, slot, timestamp);
            && t.exponent == s.exponent
            && if Outcome(s, slot).Price? then t.messageSent == 0
               else t.messageSent == s.messageSent && t.lastSlot == s.lastSlot
                    && AsFeedMessage(t) == AsFeedMessage(s).(prevPublishTime := AsFeedMessage(t).prevPublishTime)
                    && AsTwapMessage(t) == AsTwapMessage(s).(prevPublishTime := AsTwapMessage(t).prevPublishTime)
  {
    hide Outcome, Accumulated, CountingQuotes;
  }

  lemma AttemptUpToDate(s: State, c: Content, slot: int, timestamp: int)
    requires s.num <= |s.comp| && UpToDate(s, c)
    ensures UpToDate(AggregateStep(s, slot, timestamp), c)
  {
    hide AggregateStep, AsFeedMessage, AsTwapMessage;
    AttemptKeepsMessages(s, slot, timestamp);
  }

  lemma SameMessages(s: State, t: State)
    requires ViewOf(s) == ViewOf(t) && s.exponent == t.exponent
    ensures AsFeedMessage(s) == AsFeedMessage(t) && AsTwapMessage(s) == AsTwapMessage(t)
  {
  }

  lemma UpdateUpToDate(s: State, c: Content, e: Event)
    requires s.num <= |s.comp| && ValidEvent(e) && UpToDate(s, c) && e.ins.Update?
    ensures UpToDate(Next(s, e), Put(c, s, e))
  {
    hide UpdPrice, Accepted, AggregateStep, AsFeedMessage, AsTwapMessage;
    var key, args, buffer := e.ins.key, e.ins.args, e.ins.buffer;
    RefreshedFlags(s, e.slot, e.timestamp);
    UpdateSends(s, key, args, e.slot, e.timestamp, buffer);
    AttemptUpToDate(s, c, e.slot, e.timestamp);
    if Accepted(s, key, args, e.slot) {
      SameMessages(Refreshed(s, e.slot, e.timestamp), UpdPrice(s, key, args, e.slot, e.timestamp, buffer).0);
    }
  }

  lemma NextUpToDate(s: State, c: Content, e: Event)
    requires s.num <= |s.comp| && ValidEvent(e) && UpToDate(s, c)
    ensures UpToDate(Next(s, e), Put(c, s, e))
  {
    hide AggregateStep, AsFeedMessage, AsTwapMessage, UpdPrice, Accepted;
    match e.ins
    case Update(key, args, buffer, noFail) =>
      hide Next, Put, Calls;
      UpdateUpToDate(s, c, e);
    case Validate =>
      AttemptUpToDate(s, c, e.slot, e.timestamp);
    case Init(exponent) =>
    case _ =>
      SameMessages(s, Next(s, e));
  }

  lemma {:induction false} RunUpToDate(s: State, c: Content, events: seq<Event>, now: int)
    requires s.num <= |s.comp| && ValidRun(events, now) && UpToDate(s, c)
    ensures UpToDate(Run(s, events, now), Held(c, s, events, now))
    decreases |events|
  {
    hide Next, Put, UpToDate, ValidEvent;
    if events != [] {
      NextKeepsTable(s, events[0]);
      NextUpToDate(s, c, events[0]);
      RunUpToDate(Next(s, events[0]), Put(c, s, events[0]), events[1..], events[0].slot);
    }
  }

  /**
   After any run, also one in which errors were swallowed halfway: once there was a success and message_sent_ is set,
   messages found in the buffer are those of the last success, with the cumulative sums up to it.
   */
  lemma SentDescribesLastSuccess(exponent: int, minPub: int, v2: bool, c: Content, events: seq<Event>)
    requires ValidRun(events, 0)
    ensures var s := Fresh(exponent, minPub, v2);
            var t, held := Run(s, events, 0), Held(c, s, events, 0);
            var last := Recorded(Record(NO_SUCCESS, NO_SUCCESS), s, events, 0).last;
            t.messageSent != 0 && t.lastSlot != 0 && held.Messages? ==>
              && Success(held.feed.price, held.feed.conf, held.feed.publishTime, held.twap.publishSlot) == last
              && held.twap.publishTime == last.timestamp && held.twap.cumulative == t.cum
              && held.feed.exponent == held.twap.exponent == Latest(SetsExponent, events, exponent)
  {
    hide Run, Held, Recorded;
    RunUpToDate(Fresh(exponent, minPub, v2), c, events, 0);
    MessagesDescribeLastSuccess(exponent, minPub, v2, events);
  }
}
