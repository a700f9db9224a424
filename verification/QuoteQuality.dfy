/** What the confidence filter of upd_price buys the aggregation, over runs. */
module QuoteQuality {
  import opened MachineInts
  import opened Keys
  import opened PriceTypes
  import opened Aggregation
  import opened AccountState
  import opened ConfidenceFilter
  import opened PublisherTable
  import opened Wrappers

  ghost predicate AllSharp(c: seq<PriceComponent>) {
    forall i :: 0 <= i < |c| ==> Sharp(c[i].latest)
  }

  lemma {:induction false} ByKeyElements(c: seq<PriceComponent>)
    ensures multiset(ByKey(c)) == multiset(c)
  {
    if c != [] {
      ByKeyElements(c[1..]);
      InsertedPermutes(c[0], ByKey(c[1..]));
      assert c == [c[0]] + c[1..];
    }
  }

  lemma AddKeepsSharp(s: State, key: Key)
    requires s.num <= |s.comp| && AllSharp(s.comp) && AddPublisher(s, key).Some?
    ensures AllSharp(AddPublisher(s, key).value.comp)
  {
    if key != ENABLE_ACCUMULATOR_V2 && key != DISABLE_ACCUMULATOR_V2 {
      var e := Extended(s.comp[..s.num], key);
      var d := ByKey(e);
      ByKeyElements(e);
      forall i | 0 <= i < |d| ensures Sharp(d[i].latest) {
        assert d[i] in multiset(d);
        assert d[i] in e;
      }
    }
  }

  lemma UpdateKeepsSharp(s: State, key: Key, args: UpdArgs, slot: int, timestamp: int, buffer: Buffer)
    requires s.num <= |s.comp| && AllSharp(s.comp) && IsInt64(args.price) && IsUint64(args.conf)
    ensures AllSharp(UpdPrice(s, key, args, slot, timestamp, buffer).0.comp)
  {
    hide Outcome, Accumulated, CountingQuotes, Sharp, StatusFor;
    var r := Refreshed(s, slot, timestamp);
    assert |r.comp| == |s.comp| && AllSharp(r.comp);
    if StatusFor(args.price, args.conf, args.status).Some? {
      StatusIsSharp(args.price, args.conf, args.status, args.publishingSlot);
    }
  }

  lemma NextKeepsSharp(s: State, e: Event)
    requires s.num <= |s.comp| && AllSharp(s.comp) && ValidEvent(e)
    ensures AllSharp(Next(s, e).comp)
  {
    hide UpdPrice, AddPublisher;
    match e.ins
    case Update(key, args, buffer, noFail) =>
      UpdateKeepsSharp(s, key, args, e.slot, e.timestamp, buffer);
    case Validate =>
      hide Outcome, Accumulated, CountingQuotes, Sharp;
    case Add(key) =>
      if AddPublisher(s, key).Some? {
        AddKeepsSharp(s, key);
      }
    case _ =>
  }

  lemma {:induction false} RunKeepsSharp(s: State, events: seq<Event>, now: int)
    requires s.num <= |s.comp| && AllSharp(s.comp) && ValidRun(events, now)
    ensures AllSharp(Run(s, events, now).comp)
    decreases |events|
  {
    hide Next, AllSharp, ValidEvent;
    if events != [] {
      NextKeepsTable(s, events[0]);
      NextKeepsSharp(s, events[0]);
      RunKeepsSharp(Next(s, events[0]), events[1..], events[0].slot);
    }
  }

  lemma {:induction false} QuotesAreLatest(c: seq<PriceComponent>, slot: int, maxLatency: int)
    requires AllSharp(c)
    ensures AllQuotesSharp(Quotes(c, slot, maxLatency))
  {
    if c != [] {
      QuotesAreLatest(c[..|c| - 1], slot, maxLatency);
    }
  }

  /**
   In every state a new account can reach, an aggregation succeeds exactly when at least one quote counts and no fewer
   than the configured minimum: because of the filter, the check for a vanishing confidence never fires.
   */
  lemma ReachableTrading(exponent: int, minPub: int, v2: bool, events: seq<Event>, slot: int)
    requires ValidRun(events, 0)
    ensures var s := Run(Fresh(exponent, minPub, v2), events, 0);
            Outcome(s, slot).Price? <==> |CountingQuotes(s, slot)| >= Max(1, s.minPub)
  {
    hide Aggregate, Quotes;
    RunKeepsSharp(Fresh(exponent, minPub, v2), events, 0);
    var s := Run(Fresh(exponent, minPub, v2), events, 0);
    var table := s.comp[..s.num];
    QuotesCount(table, slot, s.maxLatency);
    QuotesAreLatest(table, slot, s.maxLatency);
    SharpQuotesTrade(CountingQuotes(s, slot), s.minPub, slot, s.maxLatency);
  }
}
