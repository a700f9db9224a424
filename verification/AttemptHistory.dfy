/** The fields that tell when an aggregation was last tried, and over how many quotes. */
module AttemptHistory {
  import opened MachineInts
  import opened Keys
  import opened PriceTypes
  import opened Aggregation
  import opened AccountState
  import opened ConfidenceFilter
  import opened AggregateHistory
  import opened QuoteQuality
  import opened Consensus
  import opened Wrappers

  /** The last attempt: its slot and the slot of the one before, its time, and how many publishers were heard in it. */
  datatype Tries = Tries(slot: int, before: int, timestamp: int, heard: nat)

  const NO_TRIES: Tries := Tries(0, 0, 0, 0)

  ghost function Tried(r: Tries, s: State, e: Event): Tries
    requires s.num <= |s.comp| && ValidEvent(e)
  {
    match EffectOf(s, e)
    case Attempt(_, _, _, _) => Tries(e.slot, r.slot, e.timestamp, HeardNow(s, e.slot))
    case Reset => r.(slot := 0, before := 0)
    case Quiet => r
  }

  /** The observer's note at the end of a run. */
  ghost function TriedOver(r: Tries, s: State, events: seq<Event>, now: int): Tries
    requires s.num <= |s.comp| && ValidRun(events, now)
    decreases |events|
  {
    if events == [] then r
    else
      NextKeepsTable(s, events[0]);
      TriedOver(Tried(r, s, events[0]), Next(s, events[0]), events[1..], events[0].slot)
  }

  ghost function TriesOf(s: State): Tries {
    Tries(s.agg.pubSlot, s.validSlot, s.timestamp, s.numQt)
  }

  lemma AttemptTries(s: State, slot: int, timestamp: int)
    requires s.num <= |s.comp| && AllSharp(s.comp)
    ensures TriesOf(AggregateStep(s, slot, timestamp)) == Tries(slot, s.agg.pubSlot, timestamp, HeardNow(s, slot))
  {
    hide Aggregate, Accumulated, Quotes, Publishers;
    QuotesAreHeard(Table(s), slot, s.maxLatency);
  }

  lemma NextTries(s: State, e: Event)
    requires s.num <= |s.comp| && AllSharp(s.comp) && ValidEvent(e)
    ensures TriesOf(Next(s, e)) == Tried(TriesOf(s), s, e)
  {
    hide AggregateStep, StatusFor, FindKey, Accepted, AllSharp, HeardNow, AddPublisher, DelPublisher;
    AttemptTries(s, e.slot, e.timestamp);
    match e.ins
    case Add(key) => AddKeepsTries(s, key);
    case Del(key) => DelKeepsTries(s, key);
    case _ =>
  }

  lemma AddKeepsTries(s: State, key: Key)
    requires s.num <= |s.comp|
    ensures TriesOf(OrElse(AddPublisher(s, key), s)) == TriesOf(s)
  {
  }

  lemma DelKeepsTries(s: State, key: Key)
    requires s.num <= |s.comp|
    ensures TriesOf(OrElse(DelPublisher(s, key), s)) == TriesOf(s)
  {
  }

  lemma {:induction false} RunTries(s: State, events: seq<Event>, now: int)
    requires s.num <= |s.comp| && AllSharp(s.comp) && ValidRun(events, now)
    ensures TriesOf(Run(s, events, now)) == TriedOver(TriesOf(s), s, events, now)
    decreases |events|
  {
    hide Next, Tried, TriesOf, AllSharp, ValidEvent;
    if events != [] {
      NextKeepsTable(s, events[0]);
      NextKeepsSharp(s, events[0]);
      NextTries(s, events[0]);
      RunTries(Next(s, events[0]), events[1..], events[0].slot);
    }
  }

  /**
   After every run from a new account the account names the slot of the last attempt, that of the attempt before it,
   the time of the last one, and the number of publishers heard in it, whether or not a price came out.
   */
  lemma AttemptsRecorded(exponent: int, minPub: int, v2: bool, events: seq<Event>)
    requires ValidRun(events, 0)
    ensures var s := Fresh(exponent, minPub, v2);
            var t, r := Run(s, events, 0), TriedOver(NO_TRIES, s, events, 0);
            t.agg.pubSlot == r.slot && t.validSlot == r.before && t.timestamp == r.timestamp && t.numQt == r.heard
  {
    RunTries(Fresh(exponent, minPub, v2), events, 0);
  }
}
