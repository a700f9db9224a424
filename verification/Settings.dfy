/** What the configuring instructions of a run leave behind, told from the events alone. */
module Settings {
  import opened MachineInts
  import opened Keys
  import opened PriceTypes
  import opened Aggregation
  import opened AccountState
  import opened ConfidenceFilter
  import opened Wrappers

  function After<T>(choice: Option<T>, before: T): T {
    match choice case Some(x) => x case None => before
  }

  /** What the last event that sets something sets it to. */
  function Latest<T>(sets: Event -> Option<T>, events: seq<Event>, before: T): T {
    if events == [] then before
    else Latest(sets, events[1..], After(sets(events[0]), before))
  }

  /** Nothing after the last event that sets it matters, and nothing before. */
  lemma {:induction false} LatestIsLast<T>(sets: Event -> Option<T>, events: seq<Event>, before: T, i: nat)
    requires i < |events| && sets(events[i]).Some? && forall j :: i < j < |events| ==> sets(events[j]).None?
    ensures Latest(sets, events, before) == sets(events[i]).value
  {
    if i > 0 {
      LatestIsLast(sets, events[1..], After(sets(events[0]), before), i - 1);
    } else {
      LatestUnset(sets, events[1..], sets(events[0]).value);
    }
  }

  lemma {:induction false} LatestUnset<T>(sets: Event -> Option<T>, events: seq<Event>, before: T)
    requires forall j :: 0 <= j < |events| ==> sets(events[j]).None?
    ensures Latest(sets, events, before) == before
  {
    if events != [] {
      LatestUnset(sets, events[1..], before);
    }
  }

  /** Only an exponent from -12 to 12 is accepted. */
  function SetsExponent(e: Event): Option<int> {
    if e.ins.Init? && -12 <= e.ins.exponent <= 12 then Some(e.ins.exponent) else None
  }

  /** The key with 31 zero bytes before a last one. */
  predicate IsFlag(key: Key, last: int) {
    (forall i :: 0 <= i < 31 ==> key[i] == 0) && key[31] == last
  }

  function SetsMode(e: Event): Option<bool> {
    if e.ins.Add? && IsFlag(e.ins.key, 1) then Some(true)
    else if e.ins.Add? && IsFlag(e.ins.key, 2) then Some(false) else None
  }

  function SetsMinPub(e: Event): Option<int> {
    if e.ins.SetMinPub? then Some(e.ins.minPub) else None
  }

  function SetsMaxLatency(e: Event): Option<int> {
    if e.ins.SetMaxLatency? then Some(e.ins.maxLatency) else None
  }

  lemma FlagKeys(key: Key)
    ensures key == ENABLE_ACCUMULATOR_V2 <==> IsFlag(key, 1)
    ensures key == DISABLE_ACCUMULATOR_V2 <==> IsFlag(key, 2)
  {
    if IsFlag(key, 1) {
      assert forall i :: 0 <= i < 32 ==> key[i] == ENABLE_ACCUMULATOR_V2[i];
    }
    if IsFlag(key, 2) {
      assert forall i :: 0 <= i < 32 ==> key[i] == DISABLE_ACCUMULATOR_V2[i];
    }
  }

  lemma NextSettings(s: State, e: Event)
    requires s.num <= |s.comp| && ValidEvent(e)
    ensures var t := Next(s, e);
            && t.exponent == After(SetsExponent(e), s.exponent) && t.accumulatorV2 == After(SetsMode(e), s.accumulatorV2)
            && t.minPub == After(SetsMinPub(e), s.minPub) && t.maxLatency == After(SetsMaxLatency(e), s.maxLatency)
  {
    hide Outcome, Accumulated, StatusFor, CountingQuotes, FindKey, IsFlag;
    match e.ins
    case Update(key, args, buffer, noFail) =>
      var r := Refreshed(s, e.slot, e.timestamp);
      assert r.exponent == s.exponent && r.accumulatorV2 == s.accumulatorV2;
      assert r.minPub == s.minPub && r.maxLatency == s.maxLatency;
    case Add(key) => FlagKeys(key);
    case _ =>
  }

  /** After every run the settings are those of the last event that sets them, or those before the run. */
  lemma {:induction false} RunSettings(s: State, events: seq<Event>, now: int)
    requires s.num <= |s.comp| && ValidRun(events, now)
    ensures var t := Run(s, events, now);
            && t.exponent == Latest(SetsExponent, events, s.exponent)
            && t.accumulatorV2 == Latest(SetsMode, events, s.accumulatorV2)
            && t.minPub == Latest(SetsMinPub, events, s.minPub)
            && t.maxLatency == Latest(SetsMaxLatency, events, s.maxLatency)
    decreases |events|
  {
    hide Next, ValidEvent, SetsExponent, SetsMode, SetsMinPub, SetsMaxLatency;
    if events != [] {
      NextKeepsTable(s, events[0]);
      NextSettings(s, events[0]);
      RunSettings(Next(s, events[0]), events[1..], events[0].slot);
    }
  }
}
