/** The publisher table as a map from keys to latest quotes: what each instruction does to it, and what runs keep. */
module QuoteHistory {
  import opened MachineInts
  import opened Keys
  import opened PriceTypes
  import opened Aggregation
  import opened AccountState
  import opened ConfidenceFilter
  import opened PublisherTable
  import opened Wrappers
  import History = AggregateHistory

  ghost function EntryIn(c: seq<PriceComponent>, key: Key): Option<PriceComponent> {
    match FindKey(c, key)
    case None => None
    case Some(i) => Some(c[i])
  }

  ghost function EntryOf(s: State, key: Key): Option<PriceComponent>
    requires s.num <= |s.comp|
  {
    EntryIn(s.comp[..s.num], key)
  }

  /** A publisher's latest quote, if it is in the table. */
  ghost function QuoteOf(s: State, key: Key): Option<PriceInfo>
    requires s.num <= |s.comp|
  {
    match EntryOf(s, key) case None => None case Some(entry) => Some(entry.latest)
  }

  /** The quote it had in the last aggregation. */
  ghost function SnapshotOf(s: State, key: Key): Option<PriceInfo>
    requires s.num <= |s.comp|
  {
    match EntryOf(s, key) case None => None case Some(entry) => Some(entry.agg)
  }

  /** What an instruction does to the quote of one key, without saying where in the table the key is. */
  ghost function QuoteAfter(s: State, e: Event, k: Key): Option<PriceInfo>
    requires s.num <= |s.comp| && ValidEvent(e)
  {
    match e.ins
    case Update(key, args, buffer, _) =>
      if k == key && args.isComponent && UpdPrice(s, key, args, e.slot, e.timestamp, buffer).1 then
        match StatusFor(args.price, args.conf, args.status)
        case None => None
        case Some(status) => Some(PriceInfo(args.price, args.conf, status, args.publishingSlot))
      else QuoteOf(s, k)
    case Add(key) =>
      if k == key && AddPublisher(s, key).Some? && key != ENABLE_ACCUMULATOR_V2 && key != DISABLE_ACCUMULATOR_V2
      then Some(ZERO_INFO) else QuoteOf(s, k)
    case Del(key) => if k == key && key != ZERO_KEY then None else QuoteOf(s, k)
    case Init(exponent) =>
      if InitPrice(s, exponent).Some? && QuoteOf(s, k).Some? then Some(ZERO_INFO) else QuoteOf(s, k)
    case _ => QuoteOf(s, k)
  }

  /** What it does to the snapshot of one key: an attempt at an aggregation takes the quote, whatever comes of it. */
  ghost function SnapshotAfter(s: State, e: Event, k: Key): Option<PriceInfo>
    requires s.num <= |s.comp| && ValidEvent(e)
  {
    if History.EffectOf(s, e).Attempt? then QuoteOf(s, k)
    else
      match e.ins
      case Add(key) =>
        if k == key && AddPublisher(s, key).Some? && key != ENABLE_ACCUMULATOR_V2 && key != DISABLE_ACCUMULATOR_V2
        then Some(ZERO_INFO) else SnapshotOf(s, k)
      case Del(key) => if k == key && key != ZERO_KEY then None else SnapshotOf(s, k)
      case Init(exponent) =>
        if InitPrice(s, exponent).Some? && SnapshotOf(s, k).Some? then Some(ZERO_INFO) else SnapshotOf(s, k)
      case _ => SnapshotOf(s, k)
  }

  // ----- Quotes by key -----

  lemma EntryAt(c: seq<PriceComponent>, i: nat)
    requires DistinctKeys(c) && i < |c|
    ensures EntryIn(c, c[i].pub) == Some(c[i])
  {
  }

  /** Where a component stands does not matter. */
  lemma EntryPermutes(c: seq<PriceComponent>, d: seq<PriceComponent>, key: Key)
    requires DistinctKeys(c) && DistinctKeys(d) && multiset(c) == multiset(d)
    ensures EntryIn(c, key) == EntryIn(d, key)
  {
    hide DistinctKeys;
    match FindKey(c, key)
    case Some(i) =>
      assert c[i] in multiset(d);
      var j :| 0 <= j < |d| && d[j] == c[i];
      EntryAt(d, j);
    case None =>
      forall j | 0 <= j < |d| ensures d[j].pub != key {
        assert d[j] in multiset(d);
        assert d[j] in c;
      }
  }

  /** An entry with its quote copied into the snapshot. */
  ghost function Taken(entry: Option<PriceComponent>): Option<PriceComponent> {
    match entry case None => None case Some(x) => Some(x.(agg := x.latest))
  }

  lemma EntriesTaken(c: seq<PriceComponent>, d: seq<PriceComponent>, key: Key)
    requires |c| == |d| && forall i :: 0 <= i < |c| ==> d[i] == c[i].(agg := c[i].latest)
    ensures EntryIn(d, key) == Taken(EntryIn(c, key))
  {
    SameIndex(c, d, key);
  }

  lemma {:induction false} SameIndex(c: seq<PriceComponent>, d: seq<PriceComponent>, key: Key)
    requires |c| == |d| && forall i :: 0 <= i < |c| ==> c[i].pub == d[i].pub
    ensures FindKey(c, key) == FindKey(d, key)
  {
    if c != [] {
      SameIndex(c[..|c| - 1], d[..|d| - 1], key);
    }
  }

  // ----- Each instruction -----

  lemma AddedQuote(s: State, key: Key, k: Key)
    requires TableOk(s) && AddPublisher(s, key).Some? && key != ENABLE_ACCUMULATOR_V2 && key != DISABLE_ACCUMULATOR_V2
    ensures var t := AddPublisher(s, key).value;
            t.num <= |t.comp| && EntryOf(t, k) == if k == key then Some(PriceComponent(key, ZERO_INFO, ZERO_INFO)) else EntryOf(s, k)
  {
    hide StrictlyAscending, DistinctKeys, ByKey;
    var table, t := s.comp[..s.num], AddPublisher(s, key).value;
    var e := Extended(table, key);
    AscendingIsDistinct(table);
    ExtendedDistinct(table, key);
    ByKeySorts(e);
    AscendingIsDistinct(ByKey(e));
    assert t.comp[..t.num] == ByKey(e);
    EntryPermutes(ByKey(e), e, k);
    assert e[..|e| - 1] == table;
  }

  lemma DeletedQuote(s: State, key: Key, k: Key)
    requires TableOk(s) && DelPublisher(s, key).Some?
    ensures var t := DelPublisher(s, key).value;
            t.num <= |t.comp| && EntryOf(t, k) == if k == key then None else EntryOf(s, k)
  {
    hide StrictlyAscending, DistinctKeys;
    var table, t := s.comp[..s.num], DelPublisher(s, key).value;
    var i := FindKey(table, key).value;
    var rest := table[..i] + table[i + 1..];
    DelKeepsTable(s, key);
    AscendingIsDistinct(table);
    AscendingIsDistinct(t.comp[..t.num]);
    assert t.comp[..t.num] == rest;
    if k != key {
      RemovedQuote(table, rest, i, k);
    }
  }

  lemma RemovedQuote(c: seq<PriceComponent>, d: seq<PriceComponent>, i: nat, k: Key)
    requires DistinctKeys(c) && DistinctKeys(d) && i < |c| && d == c[..i] + c[i + 1..] && k != c[i].pub
    ensures EntryIn(d, k) == EntryIn(c, k)
  {
    match FindKey(c, k)
    case Some(j) =>
      EntryAt(d, if j < i then j else j - 1);
    case None =>
      forall j | 0 <= j < |d| ensures d[j].pub != k {
        assert d[j] == c[if j < i then j else j + 1];
      }
  }

  lemma AggregateKeepsQuotes(s: State, slot: int, timestamp: int, k: Key)
    requires s.num <= |s.comp|
    ensures var t := AggregateStep(s, slot, timestamp);
            t.num == s.num && |t.comp| == |s.comp| && EntryOf(t, k) == Taken(EntryOf(s, k))
  {
    hide Outcome, Accumulated, CountingQuotes, EntryIn;
    var t := AggregateStep(s, slot, timestamp);
    EntriesTaken(s.comp[..s.num], t.comp[..t.num], k);
  }

  /** The update tries an aggregation before it records its quote. */
  ghost predicate AttemptsFirst(s: State, key: Key, args: UpdArgs, slot: int)
    requires s.num <= |s.comp|
  {
    Accepted(s, key, args, slot) && !s.accumulatorV2 && slot > s.agg.pubSlot
  }

  lemma UpdatedQuote(s: State, key: Key, args: UpdArgs, slot: int, timestamp: int, buffer: Buffer, k: Key)
    requires TableOk(s) && IsInt64(args.price)
    ensures var (t, ok) := UpdPrice(s, key, args, slot, timestamp, buffer);
            && t.num <= |t.comp|
            && (ok && args.isComponent ==> StatusFor(args.price, args.conf, args.status).Some?)
            && SnapshotOf(t, k) == (if AttemptsFirst(s, key, args, slot) then QuoteOf(s, k) else SnapshotOf(s, k))
            && QuoteOf(t, k)
               == if ok && args.isComponent && k == key
                  then Some(PriceInfo(args.price, args.conf, StatusFor(args.price, args.conf, args.status).value,
                                      args.publishingSlot))
                  else QuoteOf(s, k)
  {
    hide AggregateStep, StatusFor, EntryIn, StrictlyAscending;
    AggregateKeepsQuotes(s, slot, timestamp, k);
    AggregateKeepsTable(s, slot, timestamp);
    var r := Refreshed(s, slot, timestamp);
    var (t, ok) := UpdPrice(s, key, args, slot, timestamp, buffer);
    if ok && args.isComponent {
      var i := FindKey(s.comp[..s.num], key).value;
      var info := PriceInfo(args.price, args.conf, StatusFor(args.price, args.conf, args.status).value, args.publishingSlot);
      AscendingIsDistinct(r.comp[..r.num]);
      SameKeysAfter(s, slot, timestamp);
      assert t.comp[..t.num] == r.comp[..r.num][i := r.comp[i].(latest := info)];
      ReplacedQuote(r.comp[..r.num], i, info, k);
      EntryAt(r.comp[..r.num], i);
    } else {
      assert t.comp == r.comp || t == s;
    }
  }

  lemma SameKeysAfter(s: State, slot: int, timestamp: int)
    requires s.num <= |s.comp|
    ensures var r := Refreshed(s, slot, timestamp);
            r.num == s.num && SameKeys(s.comp, r.comp)
  {
    hide Outcome, Accumulated, CountingQuotes;
  }

  lemma ReplacedQuote(c: seq<PriceComponent>, i: nat, info: PriceInfo, k: Key)
    requires DistinctKeys(c) && i < |c|
    ensures EntryIn(c[i := c[i].(latest := info)], k)
         == if k == c[i].pub then Some(c[i].(latest := info)) else EntryIn(c, k)
  {
    var d := c[i := c[i].(latest := info)];
    SameIndex(c, d, k);
    EntryAt(d, i);
  }

  lemma InitialisedQuote(s: State, exponent: int, k: Key)
    requires s.num <= |s.comp| && InitPrice(s, exponent).Some?
    ensures var t := InitPrice(s, exponent).value;
            t.num <= |t.comp| && EntryOf(t, k) == if EntryOf(s, k).Some? then Some(PriceComponent(k, ZERO_INFO, ZERO_INFO)) else None
  {
    var t := InitPrice(s, exponent).value;
    SameIndex(t.comp[..t.num], s.comp[..s.num], k);
  }

  /** Every instruction acts on quotes and snapshots, key by key, as stated: no other publisher is touched. */
  lemma NextQuote(s: State, e: Event, k: Key)
    requires TableOk(s) && ValidEvent(e)
    ensures s.num <= |s.comp| && Next(s, e).num <= |Next(s, e).comp|
    ensures QuoteOf(Next(s, e), k) == QuoteAfter(s, e, k)
    ensures SnapshotOf(Next(s, e), k) == SnapshotAfter(s, e, k)
  {
    hide TableOk, UpdPrice, AggregateStep, AddPublisher, InitPrice, EntryIn, StatusFor;
    TableBounds(s);
    NextKeepsTableOk(s, e);
    TableBounds(Next(s, e));
    match e.ins
    case Update(key, args, buffer, noFail) => UpdatedQuote(s, key, args, e.slot, e.timestamp, buffer, k);
    case Validate => AggregateKeepsQuotes(s, e.slot, e.timestamp, k);
    case Add(key) =>
      if AddPublisher(s, key).Some? {
        if key == ENABLE_ACCUMULATOR_V2 || key == DISABLE_ACCUMULATOR_V2 {
          FlagKeepsTable(s, key);
        } else {
          AddedQuote(s, key, k);
        }
      }
    case Del(key) =>
      if DelPublisher(s, key).Some? {
        DeletedQuote(s, key, k);
      } else {
        AbsentQuote(s, key);
      }
    case Init(exponent) =>
      if InitPrice(s, exponent).Some? {
        InitialisedQuote(s, exponent, k);
      }
    case _ =>
  }

  /**
   A publisher's quote is recorded if and only if it is newer than its last one and not from the future, no call into
   the message buffer fails, and the price is not -2^63.  It counts as ignored if three times its confidence exceeds
   the price.
   */
  lemma UpdateRecorded(s: State, e: Event)
    requires TableOk(s) && ValidEvent(e) && e.ins.Update? && e.ins.args.isComponent
    ensures s.num <= |s.comp| && Next(s, e).num <= |Next(s, e).comp|
    ensures var args, last, fails := e.ins.args, QuoteOf(s, e.ins.key), e.ins.buffer.WrongPda? || e.ins.buffer.CallFails?;
            QuoteOf(Next(s, e), e.ins.key)
            == if && last.Some? && last.value.pubSlot < args.publishingSlot <= e.slot
                  && args.price > INT64_MIN
                  && !(fails && NeedsBuffer(Refreshed(s, e.slot, e.timestamp)))
               then Some(PriceInfo(args.price, args.conf, if 3 * args.conf <= Abs(args.price) then args.status else 4,
                                   args.publishingSlot))
               else last
  {
    hide TableOk, AggregateStep, Refreshed, Next, StatusFor, FindKey;
    TableBounds(s);
    NextQuote(s, e, e.ins.key);
    StatusFailsOnlyAtMinimum(e.ins.args.price, e.ins.args.conf, e.ins.args.status);
    if e.ins.args.price > INT64_MIN {
      StatusKept(e.ins.args.price, e.ins.args.conf, e.ins.args.status);
    }
  }

  lemma FlagKeepsTable(s: State, key: Key)
    requires s.num <= |s.comp| && (key == ENABLE_ACCUMULATOR_V2 || key == DISABLE_ACCUMULATOR_V2)
    ensures AddPublisher(s, key).Some?
    ensures AddPublisher(s, key).value.comp == s.comp && AddPublisher(s, key).value.num == s.num
  {
  }

  lemma AbsentQuote(s: State, key: Key)
    requires s.num <= |s.comp| && DelPublisher(s, key).None?
    ensures key == ZERO_KEY || EntryOf(s, key).None?
  {
  }

  // ----- Runs -----

  /** No quote carries a slot beyond the clock. */
  ghost predicate Timely(s: State, now: int)
    requires s.num <= |s.comp|
  {
    forall k: Key :: QuoteOf(s, k).Some? ==> 0 <= QuoteOf(s, k).value.pubSlot <= now
  }

  lemma AcceptedSlot(s: State, key: Key, args: UpdArgs, slot: int, timestamp: int, buffer: Buffer)
    requires s.num <= |s.comp| && IsInt64(args.price)
    requires UpdPrice(s, key, args, slot, timestamp, buffer).1 && args.isComponent
    ensures QuoteOf(s, key).Some? && QuoteOf(s, key).value.pubSlot < args.publishingSlot <= slot
  {
    hide AggregateStep, StatusFor;
  }

  lemma NextTimely(s: State, e: Event, now: int)
    requires TableOk(s) && ValidEvent(e) && now <= e.slot && s.num <= |s.comp| && Timely(s, now) && now >= 0
    ensures Next(s, e).num <= |Next(s, e).comp| && Timely(Next(s, e), e.slot)
  {
    hide TableOk, UpdPrice, AddPublisher, InitPrice, EntryIn, StatusFor, Next;
    NextQuote(s, e, ZERO_KEY);
    forall k: Key | QuoteOf(Next(s, e), k).Some? ensures 0 <= QuoteOf(Next(s, e), k).value.pubSlot <= e.slot {
      NextQuote(s, e, k);
      match e.ins {
        case Update(key, args, buffer, _) =>
          if k == key && args.isComponent && UpdPrice(s, key, args, e.slot, e.timestamp, buffer).1 {
            AcceptedSlot(s, key, args, e.slot, e.timestamp, buffer);
          }
        case _ =>
      }
    }
  }

  lemma {:induction false} RunTimely(s: State, events: seq<Event>, now: int)
    requires TableOk(s) && ValidRun(events, now) && s.num <= |s.comp| && Timely(s, now) && now >= 0
    ensures var t := Run(s, events, now);
            t.num <= |t.comp| && TableOk(t) && Timely(t, EndSlot(events, now))
    decreases |events|
  {
    hide Next, TableOk, Timely;
    if events != [] {
      NextKeepsTableOk(s, events[0]);
      NextTimely(s, events[0], now);
      RunTimely(Next(s, events[0]), events[1..], events[0].slot);
    }
  }

  /** In every reachable state the slot difference an aggregation computes for a quote is not negative and does not wrap. */
  lemma SlotDifferencesNonNegative(exponent: int, minPub: int, v2: bool, events: seq<Event>, slot: int)
    requires ValidRun(events, 0) && EndSlot(events, 0) <= slot <= INT64_MAX
    ensures var s := Run(Fresh(exponent, minPub, v2), events, 0);
            forall i :: 0 <= i < s.num ==> 0 <= slot - s.comp[i].latest.pubSlot <= INT64_MAX
  {
    hide EntryIn, StrictlyAscending;
    var s0 := Fresh(exponent, minPub, v2);
    NoQuotes(exponent, minPub, v2);
    RunTimely(s0, events, 0);
    var s := Run(s0, events, 0);
    AscendingIsDistinct(s.comp[..s.num]);
    forall i | 0 <= i < s.num ensures 0 <= slot - s.comp[i].latest.pubSlot <= INT64_MAX {
      EntryAt(s.comp[..s.num], i);
      assert QuoteOf(s, s.comp[i].pub) == Some(s.comp[i].latest);
    }
  }

  lemma NoQuotes(exponent: int, minPub: int, v2: bool)
    ensures TableOk(Fresh(exponent, minPub, v2)) && Timely(Fresh(exponent, minPub, v2), 0)
  {
  }

  /** Neither re-initialised nor deleted. */
  predicate Undisturbed(e: Event, key: Key) {
    !e.ins.Init? && (e.ins.Del? ==> e.ins.key != key)
  }

  /** b replaces a: it is the same quote or one with a later slot. */
  predicate Replaces(b: Option<PriceInfo>, a: Option<PriceInfo>) {
    a.Some? ==> b.Some? && (b == a || b.value.pubSlot > a.value.pubSlot)
  }

  lemma NextReplaces(s: State, e: Event, key: Key)
    requires TableOk(s) && ValidEvent(e) && Undisturbed(e, key) && s.num <= |s.comp|
    ensures Next(s, e).num <= |Next(s, e).comp| && Replaces(QuoteOf(Next(s, e), key), QuoteOf(s, key))
  {
    hide TableOk, UpdPrice, EntryIn, StatusFor, Next;
    NextQuote(s, e, key);
    match e.ins
    case Update(k, args, buffer, _) =>
      if k == key && args.isComponent && UpdPrice(s, k, args, e.slot, e.timestamp, buffer).1 {
        AcceptedSlot(s, k, args, e.slot, e.timestamp, buffer);
        UpdatedQuote(s, k, args, e.slot, e.timestamp, buffer, key);
      }
    case Add(k) =>
      if k == key && QuoteOf(s, k).Some? {
        PresentNotAdded(s, k);
      }
    case _ =>
  }

  lemma PresentNotAdded(s: State, key: Key)
    requires s.num <= |s.comp| && QuoteOf(s, key).Some?
    ensures AddPublisher(s, key).None? || key == ENABLE_ACCUMULATOR_V2 || key == DISABLE_ACCUMULATOR_V2
  {
  }

  /**
   An update is never applied twice or out of order: over any run in which a publisher is not deleted nor the
   account re-initialised, its quote is only ever replaced by one with a later slot.
   */
  lemma {:induction false} QuotesAdvance(s: State, events: seq<Event>, now: int, key: Key)
    requires TableOk(s) && ValidRun(events, now) && forall i :: 0 <= i < |events| ==> Undisturbed(events[i], key)
    ensures s.num <= |s.comp| && Replaces(QuoteOf(Run(s, events, now), key), QuoteOf(s, key))
    decreases |events|
  {
    hide Next, TableOk, EntryIn, Undisturbed;
    TableBounds(s);
    if events != [] {
      NextKeepsTableOk(s, events[0]);
      NextReplaces(s, events[0], key);
      QuotesAdvance(Next(s, events[0]), events[1..], events[0].slot, key);
    }
  }
}
