/** The price account as a value, and every instruction on it as a step. */
module AccountState {
  import opened MachineInts
  import opened Keys
  import opened PriceTypes
  import opened Aggregation
  import opened ConfidenceFilter
  import opened Wrappers

  datatype Cumulative = Cumulative(price: int, conf: int, numDownSlots: int)

  datatype State = State(
    exponent: int,
    num: nat,
    numQt: nat,
    lastSlot: int,
    validSlot: int,
    timestamp: int,
    minPub: int,
    messageSent: int,
    maxLatency: int,
    accumulatorV2: bool,
    bufferCleared: bool,
    prevSlot: int,
    prevPrice: int,
    prevConf: int,
    prevTimestamp: int,
    agg: PriceInfo,
    comp: seq<PriceComponent>,
    cum: Cumulative
  )

  /** An account without any history.  Both flags are set, or, on an account older than the flags, neither. */
  function Fresh(exponent: int, minPub: int, accumulatorV2: bool): State {
    State(exponent, 0, 0, 0, 0, 0, minPub, 0, 0, accumulatorV2, accumulatorV2, 0, 0, 0, 0, ZERO_INFO,
          seq(NUM_COMP_TOTAL, i => ZERO_COMP), Cumulative(0, 0, 0))
  }

  /** The account add_price makes. */
  function Created(exponent: int): State {
    Fresh(exponent, DEFAULT_MIN_PUB, true)
  }

  // ----- Aggregation -----

  /** The first n components, each with its latest price copied into the snapshot slot. */
  ghost function Snapshot(c: seq<PriceComponent>, n: nat): (d: seq<PriceComponent>)
    ensures |d| == |c|
  {
    seq(|c|, i requires 0 <= i < |c| => if i < n then c[i].(agg := c[i].latest) else c[i])
  }

  ghost function CountingQuotes(s: State, slot: int): seq<PriceInfo>
    requires s.num <= |s.comp|
  {
    Quotes(s.comp[..s.num], slot, s.maxLatency)
  }

  ghost function Outcome(s: State, slot: int): Result
    requires s.num <= |s.comp|
  {
    Aggregate(CountingQuotes(s, slot), s.minPub)
  }

  /** The previous successful aggregate, as upd_aggregate rolls it before anything else. */
  ghost function Rolled(s: State): State {
    if s.agg.status != STATUS_TRADING then s
    else s.(prevSlot := s.agg.pubSlot, prevPrice := s.agg.price, prevConf := s.agg.conf, prevTimestamp := s.timestamp)
  }

  /** What upd_aggregate writes whether or not a price comes out. */
  ghost function Attempted(s: State, slot: int, timestamp: int): State
    requires s.num <= |s.comp|
  {
    Rolled(s).(validSlot := s.agg.pubSlot, timestamp := timestamp, numQt := |CountingQuotes(s, slot)|,
               comp := Snapshot(s.comp, s.num))
  }

  /** upd_aggregate. */
  ghost function Aggregated(s: State, slot: int, timestamp: int): State
    requires s.num <= |s.comp|
  {
    match Outcome(s, slot)
    case NoPrice =>
      Attempted(s, slot, timestamp).(agg := PriceInfo(s.agg.price, s.agg.conf, STATUS_UNKNOWN, slot))
    case Price(price, conf) =>
      Attempted(s, slot, timestamp).(agg := PriceInfo(price, conf, STATUS_TRADING, slot), lastSlot := slot)
  }

  /** PriceCumulative::update */
  ghost function Accumulated(c: Cumulative, price: int, conf: int, gap: int, maxLatency: int): Cumulative {
    var latency := if maxLatency == 0 then MAX_SEND_LATENCY else maxLatency;
    Cumulative(ToInt128(c.price + price * gap), ToUint128(c.conf + conf * gap),
               ToUint64(c.numDownSlots + Max(0, gap - latency)))
  }

  /** update_price_cumulative */
  ghost function WithCumulative(s: State): State {
    if s.agg.status != STATUS_TRADING then s
    else s.(cum := Accumulated(s.cum, s.agg.price, s.agg.conf, Max(0, s.agg.pubSlot - s.prevSlot), s.maxLatency))
  }

  /** An aggregation attempt and, when it succeeds, its follow-up. */
  ghost function AggregateStep(s: State, slot: int, timestamp: int): State
    requires s.num <= |s.comp|
  {
    var a := Aggregated(s, slot, timestamp);
    if Outcome(s, slot).Price? then WithCumulative(a.(messageSent := 0)) else a
  }

  // ----- Messages -----

  datatype FeedMessage = FeedMessage(price: int, conf: int, exponent: int, publishTime: int, prevPublishTime: int)

  datatype TwapMessage = TwapMessage(cumulative: Cumulative, exponent: int, publishTime: int, prevPublishTime: int, publishSlot: int)

  function AsFeedMessage(s: State): FeedMessage {
    if s.agg.status == STATUS_TRADING
    then FeedMessage(s.agg.price, s.agg.conf, s.exponent, s.timestamp, s.prevTimestamp)
    else FeedMessage(s.prevPrice, s.prevConf, s.exponent, s.prevTimestamp, s.prevTimestamp)
  }

  function AsTwapMessage(s: State): TwapMessage {
    var publishTime := if s.agg.status == STATUS_TRADING then s.timestamp else s.prevTimestamp;
    TwapMessage(s.cum, s.exponent, publishTime, s.prevTimestamp, s.lastSlot)
  }

  // ----- Price updates -----

  /** UpdPrice and its no-fail variant are component updates; AggPrice only refreshes the aggregate. */
  datatype UpdArgs = UpdArgs(isComponent: bool, price: int, conf: int, status: int, publishingSlot: int)

  /** What becomes of the optional message-buffer call. */
  datatype Buffer = NoBuffer | WrongPda | CallFails | CallSucceeds

  /** The first component with this key. */
  ghost function FindKey(c: seq<PriceComponent>, key: Key): (r: Option<nat>)
    ensures r.Some? ==> r.value < |c| && c[r.value].pub == key
    ensures r.None? ==> forall i :: 0 <= i < |c| ==> c[i].pub != key
  {
    if c == [] then None
    else match FindKey(c[..|c| - 1], key)
      case Some(i) => Some(i)
      case None => if c[|c| - 1].pub == key then Some(|c| - 1) else None
  }

  ghost function WithLatest(s: State, i: nat, info: PriceInfo): State
    requires i < |s.comp|
  {
    s.(comp := s.comp[i := s.comp[i].(latest := info)])
  }

  /** The aggregation an update triggers when it is the first in its slot and the program still aggregates. */
  ghost function Refreshed(s: State, slot: int, timestamp: int): State
    requires s.num <= |s.comp|
  {
    if !s.accumulatorV2 && slot > s.agg.pubSlot then AggregateStep(s, slot, timestamp) else s
  }

  predicate NeedsBuffer(s: State) {
    if s.accumulatorV2 then !s.bufferCleared else s.messageSent == 0
  }

  ghost function Sent(s: State): State {
    s.(messageSent := 1, bufferCleared := s.bufferCleared || s.accumulatorV2)
  }

  /** The publisher is known, and a component update is newer than its last one and not from the future. */
  ghost predicate Accepted(s: State, key: Key, args: UpdArgs, slot: int)
    requires s.num <= |s.comp|
  {
    var found := FindKey(s.comp[..s.num], key);
    found.Some? && (args.isComponent ==> s.comp[found.value].latest.pubSlot < args.publishingSlot <= slot)
  }

  /** upd_price: the state it leaves behind and whether it returned Ok.  After an Err, what was already done stays done. */
  ghost function UpdPrice(s: State, key: Key, args: UpdArgs, slot: int, timestamp: int, buffer: Buffer): (State, bool)
    requires s.num <= |s.comp| && IsInt64(args.price)
  {
    if !Accepted(s, key, args, slot) then (s, false)
    else
      var r := Refreshed(s, slot, timestamp);
      if NeedsBuffer(r) && (buffer.WrongPda? || buffer.CallFails?) then (r, false)
      else
        var t := if NeedsBuffer(r) && buffer.CallSucceeds? then Sent(r) else r;
        if !args.isComponent then (t, true)
        else
          match StatusFor(args.price, args.conf, args.status)
          case None => (t, false)
          case Some(status) =>
            var i := FindKey(s.comp[..s.num], key).value;
            (WithLatest(t, i, PriceInfo(args.price, args.conf, status, args.publishingSlot)), true)
  }

  /** aggregate_price, the validator's entry: None is the error return, which changes nothing. */
  ghost function ValidatorAggregate(s: State, slot: int, timestamp: int): Option<State>
    requires s.num <= |s.comp|
  {
    if !s.accumulatorV2 || !s.bufferCleared || s.agg.pubSlot == slot then None
    else Some(AggregateStep(s, slot, timestamp))
  }

  // ----- The publisher table -----

  const ENABLE_ACCUMULATOR_V2: Key := [
    0, 0, 0, 0, 0, 0, 0, 0, 0, 0, 0, 0, 0, 0, 0, 0,
    0, 0, 0, 0, 0, 0, 0, 0, 0, 0, 0, 0, 0, 0, 0, 1
  ]
  
  const DISABLE_ACCUMULATOR_V2: Key := [
    0, 0, 0, 0, 0, 0, 0, 0, 0, 0, 0, 0, 0, 0, 0, 0,
    0, 0, 0, 0, 0, 0, 0, 0, 0, 0, 0, 0, 0, 0, 0, 2
  ]

  ghost function InsertedByKey(x: PriceComponent, c: seq<PriceComponent>): (d: seq<PriceComponent>)
    ensures |d| == |c| + 1
  {
    if c == [] || Rank(x.pub) <= Rank(c[0].pub) then [x] + c
    else [c[0]] + InsertedByKey(x, c[1..])
  }

  /** The components in key order. */
  ghost function ByKey(c: seq<PriceComponent>): (d: seq<PriceComponent>)
    ensures |d| == |c|
  {
    if c == [] then [] else InsertedByKey(c[0], ByKey(c[1..]))
  }

  ghost predicate DistinctKeys(c: seq<PriceComponent>) {
    forall i, j :: 0 <= i < j < |c| ==> c[i].pub != c[j].pub
  }

  /** The table with a zeroed entry for key appended. */
  ghost function Extended(c: seq<PriceComponent>, key: Key): (d: seq<PriceComponent>)
    ensures |d| == |c| + 1
  {
    c + [PriceComponent(key, ZERO_INFO, ZERO_INFO)]
  }

  /** add_publisher */
  ghost function AddPublisher(s: State, key: Key): Option<State>
    requires s.num <= |s.comp|
  {
    if key == ENABLE_ACCUMULATOR_V2 then Some(s.(accumulatorV2 := true))
    else if key == DISABLE_ACCUMULATOR_V2 then Some(s.(accumulatorV2 := false, bufferCleared := false))
    else if s.num >= NUM_COMP || s.num >= |s.comp| || FindKey(s.comp[..s.num], key).Some? then None
    else Some(s.(num := s.num + 1, comp := ByKey(Extended(s.comp[..s.num], key)) + s.comp[s.num + 1..]))
  }

  /** del_publisher */
  ghost function DelPublisher(s: State, key: Key): Option<State>
    requires s.num <= |s.comp|
  {
    if key == ZERO_KEY then None
    else match FindKey(s.comp[..s.num], key)
      case None => None
      case Some(i) =>
        Some(s.(num := s.num - 1, comp := s.comp[..i] + s.comp[i + 1..s.num] + [ZERO_COMP] + s.comp[s.num..]))
  }

  // ----- Configuration -----

  ghost function Cleared(c: seq<PriceComponent>): (d: seq<PriceComponent>)
    ensures |d| == |c|
  {
    seq(|c|, i requires 0 <= i < |c| => c[i].(agg := ZERO_INFO, latest := ZERO_INFO))
  }

  /** init_price on an account that is already populated. */
  ghost function InitPrice(s: State, exponent: int): Option<State> {
    if !(-MAX_NUM_DECIMALS <= exponent <= MAX_NUM_DECIMALS) then None
    else Some(s.(exponent := exponent, lastSlot := 0, validSlot := 0, prevSlot := 0, prevPrice := 0, prevConf := 0,
                 prevTimestamp := 0, agg := ZERO_INFO, comp := Cleared(s.comp)))
  }

  // ----- Runs -----

  datatype Instruction =
    | Update(key: Key, args: UpdArgs, buffer: Buffer, noFail: bool)
    | Validate
    | Add(key: Key)
    | Del(key: Key)
    | Init(exponent: int)
    | SetMinPub(minPub: int)
    | SetMaxLatency(maxLatency: int)

  datatype Event = Event(ins: Instruction, slot: int, timestamp: int)

  function OrElse(o: Option<State>, s: State): State {
    match o case Some(t) => t case None => s
  }

  /** One transaction: an instruction that returns Err has no effect, unless it swallows its own errors. */
  ghost function Next(s: State, e: Event): State
    requires s.num <= |s.comp| && ValidEvent(e)
  {
    match e.ins
    case Update(key, args, buffer, noFail) =>
      var (t, ok) := UpdPrice(s, key, args, e.slot, e.timestamp, buffer);
      if ok || noFail then t else s
    case Validate => OrElse(ValidatorAggregate(s, e.slot, e.timestamp), s)
    case Add(key) => OrElse(AddPublisher(s, key), s)
    case Del(key) => OrElse(DelPublisher(s, key), s)
    case Init(exponent) => OrElse(InitPrice(s, exponent), s)
    case SetMinPub(n) => s.(minPub := n)
    case SetMaxLatency(n) => s.(maxLatency := n)
  }

  /** Arguments are machine integers, and slots stay below 2^63, where they are cast to int64_t. */
  predicate ValidEvent(e: Event) {
    && 0 <= e.slot <= INT64_MAX && IsInt64(e.timestamp)
    && (e.ins.Update? ==> IsInt64(e.ins.args.price) && IsUint64(e.ins.args.conf) && IsUint64(e.ins.args.publishingSlot))
    && (e.ins.SetMinPub? ==> 0 <= e.ins.minPub < 256)
    && (e.ins.SetMaxLatency? ==> 0 <= e.ins.maxLatency < 256)
  }

  /** The clock never goes back. */
  predicate ValidRun(events: seq<Event>, now: int) {
    events == [] || (ValidEvent(events[0]) && now <= events[0].slot && ValidRun(events[1..], events[0].slot))
  }

  function EndSlot(events: seq<Event>, now: int): int {
    if events == [] then now else EndSlot(events[1..], events[0].slot)
  }

  lemma UpdPriceKeepsTable(s: State, key: Key, args: UpdArgs, slot: int, timestamp: int, buffer: Buffer)
    requires s.num <= |s.comp| && IsInt64(args.price)
    ensures var t := UpdPrice(s, key, args, slot, timestamp, buffer).0; t.num == s.num && |t.comp| == |s.comp|
  {
    hide Aggregate, Accumulated, StatusFor, CountingQuotes;
    assert var r := Refreshed(s, slot, timestamp); r.num == s.num && |r.comp| == |s.comp|;
  }

  lemma NextKeepsTable(s: State, e: Event)
    requires s.num <= |s.comp| && ValidEvent(e)
    ensures Next(s, e).num <= |Next(s, e).comp| == |s.comp|
  {
    match e.ins
    case Update(key, args, buffer, noFail) =>
      hide UpdPrice;
      UpdPriceKeepsTable(s, key, args, e.slot, e.timestamp, buffer);
    case Validate =>
      hide Aggregate, Accumulated, CountingQuotes;
    case _ =>
  }

  ghost function Run(s: State, events: seq<Event>, now: int): (t: State)
    requires s.num <= |s.comp| && ValidRun(events, now)
    ensures t.num <= |t.comp| == |s.comp|
    decreases |events|
  {
    if events == [] then s
    else
      NextKeepsTable(s, events[0]);
      Run(Next(s, events[0]), events[1..], events[0].slot)
  }
}
