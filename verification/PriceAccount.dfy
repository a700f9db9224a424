/** The price account as the program holds it: fields and a component array updated in place. */
module PriceAccount {
  import opened MachineInts
  import opened Keys
  import opened PriceTypes
  import opened Quantiles
  import opened Aggregation
  import opened AccountState
  import opened ConfidenceFilter
  import opened Wrappers
  import PriceModel
  import SortComps
  import PublisherTable

  /**
   find_publisher_index: binary search first; a hit is taken even if the list is not sorted, and a miss is
   followed by a linear search.
   */
  method FindPublisherIndex(comps: array<PriceComponent>, n: nat, key: Key) returns (r: Option<nat>)
    requires n <= comps.Length
    ensures r.Some? ==> r.value < n && comps[r.value].pub == key
    ensures r.None? ==> forall i :: 0 <= i < n ==> comps[i].pub != key
  {
    r := BinarySearch(comps, n, key);
    if r.Some? {
      return;
    }
    var index := 0;
    while index < n
      invariant 0 <= index <= n
      invariant forall i :: 0 <= i < index ==> comps[i].pub != key
    {
      MemCmpIsRankOrder(comps[index].pub, key);
      if MemCmp(comps[index].pub, key) == 0 {
        break;
      }
      index := index + 1;
    }
    return if index == n then None else Some(index);
  }

  /** On a sorted table the binary search alone decides. */
  method BinarySearch(comps: array<PriceComponent>, n: nat, key: Key) returns (r: Option<nat>)
    requires n <= comps.Length
    ensures r.Some? ==> r.value < n && comps[r.value].pub == key
    ensures PublisherTable.StrictlyAscending(comps[..n]) ==>
              (r.Some? <==> exists i :: 0 <= i < n && comps[i].pub == key)
  {
    var left, right := 0, n;
    ghost var c := comps[..n];
    while left < right
      invariant 0 <= left <= right <= n
      invariant PublisherTable.StrictlyAscending(c) ==> forall i :: 0 <= i < left ==> Rank(c[i].pub) < Rank(key)
      invariant PublisherTable.StrictlyAscending(c) ==> forall i :: right <= i < n ==> Rank(c[i].pub) > Rank(key)
    {
      var mid := left + (right - left) / 2;
      MemCmpIsRankOrder(comps[mid].pub, key);
      assert comps[mid] == c[mid];
      var order := MemCmp(comps[mid].pub, key);
      if order < 0 {
        left := mid + 1;
      } else if order > 0 {
        right := mid;
      } else {
        return Some(mid);
      }
    }
    assert forall i :: 0 <= i < n ==> comps[i] == c[i];
    return None;
  }

  class Account {
    var exponent: int
    var num: nat
    var numQt: nat
    var lastSlot: int
    var validSlot: int
    var timestamp: int
    var minPub: int
    var messageSent: int
    var maxLatency: int
    var accumulatorV2: bool
    var bufferCleared: bool
    var prevSlot: int
    var prevPrice: int
    var prevConf: int
    var prevTimestamp: int
    var agg: PriceInfo
    var cumPrice: int
    var cumConf: int
    var numDownSlots: int
    const comp: array<PriceComponent>

    ghost function St(): State
      reads this, comp
    {
      State(exponent, num, numQt, lastSlot, validSlot, timestamp, minPub, messageSent, maxLatency, accumulatorV2,
            bufferCleared, prevSlot, prevPrice, prevConf, prevTimestamp, agg, comp[..], Cumulative(cumPrice, cumConf, numDownSlots))
    }

    /** The memory layout, and what slots can hold; keys are never added twice. */
    ghost predicate Valid()
      reads this, comp
    {
      && comp.Length == NUM_COMP_TOTAL && num <= NUM_COMP
      && DistinctKeys(comp[..num])
      && SlotsOk(comp[..])
      && 0 <= agg.pubSlot <= INT64_MAX && 0 <= prevSlot <= INT64_MAX
    }

    static ghost predicate SlotsOk(c: seq<PriceComponent>) {
      forall i :: 0 <= i < |c| ==> 0 <= c[i].latest.pubSlot <= INT64_MAX
    }

    /** add_price, after its checks. */
    constructor (exponent: int)
      ensures Valid() && St() == Created(exponent) && fresh(comp)
      ensures minPub == 20 && accumulatorV2 && bufferCleared
    {
      this.exponent, minPub := exponent, DEFAULT_MIN_PUB;
      num, numQt, lastSlot, validSlot, timestamp, messageSent, maxLatency := 0, 0, 0, 0, 0, 0, 0;
      accumulatorV2, bufferCleared := true, true;
      prevSlot, prevPrice, prevConf, prevTimestamp := 0, 0, 0, 0;
      agg := ZERO_INFO;
      cumPrice, cumConf, numDownSlots := 0, 0, 0;
      comp := new PriceComponent[NUM_COMP_TOTAL](i => ZERO_COMP);
    }

    // ----- upd_aggregate -----

    /** The loop over the components: snapshot each, and append the votes of those that count. */
    method GatherVotes(slot: int, prcs: array<int>) returns (numv: nat)
      requires Valid() && 0 <= slot <= INT64_MAX && prcs.Length == 3 * NUM_COMP
      modifies comp, prcs
      ensures numv == |Quotes(old(comp[..num]), slot, maxLatency)| <= num
      ensures prcs[..3 * numv] == Votes(Quotes(old(comp[..num]), slot, maxLatency))
      ensures comp[..] == Snapshot(old(comp[..]), num)
    {
      hide DistinctKeys, Counts, Quotes, Votes, VotesOf;
      ghost var c := comp[..];
      assert Quotes(c[..0], slot, maxLatency) == [] && Votes([]) == [] by { NoQuotes(slot, maxLatency); }
      numv := 0;
      var nprcs, i := 0, 0;
      while i != num
        invariant 0 <= i <= num && numv <= i && nprcs == 3 * numv
        invariant numv == |Quotes(c[..i], slot, maxLatency)|
        invariant prcs[..nprcs] == Votes(Quotes(c[..i], slot, maxLatency))
        invariant comp[..] == Snapshot(c, i)
      {
        QuotesStep(c, i, slot, maxLatency);
        assert comp[i] == c[i] && comp[..][i] == c[i];
        comp[i] := comp[i].(agg := comp[i].latest);
        assert comp[..] == Snapshot(c, i + 1);
        var q := comp[i].agg;
        assert q == c[i].latest;
        var valid := IsValidQuote(q, slot);
        if valid {
          PushVotes(prcs, nprcs, q);
          numv, nprcs := numv + 1, nprcs + 3;
        }
        i := i + 1;
      }
      assert c[..num] == old(comp[..num]);
    }

    /** The conditions under which a quote enters the aggregation. */
    method IsValidQuote(q: PriceInfo, slot: int) returns (valid: bool)
      requires 0 <= slot <= INT64_MAX && 0 <= q.pubSlot <= INT64_MAX
      ensures valid == Counts(q, slot, maxLatency)
    {
      var slotDiff := ToInt64(slot) - ToInt64(q.pubSlot);
      var price, conf := q.price, ToInt64(q.conf);
      var latency := if maxLatency != 0 then maxLatency else MAX_SEND_LATENCY;
      valid := q.status == STATUS_TRADING && 0 < conf && INT64_MIN + conf <= price <= INT64_MAX - conf && slotDiff <= latency;
    }

    static method PushVotes(prcs: array<int>, n: nat, q: PriceInfo)
      requires n + 3 <= prcs.Length
      modifies prcs
      ensures prcs[..n + 3] == old(prcs[..n]) + VotesOf(q)
    {
      var price, conf := q.price, ToInt64(q.conf);
      prcs[n] := price - conf;
      prcs[n + 1] := price;
      prcs[n + 2] := price + conf;
    }

    static lemma NoQuotes(slot: int, maxLatency: int)
      ensures Quotes([], slot, maxLatency) == [] && Votes([]) == []
    {
    }

    static lemma QuotesStep(c: seq<PriceComponent>, i: nat, slot: int, maxLatency: int)
      requires i < |c|
      ensures var q := c[i].latest;
              var front := Quotes(c[..i], slot, maxLatency);
              Quotes(c[..i + 1], slot, maxLatency) == (if Counts(q, slot, maxLatency) then front + [q] else front)
              && Votes(front + [q]) == Votes(front) + VotesOf(q)
    {
      assert c[..i + 1][..i] == c[..i];
      var front, q := Quotes(c[..i], slot, maxLatency), c[i].latest;
      assert (front + [q])[..|front|] == front;
    }

    method UpdAggregate(slot: int, timestamp: int) returns (updated: bool)
      requires Valid() && 0 <= slot <= INT64_MAX
      modifies this, comp
      ensures St() == Aggregated(old(St()), slot, timestamp)
      ensures updated == Outcome(old(St()), slot).Price?
      ensures Valid()
    {
      hide Outcome, Aggregated, CountingQuotes, Concluded, Begun, DistinctKeys, SlotsOk;
      BeginThenConclude(St(), slot, timestamp);
      Begin(slot, timestamp);
      updated := Conclude(slot);
    }

    /** The state after the previous aggregate was rolled and the slot and time were stamped. */
    static ghost function Begun(s: State, slot: int, timestamp: int): State {
      Rolled(s).(validSlot := s.agg.pubSlot, timestamp := timestamp,
                 agg := PriceInfo(s.agg.price, s.agg.conf, s.agg.status, slot))
    }

    /** The rest of the aggregation. */
    static ghost function Concluded(s: State, slot: int): State
      requires s.num <= |s.comp|
    {
      match Outcome(s, slot)
      case NoPrice =>
        s.(numQt := |CountingQuotes(s, slot)|, comp := Snapshot(s.comp, s.num),
           agg := PriceInfo(s.agg.price, s.agg.conf, STATUS_UNKNOWN, s.agg.pubSlot))
      case Price(price, conf) =>
        s.(numQt := |CountingQuotes(s, slot)|, comp := Snapshot(s.comp, s.num), lastSlot := slot,
           agg := PriceInfo(price, conf, STATUS_TRADING, s.agg.pubSlot))
    }

    static lemma BeginThenConclude(s: State, slot: int, timestamp: int)
      requires s.num <= |s.comp|
      ensures var b := Begun(s, slot, timestamp);
              b.num == s.num && b.comp == s.comp && Outcome(b, slot) == Outcome(s, slot)
              && Concluded(b, slot) == Aggregated(s, slot, timestamp)
    {
      hide Aggregate, Quotes;
    }

    method Begin(slot: int, timestamp: int)
      requires Valid() && 0 <= slot <= INT64_MAX
      modifies this
      ensures St() == Begun(old(St()), slot, timestamp) && Valid()
    {
      hide DistinctKeys, SlotsOk;
      // Update the value of the previous price, if it had TRADING status.
      if agg.status == STATUS_TRADING {
        prevSlot, prevPrice, prevConf, prevTimestamp := agg.pubSlot, agg.price, agg.conf, this.timestamp;
      }
      validSlot := agg.pubSlot;
      agg := agg.(pubSlot := slot);
      this.timestamp := timestamp;
    }

    method Conclude(slot: int) returns (updated: bool)
      requires Valid() && 0 <= slot <= INT64_MAX
      modifies this, comp
      ensures St() == Concluded(old(St()), slot) && Valid()
      ensures updated == Outcome(old(St()), slot).Price?
    {
      hide DistinctKeys, SlotsOk, Quotes, Votes, Confidence, Snapshot, P25, P50, P75;
      var prcs := new int[3 * NUM_COMP];
      SnapshotKeepsValid(comp[..], num);
      ghost var quotes := Quotes(comp[..num], slot, maxLatency);
      assert comp[..][..num] == comp[..num];
      assert quotes == CountingQuotes(St(), slot);
      QuotesCount(comp[..num], slot, maxLatency);
      var numv := GatherVotes(slot, prcs);
      numQt := numv;
      assert comp[..][..num] == comp[..num];
      if numv == 0 || numv < minPub {
        agg := agg.(status := STATUS_UNKNOWN);
        return false;
      }
      var aggPrice, aggConf := Evaluate(prcs, numv, quotes, slot, maxLatency);
      if aggConf <= 0 {
        agg := agg.(status := STATUS_UNKNOWN);
        return false;
      }
      agg := agg.(status := STATUS_TRADING);
      lastSlot := slot;
      agg := agg.(price := aggPrice, conf := aggConf);
      return true;
    }

    /** The model, and the larger of the left and right confidence. */
    static method Evaluate(prcs: array<int>, numv: nat, ghost quotes: seq<PriceInfo>, ghost slot: int,
                           ghost maxLatency: int)
      returns (aggPrice: int, aggConf: int)
      requires 0 < numv && numv == |quotes| && prcs.Length == 3 * NUM_COMP && numv <= NUM_COMP
      requires prcs[..3 * numv] == Votes(quotes) && AllCount(quotes, slot, maxLatency)
      modifies prcs
      ensures aggPrice == P50(Votes(quotes)) && aggConf == Confidence(Votes(quotes))
    {
      hide Votes, P25, P50, P75;
      var nprcs := 3 * numv;
      var scratch := new int[3 * NUM_COMP];
      VotesAre64Bit(quotes, slot, maxLatency);
      assert forall i :: 0 <= i < nprcs ==> prcs[i] == prcs[..nprcs][i];
      var p25, p50, p75, inQuote := PriceModel.PriceModelCore(nprcs, prcs, scratch);
      var left, right := ToInt64(p50 - p25), ToInt64(p75 - p50);
      aggPrice := p50;
      aggConf := if right > left then right else left;
    }

    static lemma SnapshotKeepsValid(c: seq<PriceComponent>, n: nat)
      requires n <= |c| && DistinctKeys(c[..n]) && SlotsOk(c)
      ensures DistinctKeys(Snapshot(c, n)[..n]) && SlotsOk(Snapshot(c, n))
    {
    }

    // ----- After a successful aggregation -----

    method UpdatePriceCumulative()
      requires Valid()
      modifies this
      ensures St() == WithCumulative(old(St())) && Valid()
    {
      hide DistinctKeys, SlotsOk, ToInt128, ToUint128, ToUint64;
      if agg.status == STATUS_TRADING {
        var slotGap := Max(0, agg.pubSlot - prevSlot);  // saturating_sub
        cumPrice := ToInt128(cumPrice + agg.price * slotGap);
        cumConf := ToUint128(cumConf + agg.conf * slotGap);
        var latency := if maxLatency == 0 then MAX_SEND_LATENCY else maxLatency;
        numDownSlots := ToUint64(numDownSlots + Max(0, slotGap - latency));
      }
    }

    /** update_aggregate, as the validator and upd_price run it. */
    method UpdateAggregate(slot: int, timestamp: int)
      requires Valid() && 0 <= slot <= INT64_MAX
      modifies this, comp
      ensures St() == AggregateStep(old(St()), slot, timestamp) && Valid()
    {
      hide DistinctKeys, SlotsOk, Outcome, Aggregated;
      var updated := UpdAggregate(slot, timestamp);
      if updated {
        messageSent := 0;
        UpdatePriceCumulative();
      }
    }

    /** aggregate_price: the messages, or None for its error returns. */
    method AggregatePrice(slot: int, timestamp: int) returns (r: Option<(FeedMessage, TwapMessage)>)
      requires Valid() && 0 <= slot <= INT64_MAX
      modifies this, comp
      ensures Valid()
      ensures St() == OrElse(ValidatorAggregate(old(St()), slot, timestamp), old(St()))
      ensures r == match ValidatorAggregate(old(St()), slot, timestamp)
                   case None => None
                   case Some(t) => Some((AsFeedMessage(t), AsTwapMessage(t)))
    {
      hide DistinctKeys, SlotsOk, AggregateStep, AsFeedMessage, AsTwapMessage;
      if !accumulatorV2 {
        return None;
      }
      if !bufferCleared {
        return None;
      }
      if agg.pubSlot == slot {
        return None;
      }
      UpdateAggregate(slot, timestamp);
      var m := Messages();
      r := Some(m);
    }

    method Messages() returns (m: (FeedMessage, TwapMessage))
      ensures m == (AsFeedMessage(St()), AsTwapMessage(St()))
    {
      var feed :=
        if agg.status == STATUS_TRADING
        then FeedMessage(agg.price, agg.conf, exponent, timestamp, prevTimestamp)
        else FeedMessage(prevPrice, prevConf, exponent, prevTimestamp, prevTimestamp);
      var publishTime := if agg.status == STATUS_TRADING then timestamp else prevTimestamp;
      m := (feed, TwapMessage(Cumulative(cumPrice, cumConf, numDownSlots), exponent, publishTime, prevTimestamp, lastSlot));
    }

    // ----- upd_price -----

    /** With no key twice there is only one index to find. */
    static lemma FoundIsFirst(c: seq<PriceComponent>, key: Key, i: nat)
      requires DistinctKeys(c) && i < |c| && c[i].pub == key
      ensures FindKey(c, key) == Some(i)
    {
      var j := FindKey(c, key).value;
      assert c[j].pub == c[i].pub;
    }

    static lemma SomeIndex(c: seq<PriceComponent>, key: Key, r: Option<nat>)
      requires DistinctKeys(c)
      requires r.Some? ==> r.value < |c| && c[r.value].pub == key
      requires r.None? ==> forall i :: 0 <= i < |c| ==> c[i].pub != key
      ensures FindKey(c, key) == r
    {
      if r.Some? {
        FoundIsFirst(c, key, r.value);
      }
    }

    method LookUp(key: Key) returns (r: Option<nat>)
      requires Valid()
      ensures r == FindKey(St().comp[..St().num], key)
      ensures r.Some? ==> r.value < num
    {
      r := FindPublisherIndex(comp, num, key);
      assert comp[..][..num] == comp[..num];
      assert forall i :: 0 <= i < num ==> comp[i] == comp[..num][i];
      SomeIndex(comp[..num], key, r);
    }

    /**
     upd_price.  On Err the effects already made stay; it is the transaction that undoes them, unless the
     caller is upd_price_no_fail_on_error.  `sent` holds the messages put into the buffer.
     */
    method UpdPrice(key: Key, args: UpdArgs, slot: int, ts: int, buffer: Buffer)
      returns (ok: bool, sent: Option<(FeedMessage, TwapMessage)>)
      requires Valid() && 0 <= slot <= INT64_MAX
      requires IsInt64(args.price) && IsUint64(args.publishingSlot)
      modifies this, comp
      ensures (St(), ok) == AccountState.UpdPrice(old(St()), key, args, slot, ts, buffer) && Valid()
      ensures sent.Some? ==> sent.value == (AsFeedMessage(St()), AsTwapMessage(St()))
      ensures sent.Some? <==>
              Accepted(old(St()), key, args, slot) && !old(accumulatorV2) && buffer.CallSucceeds?
              && NeedsBuffer(Refreshed(old(St()), slot, ts))
    {
      hide DistinctKeys, SlotsOk, AggregateStep, StatusFor, AsFeedMessage, AsTwapMessage;
      AggregateKeepsShape(St(), slot, ts);
      sent := None;
      var found := LookUp(key);
      if found.None? {
        return false, None;
      }
      var i := found.value;
      assert comp[..][i] == comp[i];
      if args.isComponent && !(comp[i].latest.pubSlot < args.publishingSlot <= slot) {
        return false, None;
      }
      if !accumulatorV2 {
        if slot > agg.pubSlot {
          UpdateAggregate(slot, ts);
        }
      }
      ok, sent := PutMessages(buffer);
      if !ok {
        return;
      }
      if args.isComponent {
        ok := RecordLatest(i, args, slot);
      }
    }

    static lemma AggregateKeepsShape(s: State, slot: int, timestamp: int)
      requires s.num <= |s.comp|
      ensures var t := AggregateStep(s, slot, timestamp);
              t.num == s.num && |t.comp| == |s.comp| && t.accumulatorV2 == s.accumulatorV2 && t.bufferCleared == s.bufferCleared
    {
      hide Outcome, Accumulated, CountingQuotes;
    }

    /** The message-buffer part: whether to go on, and what was sent. */
    method PutMessages(buffer: Buffer) returns (ok: bool, sent: Option<(FeedMessage, TwapMessage)>)
      requires Valid()
      modifies this
      ensures Valid()
      ensures ok == !(NeedsBuffer(old(St())) && (buffer.WrongPda? || buffer.CallFails?))
      ensures St() == if NeedsBuffer(old(St())) && buffer.CallSucceeds? then Sent(old(St())) else old(St())
      ensures sent.Some? <==> NeedsBuffer(old(St())) && buffer.CallSucceeds? && !accumulatorV2
      ensures sent.Some? ==> sent.value == (AsFeedMessage(St()), AsTwapMessage(St()))
    {
      hide DistinctKeys, SlotsOk;
      sent := None;
      var needed := if accumulatorV2 then !bufferCleared else messageSent == 0;
      if needed {
        match buffer
        case NoBuffer =>
        case WrongPda => return false, None;
        case CallFails => return false, None;
        case CallSucceeds =>
          if !accumulatorV2 {
            var m := Messages();
            sent := Some(m);
          }
          messageSent := 1;
          if accumulatorV2 {
            bufferCleared := true;
          }
      }
      return true, sent;
    }

    /** The publisher's own price, with the status its confidence earns. */
    method RecordLatest(i: nat, args: UpdArgs, slot: int) returns (ok: bool)
      requires Valid() && i < num && IsInt64(args.price) && 0 <= args.publishingSlot <= slot <= INT64_MAX
      modifies comp
      ensures Valid()
      ensures ok == StatusFor(args.price, args.conf, args.status).Some?
      ensures St() == if ok then WithLatest(old(St()), i, PriceInfo(args.price, args.conf,
                                   StatusFor(args.price, args.conf, args.status).value, args.publishingSlot))
                      else old(St())
      ensures AsFeedMessage(St()) == AsFeedMessage(old(St())) && AsTwapMessage(St()) == AsTwapMessage(old(St()))
    {
      hide ToInt64;
      ghost var c := comp[..];
      var threshold := TruncDiv(ToInt64(if args.price < 0 then -args.price else args.price), MAX_CI_DIVISOR);
      if threshold < 0 {
        return false;
      }
      var status := if args.conf > threshold then STATUS_IGNORED else args.status;
      comp[i] := comp[i].(latest := PriceInfo(args.price, args.conf, status, args.publishingSlot));
      assert comp[..] == c[i := c[i].(latest := PriceInfo(args.price, args.conf, status, args.publishingSlot))];
      LatestKeepsKeys(c, num, i, PriceInfo(args.price, args.conf, status, args.publishingSlot));
      return true;
    }

    static lemma LatestKeepsKeys(c: seq<PriceComponent>, n: nat, i: nat, info: PriceInfo)
      requires i < n <= |c| && DistinctKeys(c[..n]) && SlotsOk(c) && 0 <= info.pubSlot <= INT64_MAX
      ensures var d := c[i := c[i].(latest := info)]; DistinctKeys(d[..n]) && SlotsOk(d)
    {
    }

    // ----- The publisher table -----

    method AddPublisher(key: Key) returns (ok: bool)
      requires Valid()
      modifies this, comp
      ensures ok == AccountState.AddPublisher(old(St()), key).Some? && Valid()
      ensures St() == OrElse(AccountState.AddPublisher(old(St()), key), old(St()))
    {
      hide DistinctKeys, SlotsOk;
      if key == ENABLE_ACCUMULATOR_V2 {
        accumulatorV2 := true;
        return true;
      } else if key == DISABLE_ACCUMULATOR_V2 {
        accumulatorV2, bufferCleared := false, false;
        return true;
      }
      if num >= NUM_COMP {
        return false;
      }
      ghost var table := comp[..num];
      var i := 0;
      while i < num
        invariant 0 <= i <= num
        invariant forall j :: 0 <= j < i ==> table[j].pub != key
      {
        if key == comp[i].pub {
          return false;
        }
        i := i + 1;
      }
      AppendAndSort(key);
      return true;
    }

    /** The new entry goes behind the others, zeroed, and the table is sorted. */
    method AppendAndSort(key: Key)
      requires Valid() && num < NUM_COMP && FindKey(comp[..num], key).None?
      modifies this, comp
      ensures Valid()
      ensures St() == old(St()).(num := old(num) + 1,
                                 comp := ByKey(Extended(old(comp[..num]), key)) + old(comp[..])[old(num) + 1..])
    {
      hide SlotsOk, DistinctKeys, ByKey, FindKey;
      ghost var c, table := comp[..], comp[..num];
      Append(key);
      PublisherTable.ExtendedDistinct(table, key);
      num := num + 1;
      SortTable(c, Extended(table, key));
    }

    method Append(key: Key)
      requires num < comp.Length
      modifies comp
      ensures comp[..num + 1] == Extended(old(comp[..num]), key)
      ensures comp[num + 1..] == old(comp[..])[num + 1..]
    {
      comp[num] := PriceComponent(key, ZERO_INFO, ZERO_INFO);
    }

    method SortTable(ghost c: seq<PriceComponent>, ghost e: seq<PriceComponent>)
      requires 0 < num <= NUM_COMP && comp.Length == NUM_COMP_TOTAL == |c| && comp[..num] == e && comp[num..] == c[num..]
      requires DistinctKeys(e) && SlotsOk(c) && e[..num - 1] == c[..num - 1] && e[num - 1].latest.pubSlot == 0
      modifies comp
      ensures comp[..] == ByKey(e) + c[num..]
      ensures DistinctKeys(comp[..num]) && SlotsOk(comp[..])
    {
      hide SlotsOk, DistinctKeys, ByKey;
      var ok := SortComps.SortPriceComps(comp, num);
      ghost var d := comp[..num];
      SortedIsByKey(d, e);
      assert comp[..] == d + c[num..];
      SortedSlots(c, d, e, num);
    }

    static lemma SortedIsByKey(d: seq<PriceComponent>, c: seq<PriceComponent>)
      requires SortComps.SortedByKey(d) && multiset(d) == multiset(c) && DistinctKeys(c)
      ensures d == ByKey(c) && DistinctKeys(d)
    {
      PublisherTable.ByKeySorts(c);
      PublisherTable.SameLength(d, c);
      DistinctPermutes(d, c);
      PublisherTable.AscendingUnique(d, ByKey(c));
    }

    static lemma DistinctPermutes(d: seq<PriceComponent>, c: seq<PriceComponent>)
      requires SortComps.SortedByKey(d) && multiset(d) == multiset(c) && DistinctKeys(c)
      ensures PublisherTable.StrictlyAscending(d) && DistinctKeys(d)
    {
      forall i, j | 0 <= i < j < |d| ensures Rank(d[i].pub) < Rank(d[j].pub) {
        if d[i] == d[j] {
          SortComps.OccursTwice(d, i, j);
          SortComps.OccursOnce(c, d[i]);
        }
        assert d[i] in multiset(c) && d[j] in multiset(c);
        RankInjective(d[i].pub, d[j].pub);
      }
      PublisherTable.AscendingIsDistinct(d);
    }

    static lemma SortedSlots(c: seq<PriceComponent>, d: seq<PriceComponent>, e: seq<PriceComponent>, n: nat)
      requires SlotsOk(c) && 0 < n <= |c| && multiset(d) == multiset(e) && |e| == n
      requires e[..n - 1] == c[..n - 1] && e[n - 1].latest.pubSlot == 0
      ensures SlotsOk(d + c[n..])
    {
      forall i | 0 <= i < |d| ensures 0 <= d[i].latest.pubSlot <= INT64_MAX {
        assert d[i] in multiset(e);
        var k :| 0 <= k < n && e[k] == d[i];
        assert k < n - 1 ==> e[k] == e[..n - 1][k] == c[k];
      }
    }

    method DelPublisher(key: Key) returns (ok: bool)
      requires Valid()
      modifies this, comp
      ensures ok == AccountState.DelPublisher(old(St()), key).Some? && Valid()
      ensures St() == OrElse(AccountState.DelPublisher(old(St()), key), old(St()))
    {
      hide DistinctKeys, SlotsOk;
      if key == ZERO_KEY {
        return false;
      }
      var i := LookUpFirst(key);
      if i == num {
        return false;
      }
      ShiftLeft(i);
      return true;
    }

    /** The linear search of del_publisher. */
    method LookUpFirst(key: Key) returns (i: nat)
      requires Valid()
      ensures i <= num
      ensures FindKey(St().comp[..St().num], key) == if i == num then None else Some(i)
    {
      assert comp[..][..num] == comp[..num];
      ghost var table := comp[..num];
      i := 0;
      while i < num
        invariant 0 <= i <= num
        invariant forall j :: 0 <= j < i ==> table[j].pub != key
      {
        if key == comp[i].pub {
          FoundIsFirst(table, key, i);
          return;
        }
        i := i + 1;
      }
    }

    method ShiftLeft(i: nat)
      requires Valid() && i < num
      modifies this, comp
      ensures Valid()
      ensures St() == old(St()).(num := old(num) - 1,
                                 comp := old(comp[..])[..i] + old(comp[..])[i + 1..old(num)] + [ZERO_COMP] + old(comp[..])[old(num)..])
    {
      hide DistinctKeys, SlotsOk;
      RemovedKeys(comp[..], num, i);
      ShiftComponents(i, num);
      num := num - 1;
    }

    /** Each later component moves down by one, and the freed last place is zeroed. */
    method ShiftComponents(i: nat, n: nat)
      requires i < n <= comp.Length
      modifies comp
      ensures comp[..] == old(comp[..])[..i] + old(comp[..])[i + 1..n] + [ZERO_COMP] + old(comp[..])[n..]
    {
      ghost var c := comp[..];
      var j := i + 1;
      while j < n
        invariant i + 1 <= j <= n
        invariant forall p :: 0 <= p < i ==> comp[p] == c[p]
        invariant forall p :: i <= p < j - 1 ==> comp[p] == c[p + 1]
        invariant forall p :: j - 1 <= p < comp.Length ==> comp[p] == c[p]
      {
        comp[j - 1] := comp[j];
        j := j + 1;
      }
      comp[n - 1] := ZERO_COMP;
      Shifted(comp[..], c, i, n);
    }

    static lemma Shifted(now: seq<PriceComponent>, c: seq<PriceComponent>, i: nat, n: nat)
      requires i < n <= |c| == |now|
      requires forall p :: 0 <= p < i ==> now[p] == c[p]
      requires forall p :: i <= p < n - 1 ==> now[p] == c[p + 1]
      requires now[n - 1] == ZERO_COMP && forall p :: n <= p < |c| ==> now[p] == c[p]
      ensures now == c[..i] + c[i + 1..n] + [ZERO_COMP] + c[n..]
    {
    }

    static lemma RemovedKeys(c: seq<PriceComponent>, n: nat, i: nat)
      requires i < n <= |c| && DistinctKeys(c[..n]) && SlotsOk(c)
      ensures var d := c[..i] + c[i + 1..n] + [ZERO_COMP] + c[n..]; DistinctKeys(d[..n - 1]) && SlotsOk(d)
    {
      var d := c[..i] + c[i + 1..n] + [ZERO_COMP] + c[n..];
      var e := d[..n - 1];
      forall a, b | 0 <= a < b < |e| ensures e[a].pub != e[b].pub {
        var a', b' := if a < i then a else a + 1, if b < i then b else b + 1;
        assert c[..n][a'].pub != c[..n][b'].pub;
      }
    }

    // ----- Configuration -----

    /** init_price on an account of the requested price type. */
    method InitPrice(expo: int) returns (ok: bool)
      requires Valid()
      modifies this, comp
      ensures ok == AccountState.InitPrice(old(St()), expo).Some? && Valid()
      ensures St() == OrElse(AccountState.InitPrice(old(St()), expo), old(St()))
    {
      hide DistinctKeys, SlotsOk, Cleared;
      if !(-MAX_NUM_DECIMALS <= expo <= MAX_NUM_DECIMALS) {
        return false;
      }
      ghost var s0 := St();
      exponent, lastSlot, validSlot := expo, 0, 0;
      agg := agg.(pubSlot := 0);
      prevSlot, prevPrice, prevConf, prevTimestamp := 0, 0, 0, 0;
      agg := ZERO_INFO;
      ghost var s1 := St();
      assert Some(s1.(comp := Cleared(s0.comp))) == AccountState.InitPrice(s0, expo);
      ClearedKeepsValid(comp[..], num);
      ClearComponents();
      assert St() == s1.(comp := Cleared(s0.comp));
      return true;
    }

    method ClearComponents()
      modifies comp
      ensures comp[..] == Cleared(old(comp[..]))
    {
      ghost var c := comp[..];
      var i := 0;
      while i < comp.Length
        invariant 0 <= i <= comp.Length
        invariant forall j :: 0 <= j < i ==> comp[j] == Cleared(c)[j]
        invariant forall j :: i <= j < comp.Length ==> comp[j] == c[j]
      {
        comp[i] := comp[i].(agg := ZERO_INFO);
        comp[i] := comp[i].(latest := ZERO_INFO);
        i := i + 1;
      }
    }

    static lemma ClearedKeepsValid(c: seq<PriceComponent>, n: nat)
      requires n <= |c| && DistinctKeys(c[..n]) && SlotsOk(c)
      ensures DistinctKeys(Cleared(c)[..n]) && SlotsOk(Cleared(c))
    {
    }
  }
}
