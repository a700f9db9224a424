/** The aggregate of a reachable account, read off its publishers' quotes by counting. */
module Consensus {
  import opened MachineInts
  import opened Keys
  import opened PriceTypes
  import opened Aggregation
  import opened AccountState
  import opened ConfidenceFilter
  import opened QuoteQuality
  import opened Wrappers
  import opened Quantiles

  // ----- Counting publishers -----

  /** A publisher whose quote is aggregated: trading, with three different 64-bit votes, and recent enough. */
  predicate Heard(q: PriceInfo, slot: int, maxLatency: int) {
    && q.status == 1
    && 0 < q.conf && -0x8000_0000_0000_0000 <= q.price - q.conf && q.price + q.conf < 0x8000_0000_0000_0000
    && slot - q.pubSlot <= if maxLatency == 0 then 25 else maxLatency
  }

  /** How many publishers have a quote with the property. */
  ghost function Publishers(p: PriceInfo -> bool, c: seq<PriceComponent>): nat {
    if c == [] then 0 else Publishers(p, c[..|c| - 1]) + if p(c[|c| - 1].latest) then 1 else 0
  }

  ghost function HeardAt(slot: int, maxLatency: int): PriceInfo -> bool {
    q => Heard(q, slot, maxLatency)
  }

  /** The votes a heard publisher casts, one below, one at and one above its price, that have the property. */
  ghost function VotesWith(p: int -> bool, c: seq<PriceComponent>, slot: int, maxLatency: int): nat {
    Publishers(q => Heard(q, slot, maxLatency) && p(q.price - q.conf), c)
    + Publishers(q => Heard(q, slot, maxLatency) && p(q.price), c)
    + Publishers(q => Heard(q, slot, maxLatency) && p(q.price + q.conf), c)
  }

  lemma SharpCounts(q: PriceInfo, slot: int, maxLatency: int)
    requires Sharp(q)
    ensures Counts(q, slot, maxLatency) <==> Heard(q, slot, maxLatency)
    ensures Heard(q, slot, maxLatency) ==> ToInt64(q.conf) == q.conf
  {
  }

  lemma {:induction false} QuotesAreHeard(c: seq<PriceComponent>, slot: int, maxLatency: int)
    requires AllSharp(c)
    ensures |Quotes(c, slot, maxLatency)| == Publishers(HeardAt(slot, maxLatency), c)
  {
    hide Counts, Heard, Sharp;
    if c != [] {
      QuotesAreHeard(c[..|c| - 1], slot, maxLatency);
      SharpCounts(c[|c| - 1].latest, slot, maxLatency);
    }
  }

  lemma {:induction false} VotesAreCast(p: int -> bool, c: seq<PriceComponent>, slot: int, maxLatency: int)
    requires AllSharp(c)
    ensures Count(p, Votes(Quotes(c, slot, maxLatency))) == VotesWith(p, c, slot, maxLatency)
  {
    hide Counts, Heard, Sharp, Count, Votes;
    if c == [] {
      NoVotes(p);
    } else {
      var front, q := c[..|c| - 1], c[|c| - 1].latest;
      VotesAreCast(p, front, slot, maxLatency);
      SharpCounts(q, slot, maxLatency);
      VotesPush(p, Quotes(front, slot, maxLatency), q);
      ThreeVotes(p, VotesOf(q));
      assert Quotes(front, slot, maxLatency) + [] == Quotes(front, slot, maxLatency);
    }
  }

  lemma NoVotes(p: int -> bool)
    ensures Count(p, Votes([])) == 0
  {
  }

  // ----- The aggregate -----

  /** The vote x stands at position i among all votes. */
  ghost predicate VoteRanked(x: int, i: nat, c: seq<PriceComponent>, slot: int, maxLatency: int) {
    VotesWith(Under(x), c, slot, maxLatency) <= i < VotesWith(AtMost(x), c, slot, maxLatency)
  }

  /** The publishers of an account. */
  ghost function Table(s: State): seq<PriceComponent>
    requires s.num <= |s.comp|
  {
    s.comp[..s.num]
  }

  ghost function HeardNow(s: State, slot: int): nat
    requires s.num <= |s.comp|
  {
    Publishers(HeardAt(slot, s.maxLatency), Table(s))
  }

  /**
   What an aggregation of a reachable account publishes, counted over the publishers: with n of them heard, and no fewer
   than the minimum, the price is the average of the two middle votes of their 3n, rounded down, and the confidence its
   larger distance from the votes a quarter in from either end, in 64 bits.  Otherwise there is no price.
   */
  lemma OutcomeFromVotes(s: State, slot: int, lo: int, l: int, r: int, hi: int)
    requires s.num <= |s.comp| && AllSharp(s.comp)
    requires var n := HeardNow(s, slot);
             n > 0 ==>
               && VoteRanked(lo, 3 * n / 4, Table(s), slot, s.maxLatency)
               && VoteRanked(l, (3 * n - 1) / 2, Table(s), slot, s.maxLatency)
               && VoteRanked(r, 3 * n / 2, Table(s), slot, s.maxLatency)
               && VoteRanked(hi, 3 * n - 1 - 3 * n / 4, Table(s), slot, s.maxLatency)
    ensures var n, price := HeardNow(s, slot), (l + r) / 2;
            Outcome(s, slot) == if n >= 1 && n >= s.minPub
                                then Price(price, Max(ToInt64(price - lo), ToInt64(hi - price))) else NoPrice
  {
    hide P25, P50, P75, ToInt64, Count, Votes, Quotes, Heard, VotesWith;
    var c, n, lat := Table(s), HeardNow(s, slot), s.maxLatency;
    var quotes := Quotes(c, slot, lat);
    QuotesAreHeard(c, slot, lat);
    if n > 0 {
      RankedVote(c, slot, lat, lo, 3 * n / 4);
      RankedVote(c, slot, lat, l, (3 * n - 1) / 2);
      RankedVote(c, slot, lat, r, 3 * n / 2);
      RankedVote(c, slot, lat, hi, 3 * n - 1 - 3 * n / 4);
      OutputsFromCounts(Votes(quotes), lo, l, r, hi);
      QuotesCount(c, slot, lat);
      QuotesAreLatest(c, slot, lat);
      SharpQuotesTrade(quotes, s.minPub, slot, lat);
    }
  }

  lemma RankedVote(c: seq<PriceComponent>, slot: int, maxLatency: int, x: int, i: nat)
    requires AllSharp(c)
    ensures VoteRanked(x, i, c, slot, maxLatency) <==> Ranked(x, i, Votes(Quotes(c, slot, maxLatency)))
  {
    hide Count, Votes, Quotes, VotesWith;
    VotesAreCast(Under(x), c, slot, maxLatency);
    VotesAreCast(AtMost(x), c, slot, maxLatency);
  }

  /** There is a vote at every position, so the theorem always applies. */
  lemma SomeVoteRanked(c: seq<PriceComponent>, slot: int, maxLatency: int, i: nat) returns (x: int)
    requires AllSharp(c) && i < 3 * Publishers(HeardAt(slot, maxLatency), c)
    ensures VoteRanked(x, i, c, slot, maxLatency)
  {
    QuotesAreHeard(c, slot, maxLatency);
    x := SomeRanked(Votes(Quotes(c, slot, maxLatency)), i);
    RankedVote(c, slot, maxLatency, x, i);
  }

  lemma ReachableOutcome(exponent: int, minPub: int, v2: bool, events: seq<Event>, slot: int, lo: int, l: int, r: int,
                         hi: int)
    requires ValidRun(events, 0)
    requires var s := Run(Fresh(exponent, minPub, v2), events, 0);
             var n := HeardNow(s, slot);
             n > 0 ==>
               && VoteRanked(lo, 3 * n / 4, Table(s), slot, s.maxLatency)
               && VoteRanked(l, (3 * n - 1) / 2, Table(s), slot, s.maxLatency)
               && VoteRanked(r, 3 * n / 2, Table(s), slot, s.maxLatency)
               && VoteRanked(hi, 3 * n - 1 - 3 * n / 4, Table(s), slot, s.maxLatency)
    ensures var s := Run(Fresh(exponent, minPub, v2), events, 0);
            var n, price := HeardNow(s, slot), (l + r) / 2;
            Outcome(s, slot) == if n >= 1 && n >= s.minPub
                                then Price(price, Max(ToInt64(price - lo), ToInt64(hi - price))) else NoPrice
  {
    hide VoteRanked, Outcome, Run;
    RunKeepsSharp(Fresh(exponent, minPub, v2), events, 0);
    OutcomeFromVotes(Run(Fresh(exponent, minPub, v2), events, 0), slot, lo, l, r, hi);
  }

  // ----- One quote -----

  ghost function WithQuote(s: State, i: nat, q: PriceInfo): State
    requires i < |s.comp|
  {
    s.(comp := s.comp[i := s.comp[i].(latest := q)])
  }

  lemma {:induction false} QuotesWithout(c: seq<PriceComponent>, i: nat, slot: int, maxLatency: int)
    requires i < |c|
    ensures var d, q := c[i := c[i].(latest := ZERO_INFO)], c[i].latest;
            && |Quotes(c, slot, maxLatency)|
               == |Quotes(d, slot, maxLatency)| + (if Counts(q, slot, maxLatency) then 1 else 0)
            && (!Counts(q, slot, maxLatency) ==> Quotes(c, slot, maxLatency) == Quotes(d, slot, maxLatency))
  {
    var d := c[i := c[i].(latest := ZERO_INFO)];
    if i == |c| - 1 {
      assert d[..|c| - 1] == c[..|c| - 1];
    } else {
      var front := c[..|c| - 1];
      assert d[..|c| - 1] == front[i := front[i].(latest := ZERO_INFO)];
      QuotesWithout(front, i, slot, maxLatency);
    }
  }

  /** In every reachable state a quote adds one to the quotes if and only if it is heard, and otherwise does not matter. */
  lemma QuoteWeighs(exponent: int, minPub: int, v2: bool, events: seq<Event>, slot: int, i: nat)
    requires ValidRun(events, 0) && i < Run(Fresh(exponent, minPub, v2), events, 0).num
    ensures var s := Run(Fresh(exponent, minPub, v2), events, 0);
            var t, q := WithQuote(s, i, ZERO_INFO), s.comp[i].latest;
            && |CountingQuotes(s, slot)|
               == |CountingQuotes(t, slot)| + (if Heard(q, slot, s.maxLatency) then 1 else 0)
            && (!Heard(q, slot, s.maxLatency) ==> Outcome(s, slot) == Outcome(t, slot))
  {
    hide Run, Counts, Heard, Aggregate, Quotes;
    var s0 := Fresh(exponent, minPub, v2);
    RunKeepsSharp(s0, events, 0);
    var s := Run(s0, events, 0);
    SharpCounts(s.comp[i].latest, slot, s.maxLatency);
    QuotesWithout(s.comp[..s.num], i, slot, s.maxLatency);
    assert WithQuote(s, i, ZERO_INFO).comp[..s.num] == s.comp[..s.num][i := s.comp[i].(latest := ZERO_INFO)];
  }

  /** In particular a quote is used until it is max_latency_ slots old, 25 when that is 0, and not a slot longer. */
  lemma StaleQuoteIgnored(exponent: int, minPub: int, v2: bool, events: seq<Event>, slot: int, i: nat)
    requires ValidRun(events, 0) && i < Run(Fresh(exponent, minPub, v2), events, 0).num
    ensures var s := Run(Fresh(exponent, minPub, v2), events, 0);
            var t, q := WithQuote(s, i, ZERO_INFO), s.comp[i].latest;
            var age, limit := slot - q.pubSlot, if s.maxLatency == 0 then 25 else s.maxLatency;
            && (age > limit ==>
                  |CountingQuotes(s, slot)| == |CountingQuotes(t, slot)| && Outcome(s, slot) == Outcome(t, slot))
            && (age == limit && q.status == 1 && 0 < q.conf && IsInt64(q.price - q.conf) && IsInt64(q.price + q.conf) ==>
                  |CountingQuotes(s, slot)| == |CountingQuotes(t, slot)| + 1)
  {
    hide Run, Aggregate, Quotes;
    QuoteWeighs(exponent, minPub, v2, events, slot, i);
  }
}
