/** One aggregation, as a function of the quotes: which count, how they vote, and what comes out. */
module Aggregation {
  import opened MachineInts
  import opened PriceTypes
  import opened Quantiles
  import opened ConfidenceFilter
  import opened Wrappers

  /** Whether a publisher's latest price counts in the aggregation at `slot`. */
  predicate Counts(q: PriceInfo, slot: int, maxLatency: int) {
    var conf := ToInt64(q.conf);
    && q.status == STATUS_TRADING
    && 0 < conf && INT64_MIN + conf <= q.price <= INT64_MAX - conf
    && slot - q.pubSlot <= (if maxLatency != 0 then maxLatency else MAX_SEND_LATENCY)
  }

  /** The quotes that count, in table order. */
  ghost function Quotes(c: seq<PriceComponent>, slot: int, maxLatency: int): seq<PriceInfo> {
    if c == [] then []
    else Quotes(c[..|c| - 1], slot, maxLatency) +
         (var q := c[|c| - 1].latest; if Counts(q, slot, maxLatency) then [q] else [])
  }

  /** A quote's three votes. */
  ghost function VotesOf(q: PriceInfo): seq<int> {
    [q.price - ToInt64(q.conf), q.price, q.price + ToInt64(q.conf)]
  }

  ghost function Votes(quotes: seq<PriceInfo>): (v: seq<int>)
    ensures |v| == 3 * |quotes|
  {
    if quotes == [] then [] else Votes(quotes[..|quotes| - 1]) + VotesOf(quotes[|quotes| - 1])
  }

  /** The larger of the two one-sided spreads, in 64-bit arithmetic. */
  ghost function Confidence(v: seq<int>): int
    requires v != []
  {
    Max(ToInt64(P50(v) - P25(v)), ToInt64(P75(v) - P50(v)))
  }

  datatype Result = NoPrice | Price(price: int, conf: int)

  ghost function Aggregate(quotes: seq<PriceInfo>, minPub: int): Result {
    if |quotes| == 0 || |quotes| < minPub then NoPrice
    else
      var v := Votes(quotes);
      if Confidence(v) <= 0 then NoPrice else Price(P50(v), Confidence(v))
  }

  ghost predicate AllCount(quotes: seq<PriceInfo>, slot: int, maxLatency: int) {
    forall i :: 0 <= i < |quotes| ==> Counts(quotes[i], slot, maxLatency)
  }

  lemma {:induction false} QuotesCount(c: seq<PriceComponent>, slot: int, maxLatency: int)
    ensures AllCount(Quotes(c, slot, maxLatency), slot, maxLatency)
    ensures |Quotes(c, slot, maxLatency)| <= |c|
  {
    if c != [] {
      QuotesCount(c[..|c| - 1], slot, maxLatency);
    }
  }

  // ----- Votes -----

  lemma {:induction false} VotesAre64Bit(quotes: seq<PriceInfo>, slot: int, maxLatency: int)
    requires AllCount(quotes, slot, maxLatency)
    ensures forall i :: 0 <= i < 3 * |quotes| ==> IsInt64(Votes(quotes)[i])
  {
    if quotes != [] {
      VotesAre64Bit(quotes[..|quotes| - 1], slot, maxLatency);
      assert Counts(quotes[|quotes| - 1], slot, maxLatency);
    }
  }

  /** A quote's votes are three different values, so no value gets more than one vote per quote. */
  lemma {:induction false} NoValueDominates(quotes: seq<PriceInfo>, slot: int, maxLatency: int, x: int)
    requires AllCount(quotes, slot, maxLatency)
    ensures Count(Exactly(x), Votes(quotes)) <= |quotes|
  {
    if quotes != [] {
      var front, q := quotes[..|quotes| - 1], quotes[|quotes| - 1];
      NoValueDominates(front, slot, maxLatency, x);
      CountConcat(Exactly(x), Votes(front), VotesOf(q));
      assert Counts(q, slot, maxLatency);
      ThreeVotes(Exactly(x), VotesOf(q));
    }
  }

  lemma ThreeVotes(p: int -> bool, v: seq<int>)
    requires |v| == 3
    ensures Count(p, v) == (if p(v[0]) then 1 else 0) + (if p(v[1]) then 1 else 0) + (if p(v[2]) then 1 else 0)
  {
    assert Count(p, v[1..][1..][1..]) == 0;
    assert Count(p, v[1..][1..]) == if p(v[2]) then 1 else 0;
  }

  /** From one quote on, the three outputs are ordered and the quartiles differ: no value has half the votes. */
  lemma SpreadIsPositive(quotes: seq<PriceInfo>, slot: int, maxLatency: int)
    requires quotes != [] && AllCount(quotes, slot, maxLatency)
    ensures var v := Votes(quotes); P25(v) <= P50(v) <= P75(v) && P25(v) < P75(v)
  {
    var v := Votes(quotes);
    QuantilesOrdered(v);
    forall x ensures 2 * Count(Exactly(x), v) < |v| {
      NoValueDominates(quotes, slot, maxLatency, x);
    }
    QuartilesDiffer(v);
  }

  /** Neither one-sided spread leaves 64 bits. */
  ghost predicate SpreadFits(quotes: seq<PriceInfo>)
    requires quotes != []
  {
    var v := Votes(quotes);
    P50(v) - P25(v) <= INT64_MAX && P75(v) - P50(v) <= INT64_MAX
  }

  /** The confidence is the true larger spread, and positive, exactly when both spreads fit 64 bits. */
  lemma ConfidenceIsSpread(quotes: seq<PriceInfo>, slot: int, maxLatency: int)
    requires quotes != [] && AllCount(quotes, slot, maxLatency)
    ensures var v := Votes(quotes);
            SpreadFits(quotes) <==> Confidence(v) == Max(P50(v) - P25(v), P75(v) - P50(v))
    ensures SpreadFits(quotes) ==> 0 < Confidence(Votes(quotes)) <= P75(Votes(quotes)) - P25(Votes(quotes))
  {
    SpreadIsPositive(quotes, slot, maxLatency);
  }

  /** Positive prices never overflow the spread. */
  lemma PositivePricesFit(quotes: seq<PriceInfo>, slot: int, maxLatency: int)
    requires quotes != [] && AllCount(quotes, slot, maxLatency)
    requires forall i :: 0 <= i < |quotes| ==> ToInt64(quotes[i].conf) <= quotes[i].price
    ensures SpreadFits(quotes)
  {
    var v := Votes(quotes);
    VotesAre64Bit(quotes, slot, maxLatency);
    VotesNonNegative(quotes);
    NoOutlier(v, 0, INT64_MAX);
    QuartilesResistOutliers(v, 0, INT64_MAX);
    QuantilesOrdered(v);
  }

  lemma {:induction false} VotesNonNegative(quotes: seq<PriceInfo>)
    requires forall i :: 0 <= i < |quotes| ==> 0 <= ToInt64(quotes[i].conf) <= quotes[i].price
    ensures forall i :: 0 <= i < 3 * |quotes| ==> 0 <= Votes(quotes)[i]
  {
    if quotes != [] {
      VotesNonNegative(quotes[..|quotes| - 1]);
    }
  }

  lemma {:induction false} NoOutlier(v: seq<int>, lo: int, hi: int)
    requires forall i :: 0 <= i < |v| ==> lo <= v[i] <= hi
    ensures Count(Outside(lo, hi), v) == 0
  {
    if v != [] {
      NoOutlier(v[1..], lo, hi);
    }
  }

  /** A price comes out exactly when enough quotes count, provided the spread fits: the last check never fires. */
  lemma TradingIffEnoughQuotes(quotes: seq<PriceInfo>, minPub: int, slot: int, maxLatency: int)
    requires AllCount(quotes, slot, maxLatency)
    requires quotes != [] ==> SpreadFits(quotes)
    ensures Aggregate(quotes, minPub).Price? <==> |quotes| >= Max(1, minPub)
  {
    if quotes != [] {
      ConfidenceIsSpread(quotes, slot, maxLatency);
    }
  }

  /** Exactly when a sufficient set of quotes yields no price: one spread wraps and the other is zero. */
  lemma WhenEnoughQuotesFail(quotes: seq<PriceInfo>, minPub: int, slot: int, maxLatency: int)
    requires |quotes| >= Max(1, minPub) && AllCount(quotes, slot, maxLatency)
    ensures var v := Votes(quotes);
            Aggregate(quotes, minPub).NoPrice? <==>
              P75(v) - P25(v) > INT64_MAX && (P50(v) == P25(v) || P50(v) == P75(v))
  {
    hide P25, P50, P75, Votes, AllCount, ToInt64;
    var v := Votes(quotes);
    SpreadIsPositive(quotes, slot, maxLatency);
    QuartilesAre64Bit(quotes, slot, maxLatency);
    WrapSigns(P50(v) - P25(v), P75(v) - P50(v));
  }

  lemma QuartilesAre64Bit(quotes: seq<PriceInfo>, slot: int, maxLatency: int)
    requires quotes != [] && AllCount(quotes, slot, maxLatency)
    ensures INT64_MIN <= P25(Votes(quotes)) && P75(Votes(quotes)) <= INT64_MAX
  {
    var v := Votes(quotes);
    VotesAre64Bit(quotes, slot, maxLatency);
    NoOutlier(v, INT64_MIN, INT64_MAX);
    QuartilesResistOutliers(v, INT64_MIN, INT64_MAX);
  }

  lemma WrapSigns(l: int, r: int)
    requires 0 <= l && 0 <= r && 0 < l + r <= UINT64_MAX
    ensures Max(ToInt64(l), ToInt64(r)) <= 0 <==> l + r > INT64_MAX && (l == 0 || r == 0)
  {
    assert ToInt64(l) == if l <= INT64_MAX then l else l - TWO64;
    assert ToInt64(r) == if r <= INT64_MAX then r else r - TWO64;
  }

  /** Whatever comes out is a 64-bit price with a positive 64-bit confidence. */
  lemma AggregateBounds(c: seq<PriceComponent>, slot: int, maxLatency: int, minPub: int)
    ensures var r := Aggregate(Quotes(c, slot, maxLatency), minPub);
            r.Price? ==> IsInt64(r.price) && 0 < r.conf <= INT64_MAX
  {
    var quotes := Quotes(c, slot, maxLatency);
    QuotesCount(c, slot, maxLatency);
    if quotes != [] {
      QuartilesAre64Bit(quotes, slot, maxLatency);
      SpreadIsPositive(quotes, slot, maxLatency);
    }
  }

  // ----- When the spread does not fit -----

  /** Three quotes far apart, which the filter lets through: the left spread wraps, and the confidence comes out as 2. */
  lemma SpreadCanWrap()
    ensures var quotes := [PriceInfo(INT64_MIN + 1, 1, STATUS_TRADING, 7), PriceInfo(INT64_MAX - 4, 1, STATUS_TRADING, 7),
                           PriceInfo(INT64_MAX - 1, 1, STATUS_TRADING, 7)];
            && AllCount(quotes, 7, 0) && AllQuotesSharp(quotes)
            && Aggregate(quotes, 1) == Price(INT64_MAX - 4, 2) && !SpreadFits(quotes)
  {
    hide ToInt64;
    var a, b := PriceInfo(INT64_MIN + 1, 1, STATUS_TRADING, 7), PriceInfo(INT64_MAX - 4, 1, STATUS_TRADING, 7);
    var c := PriceInfo(INT64_MAX - 1, 1, STATUS_TRADING, 7);
    VotesOfThree(a, b, c);
    SpreadWraps(Votes([a, b, c]));
  }

  lemma VotesOfThree(a: PriceInfo, b: PriceInfo, c: PriceInfo)
    ensures Votes([a, b, c]) == VotesOf(a) + VotesOf(b) + VotesOf(c)
  {
    assert [a, b, c][..2] == [a, b] && [a, b][..1] == [a];
    assert Votes([a]) == VotesOf(a);
    assert Votes([a, b]) == VotesOf(a) + VotesOf(b);
  }

  lemma SpreadWraps(v: seq<int>)
    requires v == [INT64_MIN, INT64_MIN + 1, INT64_MIN + 2, INT64_MAX - 5, INT64_MAX - 4, INT64_MAX - 3,
                   INT64_MAX - 2, INT64_MAX - 1, INT64_MAX]
    ensures P25(v) == INT64_MIN + 2 && P50(v) == INT64_MAX - 4 && P75(v) == INT64_MAX - 2 && Confidence(v) == 2
  {
    hide P25, P50, P75, ToInt64, IsAscending;
    Spread(v);
    NineInOrder(v);
    WrapSmall();
  }

  lemma NineInOrder(v: seq<int>)
    requires |v| == 9 && IsAscending(v)
    ensures P25(v) == v[2] && P50(v) == v[4] && P75(v) == v[6]
  {
    AscendingSorts(v);
    AscendingUnique(v, Ascending(v));
  }

  lemma Spread(v: seq<int>)
    requires forall i :: 0 < i < |v| ==> v[i - 1] <= v[i]
    ensures IsAscending(v)
  {
    forall i, j | 0 <= i < j < |v| ensures v[i] <= v[j] {
      Chain(v, i, j);
    }
  }

  lemma {:induction false} Chain(v: seq<int>, i: nat, j: nat)
    requires i <= j < |v| && forall k :: 0 < k < |v| ==> v[k - 1] <= v[k]
    ensures v[i] <= v[j]
  {
    if i < j {
      Chain(v, i, j - 1);
    }
  }

  lemma WrapSmall()
    ensures ToInt64(INT64_MAX - 4 - (INT64_MIN + 2)) == -7
  {
  }

  lemma VotesPush(p: int -> bool, quotes: seq<PriceInfo>, q: PriceInfo)
    ensures Count(p, Votes(quotes + [q])) == Count(p, Votes(quotes)) + Count(p, VotesOf(q))
  {
    assert (quotes + [q])[..|quotes|] == quotes;
    CountConcat(p, Votes(quotes), VotesOf(q));
  }

  ghost function Repeated(q: PriceInfo, n: nat): seq<PriceInfo> {
    seq(n, i => q)
  }

  lemma {:induction false} VotesOfRepeated(p: int -> bool, front: seq<PriceInfo>, q: PriceInfo, n: nat)
    ensures Count(p, Votes(front + Repeated(q, n))) == Count(p, Votes(front)) + n * Count(p, VotesOf(q))
  {
    hide Votes, VotesOf, Count;
    if n == 0 {
      assert front + Repeated(q, 0) == front;
    } else {
      VotesOfRepeated(p, front, q, n - 1);
      VotesPush(p, front + Repeated(q, n - 1), q);
      assert front + Repeated(q, n) == front + Repeated(q, n - 1) + [q];
      assert n * Count(p, VotesOf(q)) == (n - 1) * Count(p, VotesOf(q)) + Count(p, VotesOf(q));
    }
  }

  /** Three copies of c, four of a and one of d. */
  ghost function Mixture(c: PriceInfo, a: PriceInfo, d: PriceInfo): seq<PriceInfo> {
    [] + Repeated(c, 3) + Repeated(a, 4) + Repeated(d, 1)
  }

  lemma MixtureCount(p: int -> bool, c: PriceInfo, a: PriceInfo, d: PriceInfo)
    ensures Count(p, Votes(Mixture(c, a, d))) == 3 * Count(p, VotesOf(c)) + 4 * Count(p, VotesOf(a)) + Count(p, VotesOf(d))
  {
    hide VotesOf;
    VotesOfRepeated(p, [], c, 3);
    VotesOfRepeated(p, [] + Repeated(c, 3), a, 4);
    VotesOfRepeated(p, [] + Repeated(c, 3) + Repeated(a, 4), d, 1);
  }

  const FAR: int := 0x4000_0000_0000_0001
  const LOW: int := INT64_MIN + 10

  /**
   Without the filter the last check could fire: eight quotes pass the tests of the aggregation itself, and there is
   no price.  Four of them the filter marks as ignored, so they are never recorded as trading.
   */
  lemma UnfilteredQuotesCanFail()
    ensures var wide := PriceInfo(LOW + FAR, FAR, STATUS_TRADING, 7);
            var quotes := Mixture(PriceInfo(LOW - 1, 1, STATUS_TRADING, 7), wide,
                                  PriceInfo(INT64_MAX - 1, 1, STATUS_TRADING, 7));
            && |quotes| == 8 && AllCount(quotes, 7, 0) && Aggregate(quotes, 1) == NoPrice
            && StatusFor(wide.price, wide.conf, STATUS_TRADING) == Some(STATUS_IGNORED)
  {
    hide ToInt64, Votes, Count, Aggregate, P25, P50, P75;
    var c, a := PriceInfo(LOW - 1, 1, STATUS_TRADING, 7), PriceInfo(LOW + FAR, FAR, STATUS_TRADING, 7);
    var d := PriceInfo(INT64_MAX - 1, 1, STATUS_TRADING, 7);
    var quotes := Mixture(c, a, d);
    assert AllCount(quotes, 7, 0);
    MixtureRanks(c, a, d, LOW, LOW + 2 * FAR);
    WhenEnoughQuotesFail(quotes, 1, 7, 0);
  }

  lemma MixtureRanks(c: PriceInfo, a: PriceInfo, d: PriceInfo, x: int, y: int)
    requires VotesOf(c) == [x - 2, x - 1, x] && x < y
    requires VotesOf(a) == [x, (x + y) / 2, y] && x < (x + y) / 2 < y
    requires VotesOf(d)[0] > y && VotesOf(d)[1] > y && VotesOf(d)[2] > y
    ensures var v := Votes(Mixture(c, a, d)); |v| == 24 && P25(v) == x && P50(v) == x && P75(v) == y
  {
    hide Votes, VotesOf, Ascending;
    var v := Votes(Mixture(c, a, d));
    assert |Mixture(c, a, d)| == 8;
    MixtureBelow(c, a, d, Under(x));
    MixtureBelow(c, a, d, AtMost(x));
    MixtureBelow(c, a, d, Under(y));
    MixtureBelow(c, a, d, AtMost(y));
    RankFromCounts(v, 6, x);
    RankFromCounts(v, 11, x);
    RankFromCounts(v, 12, x);
    RankFromCounts(v, 17, y);
  }

  lemma MixtureBelow(c: PriceInfo, a: PriceInfo, d: PriceInfo, p: int -> bool)
    ensures Count(p, Votes(Mixture(c, a, d))) ==
            3 * ((if p(VotesOf(c)[0]) then 1 else 0) + (if p(VotesOf(c)[1]) then 1 else 0) + (if p(VotesOf(c)[2]) then 1 else 0)) +
            4 * ((if p(VotesOf(a)[0]) then 1 else 0) + (if p(VotesOf(a)[1]) then 1 else 0) + (if p(VotesOf(a)[2]) then 1 else 0)) +
            ((if p(VotesOf(d)[0]) then 1 else 0) + (if p(VotesOf(d)[1]) then 1 else 0) + (if p(VotesOf(d)[2]) then 1 else 0))
  {
    hide Votes;
    MixtureCount(p, c, a, d);
    ThreeVotes(p, VotesOf(c));
    ThreeVotes(p, VotesOf(a));
    ThreeVotes(p, VotesOf(d));
  }

  // ----- What the filter does for the aggregation -----

  /** Each negative vote for x comes with two others that are negative too. */
  lemma {:induction false} NegativeVotes(quotes: seq<PriceInfo>, slot: int, maxLatency: int, x: int)
    requires AllCount(quotes, slot, maxLatency) && AllQuotesSharp(quotes) && x < 0
    ensures 3 * Count(Exactly(x), Votes(quotes)) <= Count(Under(0), Votes(quotes))
  {
    if quotes != [] {
      var front, q := quotes[..|quotes| - 1], quotes[|quotes| - 1];
      NegativeVotes(front, slot, maxLatency, x);
      CountConcat(Exactly(x), Votes(front), VotesOf(q));
      CountConcat(Under(0), Votes(front), VotesOf(q));
      assert Counts(q, slot, maxLatency) && Sharp(q);
      ThreeVotes(Exactly(x), VotesOf(q));
      ThreeVotes(Under(0), VotesOf(q));
    }
  }

  lemma {:induction false} PositiveVotes(quotes: seq<PriceInfo>, slot: int, maxLatency: int, x: int)
    requires AllCount(quotes, slot, maxLatency) && AllQuotesSharp(quotes) && x >= 0
    ensures 3 * Count(Exactly(x), Votes(quotes)) <= Count(AtLeast(0), Votes(quotes))
  {
    if quotes != [] {
      var front, q := quotes[..|quotes| - 1], quotes[|quotes| - 1];
      PositiveVotes(front, slot, maxLatency, x);
      CountConcat(Exactly(x), Votes(front), VotesOf(q));
      CountConcat(AtLeast(0), Votes(front), VotesOf(q));
      assert Counts(q, slot, maxLatency) && Sharp(q);
      ThreeVotes(Exactly(x), VotesOf(q));
      ThreeVotes(AtLeast(0), VotesOf(q));
    }
  }

  /** A p50 equal to a quartile stands at the middle position on that quartile's side. */
  lemma MiddleOf(q: seq<int>)
    requires q != []
    ensures |Ascending(q)| == |q|
    ensures P50(q) == P25(q) ==> Ascending(q)[|q| / 2 + |q| % 2 - 1] == P50(q)
    ensures P50(q) == P75(q) ==> Ascending(q)[|q| / 2] == P50(q)
  {
    AscendingSorts(q);
    var s := Ascending(q);
    if |q| % 2 == 0 {
      assert s[|q| / 4] <= s[|q| / 2 - 1] <= s[|q| / 2] <= s[|q| - 1 - |q| / 4];
    }
  }

  /** If the p50 is the p25 or the p75, that value holds at least the positions between the two. */
  lemma MedianAtQuartile(q: seq<int>)
    requires q != []
    ensures P50(q) == P25(q) || P50(q) == P75(q) ==> Count(Exactly(P50(q)), q) >= |q| / 2 - |q| / 4 + |q| % 2
  {
    hide Ascending, IsAscending, Exactly, Count;
    AscendingSorts(q);
    MiddleOf(q);
    var s, x := Ascending(q), P50(q);
    var i, j, m := |q| / 4, |q| - |q| / 4, |q| / 2 + |q| % 2;
    CountPermutes(Exactly(x), s, q);
    if x == P25(q) {
      Squeezed(s, i, m, x);
      CountBlock(Exactly(x), s, i, m);
    } else if x == P75(q) {
      Squeezed(s, |q| / 2, j, x);
      CountBlock(Exactly(x), s, |q| / 2, j);
    }
  }

  /** The quartiles of a list on both sides of zero leave a quarter of it on either side. */
  lemma SidesOfZero(q: seq<int>)
    requires q != [] && P25(q) < 0 <= P75(q)
    ensures Count(Under(0), q) <= |q| - 1 - |q| / 4 && Count(AtLeast(0), q) <= |q| - 1 - |q| / 4
  {
    hide Ascending;
    var i := |q| / 4;
    RankCounts(q, i);
    RankCounts(q, |q| - 1 - i);
    CountImplies(Under(0), Under(P75(q)), q);
    CountImplies(AtLeast(0), Over(P25(q)), q);
  }

  /** Quotes the filter lets through yield a price exactly when there are enough of them, whatever their signs. */
  lemma SharpQuotesTrade(quotes: seq<PriceInfo>, minPub: int, slot: int, maxLatency: int)
    requires AllCount(quotes, slot, maxLatency) && AllQuotesSharp(quotes)
    ensures Aggregate(quotes, minPub).Price? <==> |quotes| >= Max(1, minPub)
  {
    hide P25, P50, P75, Votes, AllCount, AllQuotesSharp, Count, Exactly, Under, AtLeast;
    if |quotes| >= Max(1, minPub) {
      var v := Votes(quotes);
      WhenEnoughQuotesFail(quotes, minPub, slot, maxLatency);
      QuartilesAre64Bit(quotes, slot, maxLatency);
      if P75(v) - P25(v) > INT64_MAX && (P50(v) == P25(v) || P50(v) == P75(v)) {
        SidesOfZero(v);
        MedianAtQuartile(v);
        if P50(v) < 0 {
          NegativeVotes(quotes, slot, maxLatency, P50(v));
        } else {
          PositiveVotes(quotes, slot, maxLatency, P50(v));
        }
        assert false;
      }
    }
  }

  // ----- Outliers -----

  /** A quote all of whose votes lie in [lo, hi]. */
  predicate Honest(q: PriceInfo, lo: int, hi: int) {
    lo <= q.price - ToInt64(q.conf) && q.price + ToInt64(q.conf) <= hi
  }

  ghost function Outliers(quotes: seq<PriceInfo>, lo: int, hi: int): nat {
    if quotes == [] then 0
    else Outliers(quotes[..|quotes| - 1], lo, hi) + if Honest(quotes[|quotes| - 1], lo, hi) then 0 else 1
  }

  lemma {:induction false} OutlierVotes(quotes: seq<PriceInfo>, slot: int, maxLatency: int, lo: int, hi: int)
    requires AllCount(quotes, slot, maxLatency)
    ensures Count(Outside(lo, hi), Votes(quotes)) <= 3 * Outliers(quotes, lo, hi)
  {
    if quotes != [] {
      var front, q := quotes[..|quotes| - 1], quotes[|quotes| - 1];
      OutlierVotes(front, slot, maxLatency, lo, hi);
      CountConcat(Outside(lo, hi), Votes(front), VotesOf(q));
      assert Counts(q, slot, maxLatency);
      ThreeVotes(Outside(lo, hi), VotesOf(q));
    }
  }

  /** A minority of arbitrary publishers cannot push the price out of the range of the others. */
  lemma PriceResistsMinority(quotes: seq<PriceInfo>, minPub: int, slot: int, maxLatency: int, lo: int, hi: int)
    requires AllCount(quotes, slot, maxLatency) && 2 * Outliers(quotes, lo, hi) < |quotes|
    ensures Aggregate(quotes, minPub).Price? ==> lo <= Aggregate(quotes, minPub).price <= hi
  {
    OutlierVotes(quotes, slot, maxLatency, lo, hi);
    MedianResistsOutliers(Votes(quotes), lo, hi);
  }

  /** A quarter of them cannot push the confidence beyond the width of that range either. */
  lemma ConfidenceResistsQuarter(quotes: seq<PriceInfo>, minPub: int, slot: int, maxLatency: int, lo: int, hi: int)
    requires quotes != [] && AllCount(quotes, slot, maxLatency) && 4 * Outliers(quotes, lo, hi) <= |quotes|
    ensures lo <= P25(Votes(quotes)) && P75(Votes(quotes)) <= hi
    ensures hi - lo <= INT64_MAX ==> SpreadFits(quotes)
    ensures hi - lo <= INT64_MAX && |quotes| >= minPub ==>
              var r := Aggregate(quotes, minPub); r.Price? && lo <= r.price <= hi && 0 < r.conf <= hi - lo
  {
    OutlierVotes(quotes, slot, maxLatency, lo, hi);
    QuartilesResistOutliers(Votes(quotes), lo, hi);
    QuantilesOrdered(Votes(quotes));
    if hi - lo <= INT64_MAX {
      ConfidenceIsSpread(quotes, slot, maxLatency);
    }
  }
}
