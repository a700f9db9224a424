/** Order statistics of a list of quotes, stated apart from any sorting algorithm. */
module Quantiles {
  import opened Multiplication

  ghost predicate IsAscending(s: seq<int>) {
    forall i, j :: 0 <= i < j < |s| ==> s[i] <= s[j]
  }

  ghost function Inserted(x: int, s: seq<int>): seq<int> {
    if s == [] || x <= s[0] then [x] + s else [s[0]] + Inserted(x, s[1..])
  }

  /** The quotes in ascending order. */
  ghost function Ascending(q: seq<int>): seq<int> {
    if q == [] then [] else Inserted(q[0], Ascending(q[1..]))
  }

  lemma HeadAndTail(s: seq<int>)
    requires s != []
    ensures multiset(s) == multiset{s[0]} + multiset(s[1..])
  {
    assert s == [s[0]] + s[1..];
  }

  lemma {:induction false} InsertedPermutes(x: int, s: seq<int>)
    ensures multiset(Inserted(x, s)) == multiset{x} + multiset(s)
  {
    if s != [] && x > s[0] {
      InsertedPermutes(x, s[1..]);
      HeadAndTail(s);
    }
  }

  lemma {:induction false} InsertedAscends(x: int, s: seq<int>)
    requires IsAscending(s)
    ensures IsAscending(Inserted(x, s))
    ensures Inserted(x, s) != [] && Inserted(x, s)[0] == if s == [] || x <= s[0] then x else s[0]
  {
    if s != [] && x > s[0] {
      InsertedAscends(x, s[1..]);
      var t := Inserted(x, s[1..]);
      assert forall i :: 0 <= i < |t| ==> s[0] <= t[0] <= t[i];
    }
  }

  lemma {:induction false} AscendingSorts(q: seq<int>)
    ensures IsAscending(Ascending(q)) && multiset(Ascending(q)) == multiset(q) && |Ascending(q)| == |q|
  {
    if q != [] {
      AscendingSorts(q[1..]);
      InsertedAscends(q[0], Ascending(q[1..]));
      InsertedPermutes(q[0], Ascending(q[1..]));
      HeadAndTail(q);
      assert |multiset(Ascending(q))| == |multiset(q)|;
    }
  }

  lemma SameHead(a: seq<int>, b: seq<int>)
    requires IsAscending(a) && IsAscending(b) && multiset(a) == multiset(b) && a != [] && b != []
    ensures a[0] == b[0] && multiset(a[1..]) == multiset(b[1..])
  {
    assert a[0] in multiset(b) && b[0] in multiset(a);
    HeadAndTail(a);
    HeadAndTail(b);
    assert multiset(a[1..]) == multiset(a) - multiset{a[0]};
    assert multiset(b[1..]) == multiset(b) - multiset{b[0]};
  }

  /** There is only one ascending arrangement. */
  lemma {:induction false} AscendingUnique(a: seq<int>, b: seq<int>)
    requires IsAscending(a) && IsAscending(b) && multiset(a) == multiset(b)
    ensures a == b
  {
    SameLength(a, b);
    if a != [] {
      SameHead(a, b);
      AscendingUnique(a[1..], b[1..]);
      assert a == [a[0]] + a[1..] && b == [b[0]] + b[1..];
    }
  }

  lemma SameLength(a: seq<int>, b: seq<int>)
    requires multiset(a) == multiset(b)
    ensures |a| == |b|
  {
    assert |multiset(a)| == |a| && |multiset(b)| == |b|;
  }

  // ----- Counting -----

  ghost function Count(p: int -> bool, s: seq<int>): nat {
    if s == [] then 0 else (if p(s[0]) then 1 else 0) + Count(p, s[1..])
  }

  ghost function Under(v: int): int -> bool { x => x < v }

  ghost function AtMost(v: int): int -> bool { x => x <= v }

  ghost function Over(v: int): int -> bool { x => x > v }

  ghost function AtLeast(v: int): int -> bool { x => x >= v }

  ghost function Exactly(v: int): int -> bool { x => x == v }

  ghost function Outside(lo: int, hi: int): int -> bool { x => x < lo || x > hi }

  lemma {:induction false} CountConcat(p: int -> bool, a: seq<int>, b: seq<int>)
    ensures Count(p, a + b) == Count(p, a) + Count(p, b)
  {
    if a == [] {
      assert a + b == b;
    } else {
      CountConcat(p, a[1..], b);
      assert (a + b)[1..] == a[1..] + b;
    }
  }

  /** Counting ignores order. */
  lemma {:induction false} CountPermutes(p: int -> bool, a: seq<int>, b: seq<int>)
    requires multiset(a) == multiset(b)
    ensures Count(p, a) == Count(p, b)
  {
    SameLength(a, b);
    if a != [] {
      var rest := Without(p, a, b);
      CountPermutes(p, a[1..], rest);
    }
  }

  /** b, with one occurrence of the head of a taken out. */
  lemma Without(p: int -> bool, a: seq<int>, b: seq<int>) returns (rest: seq<int>)
    requires multiset(a) == multiset(b) && a != []
    ensures multiset(rest) == multiset(a[1..])
    ensures Count(p, b) == Count(p, rest) + if p(a[0]) then 1 else 0
  {
    assert a[0] in multiset(b);
    var i :| 0 <= i < |b| && b[i] == a[0];
    var front, back := b[..i], b[i + 1..];
    rest := front + back;
    assert b == front + ([b[i]] + back);
    CountConcat(p, front, back);
    CountConcat(p, front, [b[i]] + back);
    HeadAndTail(a);
    assert multiset(b) == multiset(rest) + multiset{a[0]};
    assert multiset(rest) == multiset(b) - multiset{a[0]};
    assert multiset(a[1..]) == multiset(a) - multiset{a[0]};
  }

  lemma {:induction false} CountAll(p: int -> bool, s: seq<int>)
    requires forall k :: 0 <= k < |s| ==> p(s[k])
    ensures Count(p, s) == |s|
  {
    if s != [] {
      assert p(s[0]);
      CountAll(p, s[1..]);
    }
  }

  lemma {:induction false} CountImplies(p: int -> bool, r: int -> bool, s: seq<int>)
    requires forall x :: p(x) ==> r(x)
    ensures Count(p, s) <= Count(r, s)
  {
    if s != [] {
      CountImplies(p, r, s[1..]);
    }
  }

  lemma {:induction false} CountComplement(p: int -> bool, r: int -> bool, s: seq<int>)
    requires forall x :: p(x) <==> !r(x)
    ensures Count(p, s) + Count(r, s) == |s|
  {
    if s != [] {
      CountComplement(p, r, s[1..]);
    }
  }

  /** A block of positions whose elements all satisfy p is a lower bound on the count. */
  lemma CountBlock(p: int -> bool, s: seq<int>, i: nat, j: nat)
    requires i <= j <= |s| && forall k :: i <= k < j ==> p(s[k])
    ensures Count(p, s) >= j - i
  {
    assert s == s[..i] + (s[i..j] + s[j..]);
    CountConcat(p, s[..i], s[i..j] + s[j..]);
    CountConcat(p, s[i..j], s[j..]);
    CountAll(p, s[i..j]);
  }

  // ----- The three model outputs -----

  ghost function P25(q: seq<int>): int
    requires q != []
  {
    AscendingSorts(q);
    Ascending(q)[|q| / 4]
  }

  ghost function P50(q: seq<int>): int
    requires q != []
  {
    AscendingSorts(q);
    if |q| % 2 == 1 then Ascending(q)[|q| / 2]
    else (Ascending(q)[|q| / 2 - 1] + Ascending(q)[|q| / 2]) / 2
  }

  ghost function P75(q: seq<int>): int
    requires q != []
  {
    AscendingSorts(q);
    Ascending(q)[|q| - 1 - |q| / 4]
  }

  lemma QuantilesOrdered(q: seq<int>)
    requires q != []
    ensures P25(q) <= P50(q) <= P75(q)
  {
    AscendingSorts(q);
    var s := Ascending(q);
    if |q| % 2 == 0 {
      assert s[|q| / 4] <= s[|q| / 2 - 1] <= s[|q| / 2] <= s[|q| - 1 - |q| / 4];
    } else {
      assert s[|q| / 4] <= s[|q| / 2] <= s[|q| - 1 - |q| / 4];
    }
  }

  /** What the sorted positions say about the whole list, in any order. */
  lemma RankCounts(q: seq<int>, i: nat)
    requires i < |q|
    ensures |Ascending(q)| == |q|
    ensures var v := Ascending(q)[i];
            && Count(AtMost(v), q) >= i + 1 && Count(AtLeast(v), q) >= |q| - i
            && Count(Under(v), q) <= i && Count(Over(v), q) <= |q| - 1 - i
  {
    AscendingSorts(q);
    var s, v := Ascending(q), Ascending(q)[i];
    RankBlocks(s, i);
    CountComplement(Under(v), AtLeast(v), s);
    CountComplement(Over(v), AtMost(v), s);
    CountPermutes(AtMost(v), s, q);
    CountPermutes(AtLeast(v), s, q);
    CountPermutes(Under(v), s, q);
    CountPermutes(Over(v), s, q);
  }

  /** Conversely, the counts fix what stands at a sorted position. */
  lemma RankFromCounts(q: seq<int>, i: nat, x: int)
    requires i < |q| && Count(Under(x), q) <= i < Count(AtMost(x), q)
    ensures |Ascending(q)| == |q| && Ascending(q)[i] == x
  {
    RankCounts(q, i);
    var v := Ascending(q)[i];
    if v < x {
      CountImplies(AtMost(v), Under(x), q);
    } else if v > x {
      CountImplies(AtMost(x), Under(v), q);
    }
  }

  /** The value x stands at sorted position i, told from the counts in any order. */
  ghost predicate Ranked(x: int, i: nat, q: seq<int>) {
    Count(Under(x), q) <= i < Count(AtMost(x), q)
  }

  /** The three outputs, from counts alone: two quartile quotes, and the average of the two middle quotes rounded down. */
  lemma OutputsFromCounts(q: seq<int>, lo: int, l: int, r: int, hi: int)
    requires q != [] && Ranked(lo, |q| / 4, q) && Ranked(hi, |q| - 1 - |q| / 4, q)
    requires Ranked(l, (|q| - 1) / 2, q) && Ranked(r, |q| / 2, q)
    ensures P25(q) == lo && P50(q) == (l + r) / 2 && P75(q) == hi
  {
    hide Ascending, Count;
    RankFromCounts(q, |q| / 4, lo);
    RankFromCounts(q, (|q| - 1) / 2, l);
    RankFromCounts(q, |q| / 2, r);
    RankFromCounts(q, |q| - 1 - |q| / 4, hi);
  }

  /** Every position has its value. */
  lemma SomeRanked(q: seq<int>, i: nat) returns (x: int)
    requires i < |q|
    ensures Ranked(x, i, q)
  {
    RankCounts(q, i);
    x := Ascending(q)[i];
  }

  lemma RankBlocks(s: seq<int>, i: nat)
    requires IsAscending(s) && i < |s|
    ensures Count(AtMost(s[i]), s) >= i + 1 && Count(AtLeast(s[i]), s) >= |s| - i
  {
    assert forall k :: 0 <= k < i + 1 ==> AtMost(s[i])(s[k]);
    CountBlock(AtMost(s[i]), s, 0, i + 1);
    assert forall k :: i <= k < |s| ==> AtLeast(s[i])(s[k]);
    CountBlock(AtLeast(s[i]), s, i, |s|);
  }

  /** If fewer than half the quotes lie outside [lo, hi], the p50 lies inside. */
  lemma MedianResistsOutliers(q: seq<int>, lo: int, hi: int)
    requires q != [] && 2 * Count(Outside(lo, hi), q) < |q|
    ensures lo <= P50(q) <= hi
  {
    RankInside(q, lo, hi, |q| / 2);
    if |q| % 2 == 0 {
      RankInside(q, lo, hi, |q| / 2 - 1);
    }
  }

  /** If at most a quarter of the quotes lie outside [lo, hi], the p25 and p75 lie inside too. */
  lemma QuartilesResistOutliers(q: seq<int>, lo: int, hi: int)
    requires q != [] && 4 * Count(Outside(lo, hi), q) <= |q|
    ensures lo <= P25(q) && P75(q) <= hi
  {
    RankInside(q, lo, hi, |q| / 4);
    RankInside(q, lo, hi, |q| - 1 - |q| / 4);
  }

  lemma RankInside(q: seq<int>, lo: int, hi: int, i: nat)
    requires i < |q|
    ensures |Ascending(q)| == |q|
    ensures Count(Outside(lo, hi), q) <= i ==> lo <= Ascending(q)[i]
    ensures Count(Outside(lo, hi), q) < |q| - i ==> Ascending(q)[i] <= hi
  {
    RankCounts(q, i);
    var v := Ascending(q)[i];
    if v < lo {
      CountImplies(AtMost(v), Outside(lo, hi), q);
    }
    if v > hi {
      CountImplies(AtLeast(v), Outside(lo, hi), q);
    }
  }

  lemma Squeezed(s: seq<int>, i: nat, j: nat, v: int)
    requires IsAscending(s) && i < j <= |s| && s[i] == v == s[j - 1]
    ensures forall k :: i <= k < j ==> Exactly(v)(s[k])
  {
    assert forall k :: i <= k < j ==> s[i] <= s[k] <= s[j - 1];
  }

  /** If no value makes up as much as half the quotes, the p25 and p75 differ. */
  lemma QuartilesDiffer(q: seq<int>)
    requires q != [] && forall v :: 2 * Count(Exactly(v), q) < |q|
    ensures P25(q) < P75(q)
  {
    hide Ascending, IsAscending, Exactly, Count;
    AscendingSorts(q);
    QuantilesOrdered(q);
    var s, v := Ascending(q), P25(q);
    if v == P75(q) {
      var i, j := |q| / 4, |q| - |q| / 4;
      Squeezed(s, i, j, v);
      CountBlock(Exactly(v), s, i, j);
      CountPermutes(Exactly(v), s, q);
    }
  }

  // ----- The loss the model minimises -----

  /** What a quote costs against an output x: `above` per unit when it lies above, `below` when below. */
  ghost function Cost(above: nat, below: nat, quote: int, x: int): int {
    if quote > x then above * (quote - x) else below * (x - quote)
  }

  ghost function Loss(above: nat, below: nat, q: seq<int>, x: int): int {
    if q == [] then 0 else Cost(above, below, q[0], x) + Loss(above, below, q[1..], x)
  }

  lemma CostSlope(above: nat, below: nat, quote: int, m: int, x: int)
    ensures var gain := Cost(above, below, quote, x) - Cost(above, below, quote, m);
            && (x >= m ==> gain >= if quote <= m then below * (x - m) else -(above * (x - m)))
            && (x <= m ==> gain >= if quote >= m then above * (m - x) else -(below * (m - x)))
  {
    Distribute(above, quote, x, m);
    Distribute(below, quote, x, m);
    if m < quote <= x {
      MulMonotone(quote - m, x - m, above);
      MulMonotone(0, x - quote, below);
    }
    if x < quote <= m {
      MulMonotone(m - quote, m - x, below);
      MulMonotone(0, quote - x, above);
    }
  }

  lemma Distribute(w: nat, quote: int, x: int, m: int)
    ensures w * (quote - x) - w * (quote - m) == w * (m - x)
    ensures w * (x - quote) - w * (m - quote) == w * (x - m) == -(w * (m - x))
  {
  }

  /** The loss grows at least as fast as the balance of the quotes on either side of m. */
  lemma {:induction false} LossSlope(above: nat, below: nat, q: seq<int>, m: int, x: int)
    ensures var gain := Loss(above, below, q, x) - Loss(above, below, q, m);
            && (x >= m ==> gain >= (below * Count(AtMost(m), q) - above * Count(Over(m), q)) * (x - m))
            && (x <= m ==> gain >= (above * Count(AtLeast(m), q) - below * Count(Under(m), q)) * (m - x))
  {
    if q != [] {
      LossSlope(above, below, q[1..], m, x);
      CostSlope(above, below, q[0], m, x);
      var t := q[1..];
      var a, o := Count(AtMost(m), t), Count(Over(m), t);
      var l, u := Count(AtLeast(m), t), Count(Under(m), t);
      Step(above, below, a, o, x - m);
      Step(below, above, l, u, m - x);
    }
  }

  lemma Step(above: nat, below: nat, a: nat, o: nat, d: int)
    ensures (below * (a + 1) - above * o) * d == (below * a - above * o) * d + below * d
    ensures (below * a - above * (o + 1)) * d == (below * a - above * o) * d - above * d
  {
    assert below * (a + 1) == below * a + below;
    assert above * (o + 1) == above * o + above;
  }

  lemma BalancedMinimises(above: nat, below: nat, q: seq<int>, m: int, x: int)
    requires below * Count(AtMost(m), q) >= above * Count(Over(m), q)
    requires above * Count(AtLeast(m), q) >= below * Count(Under(m), q)
    ensures Loss(above, below, q, m) <= Loss(above, below, q, x)
  {
    LossSlope(above, below, q, m, x);
    if x >= m {
      NonNegativeProduct(below * Count(AtMost(m), q) - above * Count(Over(m), q), x - m);
    } else {
      NonNegativeProduct(above * Count(AtLeast(m), q) - below * Count(Under(m), q), m - x);
    }
  }

  lemma NonNegativeProduct(a: int, b: int)
    requires a >= 0 && b >= 0
    ensures a * b >= 0
  {
  }

  /** Against every integer, the p25 loses least when quotes below it weigh 3 and quotes above it weigh 1. */
  lemma P25MinimisesLoss(q: seq<int>, x: int)
    requires q != []
    ensures Loss(1, 3, q, P25(q)) <= Loss(1, 3, q, x)
  {
    RankCounts(q, |q| / 4);
    BalancedMinimises(1, 3, q, P25(q), x);
  }

  /** The p75 is the mirror image. */
  lemma P75MinimisesLoss(q: seq<int>, x: int)
    requires q != []
    ensures Loss(3, 1, q, P75(q)) <= Loss(3, 1, q, x)
  {
    RankCounts(q, |q| - 1 - |q| / 4);
    BalancedMinimises(3, 1, q, P75(q), x);
  }

  /** The p50 minimises the total distance, whether it is a quote or the floor average of two. */
  lemma P50MinimisesLoss(q: seq<int>, x: int)
    requires q != []
    ensures Loss(1, 1, q, P50(q)) <= Loss(1, 1, q, x)
  {
    var m := P50(q);
    RankCounts(q, |q| / 2);
    if |q| % 2 == 0 {
      RankCounts(q, |q| / 2 - 1);
      AscendingSorts(q);
      var vl, vr := Ascending(q)[|q| / 2 - 1], Ascending(q)[|q| / 2];
      assert vl <= m <= vr;
      CountImplies(AtMost(vl), AtMost(m), q);
      CountImplies(Over(m), Over(vl), q);
      CountImplies(AtLeast(vr), AtLeast(m), q);
      CountImplies(Under(m), Under(vr), q);
    }
    BalancedMinimises(1, 1, q, m, x);
  }
}
