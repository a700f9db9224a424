/** sort_price_comps: sort the keys, then bring each component home by following the chain of swaps. */
module SortComps {
  import opened Keys
  import opened PriceTypes
  import opened HeapSort

  ghost predicate SortedByKey(c: seq<PriceComponent>) {
    forall i, j :: 0 <= i < j < |c| ==> Rank(c[i].pub) <= Rank(c[j].pub)
  }

  // ----- The sorted keys are a permutation of positions -----

  ghost predicate Injective(p: seq<nat>) {
    forall i, j :: 0 <= i < j < |p| ==> p[i] != p[j]
  }

  ghost function Indices(k: seq<Entry>): (p: seq<nat>)
    ensures |p| == |k|
  {
    seq(|k|, i requires 0 <= i < |k| => k[i].index)
  }

  /** The keys of c, paired with their positions, in reverse. */
  function Enumerated(c: seq<PriceComponent>): (e: seq<Entry>)
    ensures |e| == |c|
  {
    seq(|c|, j requires 0 <= j < |c| => Entry(c[|c| - 1 - j].pub, |c| - 1 - j))
  }

  lemma {:induction false} OccursOnce<T>(s: seq<T>, x: T)
    requires forall i, j :: 0 <= i < j < |s| ==> s[i] != s[j]
    ensures multiset(s)[x] <= 1
  {
    if s != [] {
      var t := s[1..];
      assert s == [s[0]] + t;
      assert s[0] !in t;
      assert s[0] !in multiset(t);
      OccursOnce(t, x);
    }
  }

  lemma OccursTwice<T>(s: seq<T>, i: nat, j: nat)
    requires i < j < |s| && s[i] == s[j]
    ensures multiset(s)[s[i]] >= 2
  {
    assert s == s[..j] + s[j..];
    assert s[..j][i] == s[i] && s[j..][0] == s[i];
    assert s[i] in multiset(s[..j]) && s[i] in multiset(s[j..]);
  }

  lemma SortedKeysPermute(c: seq<PriceComponent>, k: seq<Entry>)
    requires multiset(k) == multiset(Enumerated(c))
    ensures |k| == |c| && Injective(Indices(k))
    ensures forall r :: 0 <= r < |k| ==> k[r].index < |c| && k[r].key == c[k[r].index].pub
  {
    var e := Enumerated(c);
    assert |multiset(k)| == |k| && |multiset(e)| == |e|;
    forall r | 0 <= r < |k| ensures k[r].index < |c| && k[r].key == c[k[r].index].pub {
      assert k[r] in multiset(e);
    }
    forall i, j | 0 <= i < j < |k| ensures k[i].index != k[j].index {
      if k[i].index == k[j].index {
        OccursTwice(k, i, j);
        OccursOnce(e, k[i]);
      }
    }
  }

  // ----- Following the chain -----

  /** From m, the recorded swaps lead, always forward, to position t. */
  ghost predicate ChainTo(k: seq<Entry>, i: nat, m: nat, t: nat)
    requires i <= |k|
    decreases i - m
  {
    if m >= i then m == t
    else k[m].index > m && ChainTo(k, i, k[m].index, t)
  }

  /** Recording swap (i, x) extends the chains that ended at i and leaves the others alone. */
  lemma {:induction false} ChainGrows(k: seq<Entry>, i: nat, m: nat, t: nat, x: nat)
    requires i < |k| && ChainTo(k, i, m, t)
    requires t == i ==> x > i
    ensures ChainTo(k[i := k[i].(index := x)], i + 1, m, if t == i then x else t)
    decreases i - m
  {
    if m < i {
      ChainGrows(k, i, k[m].index, t, x);
    }
  }

  /** c is a rearrangement of c0, and loc says where each component of c0 is. */
  ghost predicate Located(c: seq<PriceComponent>, c0: seq<PriceComponent>, loc: seq<nat>) {
    && |c| == |c0| == |loc| && Injective(loc)
    && (forall m :: 0 <= m < |loc| ==> loc[m] < |loc|)
    && (forall m :: 0 <= m < |loc| ==> c[loc[m]] == c0[m])
  }

  /** Swapping two places of c swaps where two components are. */
  lemma Relocate(c: seq<PriceComponent>, c0: seq<PriceComponent>, loc: seq<nat>, d: nat, e: nat)
    requires Located(c, c0, loc) && d < |loc| && e < |loc|
    ensures loc[d] < |c| && loc[e] < |c|
    ensures Located(Swapped(c, loc[d], loc[e]), c0, loc[d := loc[e]][e := loc[d]])
  {
  }

  /**
   Before step i: c holds a rearrangement of c0, loc says where each original component is now, the
   first i places are final, and the chain from each original position not yet placed leads to it.
   */
  ghost predicate Chasing(k: seq<Entry>, c: seq<PriceComponent>, c0: seq<PriceComponent>, p: seq<nat>, loc: seq<nat>,
                          i: nat)
  {
    && |k| == |c| == |c0| == |p| == |loc| && i <= |k|
    && Located(c, c0, loc) && Injective(p)
    && (forall r :: 0 <= r < |p| ==> p[r] < |p|)
    && (forall r :: 0 <= r < i ==> loc[p[r]] == r)
    && (forall r :: i <= r < |p| ==> loc[p[r]] >= i)
    && (forall r :: i <= r < |p| ==> k[r].index == p[r])
    && (forall r :: i <= r < |p| ==> ChainTo(k, i, p[r], loc[p[r]]))
    && (forall r :: 0 <= r < |p| ==> k[r].index < |k|)
  }

  lemma ChasingStart(k: seq<Entry>, c: seq<PriceComponent>) returns (loc: seq<nat>)
    requires |k| == |c| && Injective(Indices(k))
    requires forall r :: 0 <= r < |k| ==> k[r].index < |c|
    ensures Chasing(k, c, c, Indices(k), loc, 0)
  {
    hide Located;
    loc := AtHome(c);
  }

  lemma AtHome(c: seq<PriceComponent>) returns (loc: seq<nat>)
    ensures |loc| == |c| && Located(c, c, loc) && forall m :: 0 <= m < |c| ==> loc[m] == m
  {
    loc := seq(|c|, m requires 0 <= m < |c| => m);
  }

  /** An injective self-map of a finite range is onto. */
  lemma Preimage(f: seq<nat>, y: nat) returns (x: nat)
    requires Injective(f) && (forall m :: 0 <= m < |f| ==> f[m] < |f|) && y < |f|
    ensures x < |f| && f[x] == y
  {
    if y !in f {
      var image := set m | 0 <= m < |f| :: f[m];
      ImageSize(f, |f|);
      assert image <= Range(|f|) - {y};
      SubsetSize(image, Range(|f|) - {y});
      assert false;
    }
    x :| 0 <= x < |f| && f[x] == y;
  }

  lemma {:induction false} SubsetSize(a: set<nat>, b: set<nat>)
    requires a <= b
    ensures |a| <= |b|
  {
    if a != {} {
      var x :| x in a;
      SubsetSize(a - {x}, b - {x});
    }
  }

  ghost function Range(n: nat): (s: set<nat>)
    ensures |s| == n && forall m :: m in s <==> 0 <= m < n
  {
    if n == 0 then {} else Range(n - 1) + {n - 1}
  }

  lemma {:induction false} ImageSize(f: seq<nat>, n: nat)
    requires Injective(f) && n <= |f|
    ensures |set m | 0 <= m < n :: f[m]| == n
  {
    if n > 0 {
      ImageSize(f, n - 1);
      assert (set m | 0 <= m < n :: f[m]) == (set m | 0 <= m < n - 1 :: f[m]) + {f[n - 1]};
    }
  }

  lemma ChasingStep(k: seq<Entry>, c: seq<PriceComponent>, c0: seq<PriceComponent>, p: seq<nat>, loc: seq<nat>, i: nat)
    returns (loc': seq<nat>)
    requires Chasing(k, c, c0, p, loc, i) && i < |p|
    ensures var x := loc[p[i]];
            x < |k| && Chasing(k[i := k[i].(index := x)], Swapped(c, i, x), c0, p, loc', i + 1)
  {
    LocatedFacts(c, c0, loc);
    hide ChainTo, Located, Swapped;
    var x := loc[p[i]];
    var e := Preimage(loc, i);
    var k' := k[i := k[i].(index := x)];
    loc' := loc[e := x][p[i] := i];
    Relocate(c, c0, loc, e, p[i]);
    forall r | i + 1 <= r < |p|
      ensures loc'[p[r]] >= i + 1 && ChainTo(k', i + 1, p[r], loc'[p[r]])
    {
      assert p[r] != p[i] && loc[p[r]] != x;
      ChainGrows(k, i, p[r], loc[p[r]], x);
    }
  }

  lemma LocatedFacts(c: seq<PriceComponent>, c0: seq<PriceComponent>, loc: seq<nat>)
    requires Located(c, c0, loc)
    ensures |c| == |c0| == |loc| && Injective(loc) && forall m :: 0 <= m < |loc| ==> loc[m] < |loc|
  {
  }

  /** When every place is final, the components follow the sorted keys. */
  lemma ChasingDone(k: seq<Entry>, c: seq<PriceComponent>, c0: seq<PriceComponent>, p: seq<nat>, loc: seq<nat>,
                    k0: seq<Entry>)
    requires Chasing(k, c, c0, p, loc, |p|) && p == Indices(k0)
    requires SortedFrom(k0, 0) && forall r :: 0 <= r < |k0| ==> k0[r].key == c0[p[r]].pub
    ensures SortedByKey(c)
  {
    forall r | 0 <= r < |c| ensures c[r].pub == k0[r].key {
      assert loc[p[r]] == r;
    }
    forall i, j | 0 <= i < j < |c| ensures Rank(c[i].pub) <= Rank(c[j].pub) {
      assert R(k0[i]) <= R(k0[j]);
    }
  }

  lemma ChasingFacts(k: seq<Entry>, c: seq<PriceComponent>, c0: seq<PriceComponent>, p: seq<nat>, loc: seq<nat>, i: nat)
    requires Chasing(k, c, c0, p, loc, i) && i < |k|
    ensures |p| == |loc| == |k| == |c| && p[i] < |loc| && i <= loc[p[i]] < |k|
    ensures ChainTo(k, i, k[i].index, loc[p[i]])
    ensures forall r :: 0 <= r < |k| ==> k[r].index < |k|
  {
  }

  method EnumerateKeys(comps: array<PriceComponent>, n: nat) returns (keys: array<Entry>)
    requires n <= comps.Length
    ensures fresh(keys) && keys[..] == Enumerated(comps[..n])
  {
    keys := new Entry[n](j requires 0 <= j < n reads comps => Entry(comps[n - 1 - j].pub, n - 1 - j));
  }

  method SwapComps(comps: array<PriceComponent>, n: nat, i: nat, j: nat)
    requires i < n && j < n && n <= comps.Length
    modifies comps
    ensures comps[..n] == Swapped(old(comps[..n]), i, j) && comps[n..] == old(comps[n..])
  {
    comps[i], comps[j] := comps[j], comps[i];
  }

  /** The chain walk: from where the i-th key came from to where that component lives now. */
  method FollowChain(keys: array<Entry>, i: nat, ghost home: nat) returns (index: nat)
    requires i < keys.Length && ChainTo(keys[..], i, keys[i].index, home)
    requires forall r :: 0 <= r < keys.Length ==> keys[..][r].index < keys.Length
    ensures index == home
  {
    index := keys[i].index;
    while index < i
      invariant ChainTo(keys[..], i, index, home)
      decreases i - index
    {
      index := keys[index].index;
    }
  }

  ghost predicate Rearranged<T>(a: seq<T>, b: seq<T>) {
    |a| == |b| && multiset(a) == multiset(b)
  }

  lemma RearrangedSwap<T>(a: seq<T>, b: seq<T>, i: nat, j: nat)
    requires Rearranged(a, b) && i < |a| && j < |a|
    ensures Rearranged(Swapped(a, i, j), b)
  {
    SwapPermutes(a, i, j);
  }

  /** One round: find where the i-th component in key order lives now, and swap it into place. */
  method Place(keys: array<Entry>, comps: array<PriceComponent>, n: nat, i: nat,
               ghost c0: seq<PriceComponent>, ghost p: seq<nat>, ghost loc: seq<nat>)
    returns (ghost loc': seq<nat>)
    requires i < n <= comps.Length && n == keys.Length
    requires Chasing(keys[..], comps[..n], c0, p, loc, i) && Rearranged(comps[..n], c0)
    modifies keys, comps
    ensures Chasing(keys[..], comps[..n], c0, p, loc', i + 1) && Rearranged(comps[..n], c0)
    ensures comps[n..] == old(comps[n..])
  {
    hide Chasing;
    hide ChainTo;
    hide Rearranged;
    hide Swapped;
    ghost var k, c := keys[..], comps[..n];
    ChasingFacts(k, c, c0, p, loc, i);
    var index := FollowChain(keys, i, loc[p[i]]);
    loc' := ChasingStep(k, c, c0, p, loc, i);
    RearrangedSwap(c, c0, i, index);
    SetIndex(keys, i, index);
    SwapComps(comps, n, i, index);
  }

  method SetIndex(keys: array<Entry>, i: nat, index: nat)
    requires i < keys.Length
    modifies keys
    ensures keys[..] == old(keys[..])[i := old(keys[..])[i].(index := index)]
  {
    keys[i] := keys[i].(index := index);
  }

  /** The out-of-range count is the error return. */
  method SortPriceComps(comps: array<PriceComponent>, n: nat) returns (ok: bool)
    modifies comps
    ensures ok <==> n <= comps.Length
    ensures !ok ==> comps[..] == old(comps[..])
    ensures ok ==> SortedByKey(comps[..n]) && multiset(comps[..n]) == multiset(old(comps[..n]))
    ensures ok ==> comps[n..] == old(comps[n..])
  {
    if n > comps.Length {
      return false;
    }
    hide Chasing;
    hide SortedByKey;
    hide SortedFrom;
    hide Injective;
    ghost var c0 := comps[..n];
    var keys := EnumerateKeys(comps, n);
    HeapSort.Sort(keys);
    ghost var k0, p := keys[..], Indices(keys[..]);
    SortedKeysPermute(c0, k0);
    ghost var loc := ChasingStart(k0, c0);
    var i := 0;
    while i < n
      invariant 0 <= i <= n
      invariant Chasing(keys[..], comps[..n], c0, p, loc, i)
      invariant Rearranged(comps[..n], c0)
      invariant comps[n..] == old(comps[n..])
    {
      loc := Place(keys, comps, n, i, c0, p, loc);
      i := i + 1;
    }
    ChasingDone(keys[..], comps[..n], c0, p, loc, k0);
    return true;
  }
}
