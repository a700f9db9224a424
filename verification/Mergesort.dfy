/** The sort template, as it runs: in place over a key array and a scratch array. */
module Mergesort {
  import opened StableOrder

  /** The largest count the comparator network handles. */
  const NETWORK_MAX: nat := 7

  /** now is was, except possibly in [lo, hi). */
  ghost predicate SameAround<T>(now: seq<T>, was: seq<T>, lo: nat, hi: nat)
    requires lo <= hi <= |was|
  {
    |now| == |was| && now[..lo] == was[..lo] && now[hi..] == was[hi..]
  }

  lemma SameAroundTwice<T>(a: seq<T>, b: seq<T>, c: seq<T>, lo: nat, mid: nat, hi: nat)
    requires lo <= mid <= hi <= |a|
    requires SameAround(b, a, lo, mid) && SameAround(c, b, mid, hi)
    ensures SameAround(c, a, lo, hi)
    ensures b[mid..hi] == a[mid..hi] && c[lo..mid] == b[lo..mid]
  {
    assert c[..lo] == c[..mid][..lo] && b[..lo] == b[..mid][..lo];
    assert b[hi..] == b[mid..][hi - mid..] && a[hi..] == a[mid..][hi - mid..];
    assert b[mid..hi] == b[mid..][..hi - mid] && a[mid..hi] == a[mid..][..hi - mid];
    assert c[lo..mid] == c[..mid][lo..] && b[lo..mid] == b[..mid][lo..];
  }

  /** Neighbours that are strictly out of order, exchanged. */
  ghost function Exchanged<T>(before: (T, T) -> bool, s: seq<T>, i: nat): (r: seq<T>)
    requires i + 1 < |s|
    ensures |r| == |s|
  {
    if Before(before, s[i + 1], s[i]) then s[i := s[i + 1]][i + 1 := s[i]] else s
  }

  /** One comparator. */
  method CompareExchange<T>(before: (T, T) -> bool, x: array<T>, i: nat)
    requires i + 1 < x.Length
    modifies x
    ensures x[..] == Exchanged(before, old(x[..]), i)
  {
    var u, v := x[i], x[i + 1];
    var c := Before(before, v, u);
    x[i] := if c then v else u;
    x[i + 1] := if c then u else v;
  }

  lemma ExchangedTies<T(!new)>(before: (T, T) -> bool, s: seq<T>, i: nat)
    requires StrictWeakOrder(before) && i + 1 < |s|
    ensures SameTies(before, Exchanged(before, s, i), s)
  {
    if Before(before, s[i + 1], s[i]) {
      var a, u, v, b := s[..i], s[i], s[i + 1], s[i + 2..];
      assert s == a + [u, v] + b;
      assert Exchanged(before, s, i) == a + [v, u] + b;
      ExchangeKeepsTies(before, a, u, v, b);
    }
  }

  lemma ExchangedSlice<T>(before: (T, T) -> bool, s: seq<T>, i: nat, lo: nat, hi: nat)
    requires lo <= i && i + 1 < hi <= |s|
    ensures Exchanged(before, s, i)[lo..hi] == Exchanged(before, s[lo..hi], i - lo)
    ensures SameAround(Exchanged(before, s, i), s, lo, hi)
  {
  }

  lemma ExchangeKeepsTies<T(!new)>(before: (T, T) -> bool, a: seq<T>, u: T, v: T, b: seq<T>)
    requires StrictWeakOrder(before) && Before(before, v, u)
    ensures SameTies(before, a + [v, u] + b, a + [u, v] + b)
  {
    forall g ensures Ties(before, g, a + [v, u] + b) == Ties(before, g, a + [u, v] + b) {
      TiesConcat(before, g, a + [v, u], b);
      TiesConcat(before, g, a + [u, v], b);
      TiesConcat(before, g, a, [v, u]);
      TiesConcat(before, g, a, [u, v]);
      PairTies(before, g, u, v);
      PairTies(before, g, v, u);
    }
  }

  lemma PairTies<T>(before: (T, T) -> bool, g: T, u: T, v: T)
    ensures Ties(before, g, [u, v])
         == (if Tied(before, g, u) then [u] else []) + (if Tied(before, g, v) then [v] else [])
  {
    assert [u, v][1..] == [v];
    assert Ties(before, g, [v]) == if Tied(before, g, v) then [v] else [];
  }

  /** The elements from m on are in place, and the one at i goes before none of those before it. */
  ghost predicate Passing<T(!new)>(before: (T, T) -> bool, s: seq<T>, s0: seq<T>, m: nat, i: nat) {
    && |s| == |s0| && m <= |s| && (i < m || i == m == 0)
    && SameTies(before, s, s0)
    && (forall p, q :: 0 <= p < q < |s| && m <= q ==> !Before(before, s[q], s[p]))
    && (forall p :: 0 <= p < i ==> !Before(before, s[i], s[p]))
  }

  lemma PassingStep<T(!new)>(before: (T, T) -> bool, s: seq<T>, s0: seq<T>, m: nat, i: nat)
    requires StrictWeakOrder(before) && Passing(before, s, s0, m, i) && i + 1 < m
    ensures Passing(before, Exchanged(before, s, i), s0, m, i + 1)
  {
    ExchangedTies(before, s, i);
    hide SameTies;
    TiesThrough(before, Exchanged(before, s, i), s, s0);
  }

  lemma TiesThrough<T(!new)>(before: (T, T) -> bool, a: seq<T>, b: seq<T>, c: seq<T>)
    requires SameTies(before, a, b) && SameTies(before, b, c)
    ensures SameTies(before, a, c)
  {
  }

  lemma PassDone<T(!new)>(before: (T, T) -> bool, s: seq<T>, s0: seq<T>, m: nat)
    requires m >= 2 && Passing(before, s, s0, m, m - 1)
    ensures Passing(before, s, s0, m - 1, 0)
  {
    hide SameTies;
  }

  lemma NetworkDone<T(!new)>(before: (T, T) -> bool, s: seq<T>, s0: seq<T>, m: nat)
    requires m < 2 && Passing(before, s, s0, m, 0)
    ensures StableSortOf(before, s, s0)
  {
    hide SameTies;
  }

  /** The comparator network for n <= 7: each case runs one pass and falls through to the next smaller one. */
  method SortNetwork<T(!new)>(before: (T, T) -> bool, x: array<T>, lo: nat, n: nat)
    requires StrictWeakOrder(before)
    requires n <= NETWORK_MAX && lo + n <= x.Length
    modifies x
    ensures StableSortOf(before, x[..][lo..lo + n], old(x[..][lo..lo + n]))
    ensures SameAround(x[..], old(x[..]), lo, lo + n)
  {
    hide StrictWeakOrder, Exchanged, SameAround, StableSortOf;
    ghost var x0, s0 := x[..], x[..][lo..lo + n];
    var m := n;
    Unchanged(x0, lo, lo + n);
    assert Passing(before, s0, s0, m, 0);
    hide Passing;
    while m >= 2
      invariant 0 <= m <= n && Passing(before, x[..][lo..lo + n], s0, m, 0)
      invariant SameAround(x[..], x0, lo, lo + n)
    {
      var i := 0;
      while i < m - 1
        invariant 0 <= i <= m - 1 && Passing(before, x[..][lo..lo + n], s0, m, i)
        invariant SameAround(x[..], x0, lo, lo + n)
      {
        ghost var was := x[..];
        PassingStep(before, was[lo..lo + n], s0, m, i);
        ExchangedSlice(before, was, lo + i, lo, lo + n);
        CompareExchange(before, x, lo + i);
        SameAroundOnce(x0, was, x[..], lo, lo + n);
        i := i + 1;
      }
      PassDone(before, x[..][lo..lo + n], s0, m);
      m := m - 1;
    }
    NetworkDone(before, x[..][lo..lo + n], s0, m);
  }

  lemma Unchanged<T>(s: seq<T>, lo: nat, hi: nat)
    requires lo <= hi <= |s|
    ensures SameAround(s, s, lo, hi)
  {
  }

  /** s with the run d written over it from position lo on. */
  ghost function Overlay<T>(s: seq<T>, lo: nat, d: seq<T>): (o: seq<T>)
    requires lo + |d| <= |s|
    ensures |o| == |s|
  {
    s[..lo] + d + s[lo + |d|..]
  }

  lemma OverlayNothing<T>(s: seq<T>, lo: nat)
    requires lo <= |s|
    ensures Overlay(s, lo, []) == s
  {
  }

  lemma OverlayPush<T>(s: seq<T>, lo: nat, d: seq<T>, v: T)
    requires lo + |d| < |s|
    ensures Overlay(s, lo, d)[lo + |d| := v] == Overlay(s, lo, d + [v])
  {
  }

  lemma OverlayTwice<T>(s: seq<T>, lo: nat, d: seq<T>, e: seq<T>)
    requires lo + |d| + |e| <= |s|
    ensures Overlay(Overlay(s, lo, d), lo + |d|, e) == Overlay(s, lo, d + e)
  {
  }

  /**
   Sort x[lo..lo+n], with t[lo..lo+n] as scratch, and say in which of the two the result is.  The C
   function receives the two regions as pointers; both always start at the same offset.
   */
  method StableNode<T(!new)>(before: (T, T) -> bool, x: array<T>, t: array<T>, lo: nat, n: nat) returns (inX: bool)
    requires StrictWeakOrder(before)
    requires x != t && lo + n <= x.Length && lo + n <= t.Length
    modifies x, t
    ensures StableSortOf(before, (if inX then x else t)[..][lo..lo + n], old(x[..][lo..lo + n]))
    ensures SameAround(x[..], old(x[..]), lo, lo + n) && SameAround(t[..], old(t[..]), lo, lo + n)
    decreases n, 1
  {
    hide StableSortOf, StrictWeakOrder, SameAround;
    if n <= NETWORK_MAX {
      SortNetwork(before, x, lo, n);
      Unchanged(t[..], lo, lo + n);
      return true;
    }
    var nl, nr := n / 2, n - n / 2;
    ghost var l0, r0 := x[..][lo..lo + nl], x[..][lo + nl..lo + n];
    assert x[..][lo..lo + n] == l0 + r0;
    var leftInX, rightInX := SortHalves(before, x, t, lo, nl, nr);
    label Sorted:
    if leftInX {
      MergeHalves(before, x, if rightInX then x else t, t, lo, nl, nr, l0, r0);
      SameAroundOnce(old(t[..]), old@Sorted(t[..]), t[..], lo, lo + n);
    } else {
      MergeHalves(before, t, if rightInX then x else t, x, lo, nl, nr, l0, r0);
      SameAroundOnce(old(x[..]), old@Sorted(x[..]), x[..], lo, lo + n);
    }
    return !leftInX;
  }

  /** The two recursive calls; sorting the right half leaves the sorted left half alone. */
  method SortHalves<T(!new)>(before: (T, T) -> bool, x: array<T>, t: array<T>, lo: nat, nl: nat, nr: nat)
    returns (leftInX: bool, rightInX: bool)
    requires StrictWeakOrder(before)
    requires x != t && lo + nl + nr <= x.Length && lo + nl + nr <= t.Length
    requires 0 < nl && 0 < nr
    modifies x, t
    ensures StableSortOf(before, (if leftInX then x else t)[..][lo..lo + nl], old(x[..][lo..lo + nl]))
    ensures StableSortOf(before, (if rightInX then x else t)[..][lo + nl..lo + nl + nr], old(x[..][lo + nl..lo + nl + nr]))
    ensures SameAround(x[..], old(x[..]), lo, lo + nl + nr) && SameAround(t[..], old(t[..]), lo, lo + nl + nr)
    decreases nl + nr, 0
  {
    hide StableSortOf, StrictWeakOrder, SameAround;
    ghost var x0, t0 := x[..], t[..];
    leftInX := StableNode(before, x, t, lo, nl);
    ghost var x1, t1 := x[..], t[..];
    rightInX := StableNode(before, x, t, lo + nl, nr);
    SameAroundTwice(x0, x1, x[..], lo, lo + nl, lo + nl + nr);
    SameAroundTwice(t0, t1, t[..], lo, lo + nl, lo + nl + nr);
  }

  lemma SameAroundOnce<T>(a: seq<T>, b: seq<T>, c: seq<T>, lo: nat, hi: nat)
    requires lo <= hi <= |a| && SameAround(b, a, lo, hi) && SameAround(c, b, lo, hi)
    ensures SameAround(c, a, lo, hi)
  {
  }

  /** The merge, seen on the sorted halves. */
  method MergeHalves<T(!new)>(before: (T, T) -> bool, yl: array<T>, yr: array<T>, out: array<T>,
                              lo: nat, nl: nat, nr: nat, ghost l0: seq<T>, ghost r0: seq<T>)
    requires StrictWeakOrder(before)
    requires 0 < nl && 0 < nr && yl != out
    requires lo + nl <= yl.Length && lo + nl + nr <= yr.Length && lo + nl + nr <= out.Length
    requires StableSortOf(before, yl[..][lo..lo + nl], l0)
    requires StableSortOf(before, yr[..][lo + nl..lo + nl + nr], r0)
    modifies out
    ensures StableSortOf(before, out[..][lo..lo + nl + nr], l0 + r0)
    ensures SameAround(out[..], old(out[..]), lo, lo + nl + nr)
  {
    hide Merged;
    ghost var l, r, was := yl[lo..lo + nl], yr[lo + nl..lo + nl + nr], out[..];
    assert l == yl[..][lo..lo + nl] && r == yr[..][lo + nl..lo + nl + nr];
    MergeInto(before, yl, yr, out, lo, nl, nr);
    MergedIsStable(before, l, r, l0, r0);
    assert out[lo..lo + nl + nr] == out[..][lo..lo + nl + nr] == Merged(before, l, r);
  }

  /** One step of the merge: which run supplies the head, and what is left to merge. */
  lemma MergedStep<T>(before: (T, T) -> bool, l: seq<T>, r: seq<T>, j: nat, k: nat, done: seq<T>)
    requires j < |l| && k < |r|
    ensures |Merged(before, l[j..], r[k..])| == |l| - j + |r| - k
    ensures Before(before, r[k], l[j])
        ==> done + Merged(before, l[j..], r[k..]) == (done + [r[k]]) + Merged(before, l[j..], r[k + 1..])
    ensures !Before(before, r[k], l[j])
        ==> done + Merged(before, l[j..], r[k..]) == (done + [l[j]]) + Merged(before, l[j + 1..], r[k..])
  {
    assert l[j..][1..] == l[j + 1..] && r[k..][1..] == r[k + 1..];
  }

  lemma MergedEnds<T>(before: (T, T) -> bool, l: seq<T>, r: seq<T>)
    ensures r == [] ==> Merged(before, l, r) == l
    ensures l == [] ==> Merged(before, l, r) == r
  {
  }

  /** A write at or before a place leaves what comes after it. */
  lemma NotYetCopied<T>(was: seq<T>, now: seq<T>, w: nat, c: nat, end: nat)
    requires |was| == |now| && c < end <= |was|
    requires now == was || (w <= c && now == was[w := now[w]])
    ensures now[c + 1..end] == was[c..end][1..]
  {
  }

  /** The stragglers: copy one by one, to a lower or equal position when source and output are the same array. */
  method CopyRun<T>(src: array<T>, from: nat, out: array<T>, to: nat, ghost run: seq<T>, cnt: nat)
    requires from + cnt <= src.Length && to + cnt <= out.Length
    requires src == out ==> to <= from
    requires src[from..from + cnt] == run
    modifies out
    ensures out[..] == Overlay(old(out[..]), to, run)
  {
    var c := 0;
    while c < cnt
      invariant 0 <= c <= cnt
      invariant src[from + c..from + cnt] == run[c..]
      invariant out[..] == Overlay(old(out[..]), to, run[..c])
    {
      assert src[from + c] == run[c..][0];
      ghost var was := src[..];
      out[to + c] := src[from + c];
      assert src == out ==> src[..] == was[to + c := src[to + c]];
      NotYetCopied(was, src[..], to + c, from + c, from + cnt);
      OverlayPush(old(out[..]), to, run[..c], run[c]);
      assert run[..c] + [run[c]] == run[..c + 1];
      c := c + 1;
    }
    assert run[..cnt] == run;
  }

  /** What is left of the right run has not been overwritten, even when it lies inside the output. */
  lemma RightUnread<T>(yr: seq<T>, yr0: seq<T>, out: seq<T>, out0: seq<T>, same: bool, lo: nat, done: seq<T>, r: seq<T>,
                       right: nat, k: nat, nr: nat)
    requires (same && yr == out && yr0 == out0) || yr == yr0
    requires lo + |done| <= right + k && k <= nr && right + nr <= |yr0| && lo + |done| <= |out0|
    requires right + nr <= |out0| && out == Overlay(out0, lo, done) && r == yr0[right..right + nr]
    ensures right + nr <= |yr| && yr[right + k..right + nr] == r[k..]
    ensures k < nr ==> yr[right + k] == r[k]
  {
    OverlayBeyond(out0, lo, done, right + k, right + nr);
    assert r[k..] == yr0[right + k..right + nr];
    if k < nr {
      assert yr[right + k..right + nr][0] == r[k..][0];
    }
  }

  /**
   The merge loop, up to the end of either run.  The left run is in another array than the output; the
   right run may be in the output itself, at the far end of the region being written: output position
   j + k never passes the next unread right element, nl + k.
   */
  method MergeHeads<T(!new)>(before: (T, T) -> bool, yl: array<T>, yr: array<T>, out: array<T>, lo: nat, nl: nat,
                             nr: nat)
    returns (j: nat, k: nat, ghost done: seq<T>)
    requires 0 < nl && 0 < nr
    requires yl != out
    requires lo + nl <= yl.Length && lo + nl + nr <= yr.Length && lo + nl + nr <= out.Length
    modifies out
    ensures j <= nl && k <= nr && (j == nl || k == nr) && |done| == j + k < nl + nr
    ensures out[..] == Overlay(old(out[..]), lo, done)
    ensures var l, r := old(yl[lo..lo + nl]), old(yr[lo + nl..lo + nl + nr]);
            && yl[lo..lo + nl] == l && yr[lo + nl + k..lo + nl + nr] == r[k..]
            && done + Merged(before, l[j..], r[k..]) == Merged(before, l, r)
  {
    hide Overlay, Merged;
    ghost var l, r, out0, yr0 := yl[lo..lo + nl], yr[lo + nl..lo + nl + nr], out[..], yr[..];
    var right := lo + nl;
    var i := lo;
    j, k, done := 0, 0, [];
    assert l[0..] == l && r[0..] == r == yr0[right..right + nr];
    OverlayNothing(out0, lo);
    while j < nl && k < nr
      invariant 0 <= j <= nl && 0 <= k <= nr && j + k < nl + nr && i == lo + j + k && |done| == j + k
      invariant out[..] == Overlay(out0, lo, done)
      invariant yl[lo..lo + nl] == l
      invariant yr != out ==> yr[..] == yr0
      invariant done + Merged(before, l[j..], r[k..]) == Merged(before, l, r)
    {
      MergedStep(before, l, r, j, k, done);
      RightUnread(yr[..], yr0, out[..], out0, yr == out, lo, done, r, right, k, nr);
      if Before(before, yr[right + k], yl[lo + j]) {
        OverlayPush(out0, lo, done, r[k]);
        out[i] := yr[right + k];
        done := done + [r[k]];
        i, k := i + 1, k + 1;
      } else {
        OverlayPush(out0, lo, done, l[j]);
        out[i] := yl[lo + j];
        done := done + [l[j]];
        i, j := i + 1, j + 1;
      }
    }
    RightUnread(yr[..], yr0, out[..], out0, yr == out, lo, done, r, right, k, nr);
    assert yr[right + k..right + nr] == yr[..][right + k..right + nr];
  }

  method MergeInto<T(!new)>(before: (T, T) -> bool, yl: array<T>, yr: array<T>, out: array<T>, lo: nat, nl: nat,
                            nr: nat)
    requires 0 < nl && 0 < nr
    requires yl != out
    requires lo + nl <= yl.Length && lo + nl + nr <= yr.Length && lo + nl + nr <= out.Length
    modifies out
    ensures out[..] == Overlay(old(out[..]), lo, Merged(before, old(yl[lo..lo + nl]), old(yr[lo + nl..lo + nl + nr])))
  {
    hide Overlay, Merged;
    ghost var l, r, out0 := yl[lo..lo + nl], yr[lo + nl..lo + nl + nr], out[..];
    var j, k;
    ghost var done;
    j, k, done := MergeHeads(before, yl, yr, out, lo, nl, nr);
    MergedEnds(before, l[j..], r[k..]);
    if k == nr {  // append left stragglers (at least one)
      OverlayTwice(out0, lo, done, l[j..]);
      CopyRun(yl, lo + j, out, lo + j + k, l[j..], nl - j);
    } else {  // append right stragglers (at least one)
      OverlayTwice(out0, lo, done, r[k..]);
      CopyRun(yr, lo + nl + k, out, lo + j + k, r[k..], nr - k);
    }
  }

  /** A read at or beyond the end of what has been written still sees the original content. */
  lemma OverlayBeyond<T>(s: seq<T>, lo: nat, d: seq<T>, from: nat, to: nat)
    requires lo + |d| <= from <= to <= |s|
    ensures Overlay(s, lo, d)[from..to] == s[from..to]
  {
  }

  /** The entry point: sort all of `key`, leaving the result in it or in `scratch`. */
  method Stable<T(!new)>(before: (T, T) -> bool, key: array<T>, cnt: nat, scratch: array<T>) returns (inKey: bool)
    requires StrictWeakOrder(before)
    requires key != scratch && cnt <= key.Length && cnt <= scratch.Length
    modifies key, scratch
    ensures StableSortOf(before, (if inKey then key else scratch)[..cnt], old(key[..cnt]))
    ensures multiset((if inKey then key else scratch)[..cnt]) == multiset(old(key[..cnt]))
    ensures key[cnt..] == old(key[cnt..]) && scratch[cnt..] == old(scratch[cnt..])
  {
    inKey := StableNode(before, key, scratch, 0, cnt);
    assert key[..][0..cnt] == key[..cnt] && scratch[..][0..cnt] == scratch[..cnt];
    assert old(key[..][0..cnt]) == old(key[..cnt]);
    assert key[..][cnt..] == key[cnt..] && scratch[..][cnt..] == scratch[cnt..];
    assert old(key[..][cnt..]) == old(key[cnt..]) && old(scratch[..][cnt..]) == old(scratch[cnt..]);
    StableSortPermutes(before, (if inKey then key else scratch)[..cnt], old(key[..cnt]));
  }
}
