/**
 Stable sorting over an arbitrary strict weak order `before`, and the ping-pong mergesort of the
 sort template, whose merge output may overlap the right half it is still reading.
 */
module StableOrder {

  /** SORT_BEFORE: a goes strictly before b. */
  predicate Before<T>(before: (T, T) -> bool, a: T, b: T) {
    before(a, b)
  }

  ghost predicate StrictWeakOrder<T(!new)>(before: (T, T) -> bool) {
    && (forall a, b :: Before(before, a, b) ==> !Before(before, b, a))
    && (forall a, b, c :: Before(before, a, c) ==> Before(before, a, b) || Before(before, b, c))
  }

  ghost predicate Sorted<T>(before: (T, T) -> bool, s: seq<T>) {
    forall i, j :: 0 <= i < j < |s| ==> !Before(before, s[j], s[i])
  }

  ghost predicate Tied<T>(before: (T, T) -> bool, a: T, b: T) {
    !Before(before, a, b) && !Before(before, b, a)
  }

  /** The elements of s tied with g, in the order s holds them. */
  ghost function Ties<T>(before: (T, T) -> bool, g: T, s: seq<T>): seq<T> {
    if s == [] then []
    else (if Tied(before, g, s[0]) then [s[0]] else []) + Ties(before, g, s[1..])
  }

  ghost predicate SameTies<T(!new)>(before: (T, T) -> bool, s: seq<T>, t: seq<T>) {
    forall g :: Ties(before, g, s) == Ties(before, g, t)
  }

  /** t is what a stable sort of s must return. */
  ghost predicate StableSortOf<T(!new)>(before: (T, T) -> bool, t: seq<T>, s: seq<T>) {
    |t| == |s| && Sorted(before, t) && SameTies(before, t, s)
  }

  ghost function Merged<T>(before: (T, T) -> bool, l: seq<T>, r: seq<T>): (m: seq<T>)
    ensures |m| == |l| + |r|
  {
    if l == [] then r
    else if r == [] then l
    else if Before(before, r[0], l[0]) then [r[0]] + Merged(before, l, r[1..])
    else [l[0]] + Merged(before, l[1..], r)
  }

  lemma {:induction false} TiesConcat<T>(before: (T, T) -> bool, g: T, a: seq<T>, b: seq<T>)
    ensures Ties(before, g, a + b) == Ties(before, g, a) + Ties(before, g, b)
  {
    if a == [] {
      assert a + b == b;
    } else {
      TiesConcat(before, g, a[1..], b);
      assert (a + b)[1..] == a[1..] + b;
    }
  }

  lemma {:induction false} TiesEmpty<T>(before: (T, T) -> bool, g: T, s: seq<T>)
    requires forall x :: x in s ==> !Tied(before, g, x)
    ensures Ties(before, g, s) == []
  {
    if s != [] {
      TiesEmpty(before, g, s[1..]);
    }
  }

  lemma {:induction false} MergedElements<T>(before: (T, T) -> bool, l: seq<T>, r: seq<T>)
    ensures forall x :: x in Merged(before, l, r) ==> x in l || x in r
  {
    if l != [] && r != [] {
      if Before(before, r[0], l[0]) {
        MergedElements(before, l, r[1..]);
      } else {
        MergedElements(before, l[1..], r);
      }
    }
  }

  lemma SortedCons<T(!new)>(before: (T, T) -> bool, x: T, s: seq<T>)
    requires Sorted(before, s) && forall y :: y in s ==> !Before(before, y, x)
    ensures Sorted(before, [x] + s)
  {
    var t := [x] + s;
    forall i, j | 0 <= i < j < |t| ensures !Before(before, t[j], t[i]) {
      assert t[j] == s[j - 1] && s[j - 1] in s;
    }
  }

  /** The head of a sorted sequence is not after any of its elements. */
  lemma SortedHead<T(!new)>(before: (T, T) -> bool, s: seq<T>)
    requires StrictWeakOrder(before) && Sorted(before, s) && s != []
    ensures forall y :: y in s ==> !Before(before, y, s[0])
    ensures Sorted(before, s[1..])
  {
  }

  lemma {:induction false} MergedSorted<T(!new)>(before: (T, T) -> bool, l: seq<T>, r: seq<T>)
    requires StrictWeakOrder(before) && Sorted(before, l) && Sorted(before, r)
    ensures Sorted(before, Merged(before, l, r))
  {
    if l != [] && r != [] {
      SortedHead(before, l);
      SortedHead(before, r);
      if Before(before, r[0], l[0]) {
        MergedSorted(before, l, r[1..]);
        MergedElements(before, l, r[1..]);
        SortedCons(before, r[0], Merged(before, l, r[1..]));
      } else {
        MergedSorted(before, l[1..], r);
        MergedElements(before, l[1..], r);
        SortedCons(before, l[0], Merged(before, l[1..], r));
      }
    }
  }

  lemma TiesNone<T>(before: (T, T) -> bool, g: T)
    ensures Ties(before, g, []) == []
  {
  }

  lemma TiesCons<T>(before: (T, T) -> bool, g: T, x: T, s: seq<T>)
    ensures Ties(before, g, [x] + s) == (if Tied(before, g, x) then [x] else []) + Ties(before, g, s)
  {
    assert ([x] + s)[1..] == s;
  }

  lemma SortedTail<T(!new)>(before: (T, T) -> bool, l: seq<T>)
    requires Sorted(before, l) && l != []
    ensures Sorted(before, l[1..])
  {
  }

  /** Nothing in a sorted list is tied with what goes strictly before its head. */
  lemma NoTiesAbove<T(!new)>(before: (T, T) -> bool, g: T, l: seq<T>, x: T)
    requires StrictWeakOrder(before) && Sorted(before, l) && l != []
    requires Before(before, x, l[0]) && Tied(before, g, x)
    ensures Ties(before, g, l) == []
  {
    SortedHead(before, l);
    TiesEmpty(before, g, l);
  }


  lemma {:induction false} MergedTies<T(!new)>(before: (T, T) -> bool, g: T, l: seq<T>, r: seq<T>)
    requires StrictWeakOrder(before) && Sorted(before, l)
    ensures Ties(before, g, Merged(before, l, r)) == Ties(before, g, l) + Ties(before, g, r)
  {
    hide Ties, Before, StrictWeakOrder, Sorted;
    TiesNone(before, g);
    if l == [] {
      assert [] + Ties(before, g, r) == Ties(before, g, r);
    } else if r != [] {
      TiesCons(before, g, l[0], l[1..]);
      TiesCons(before, g, r[0], r[1..]);
      assert [l[0]] + l[1..] == l && [r[0]] + r[1..] == r;
      SortedTail(before, l);
      if Before(before, r[0], l[0]) {
        MergedTies(before, g, l, r[1..]);
        TiesCons(before, g, r[0], Merged(before, l, r[1..]));
        if Tied(before, g, r[0]) {
          NoTiesAbove(before, g, l, r[0]);
        }
      } else {
        MergedTies(before, g, l[1..], r);
        TiesCons(before, g, l[0], Merged(before, l[1..], r));
      }
    }
  }

  /** Merging two stably sorted halves stably sorts the whole. */
  lemma MergedIsStable<T(!new)>(before: (T, T) -> bool, l: seq<T>, r: seq<T>, l0: seq<T>, r0: seq<T>)
    requires StrictWeakOrder(before)
    requires StableSortOf(before, l, l0) && StableSortOf(before, r, r0)
    ensures StableSortOf(before, Merged(before, l, r), l0 + r0)
  {
    MergedSorted(before, l, r);
    forall g ensures Ties(before, g, Merged(before, l, r)) == Ties(before, g, l0 + r0) {
      MergedTies(before, g, l, r);
      TiesConcat(before, g, l0, r0);
    }
  }

  // ----- What StableSortOf determines -----

  lemma {:induction false} TiesMember<T>(before: (T, T) -> bool, g: T, s: seq<T>, x: T)
    ensures x in Ties(before, g, s) <==> x in s && Tied(before, g, x)
  {
    if s != [] {
      TiesMember(before, g, s[1..], x);
    }
  }

  lemma {:induction false} TiesMultiplicity<T>(before: (T, T) -> bool, s: seq<T>, x: T)
    requires Tied(before, x, x)
    ensures multiset(s)[x] == multiset(Ties(before, x, s))[x]
  {
    if s != [] {
      TiesMultiplicity(before, s[1..], x);
      assert s == [s[0]] + s[1..];
    }
  }

  /** A stable sort is a permutation: the tie lists already carry every multiplicity. */
  lemma StableSortPermutes<T(!new)>(before: (T, T) -> bool, t: seq<T>, s: seq<T>)
    requires StrictWeakOrder(before) && StableSortOf(before, t, s)
    ensures multiset(t) == multiset(s)
  {
    forall x: T ensures multiset(t)[x] == multiset(s)[x] {
      TiesMultiplicity(before, t, x);
      TiesMultiplicity(before, s, x);
      assert Ties(before, x, t) == Ties(before, x, s);
    }
  }

  /** There is only one stable sort of a sequence. */
  lemma {:induction false} StableSortUnique<T(!new)>(before: (T, T) -> bool, a: seq<T>, b: seq<T>, s: seq<T>)
    requires StrictWeakOrder(before) && StableSortOf(before, a, s) && StableSortOf(before, b, s)
    ensures a == b
    decreases |a|
  {
    if a != [] {
      var x, y := a[0], b[0];
      assert SameTies(before, a, b);
      SameHead(before, a, b);
      forall g ensures Ties(before, g, a[1..]) == Ties(before, g, b[1..]) {
        var h := if Tied(before, g, x) then [x] else [];
        assert Ties(before, g, a) == Ties(before, g, s) == Ties(before, g, b);
        assert h + Ties(before, g, a[1..]) == h + Ties(before, g, b[1..]);
        assert Ties(before, g, a[1..]) == (h + Ties(before, g, a[1..]))[|h|..];
        assert Ties(before, g, b[1..]) == (h + Ties(before, g, b[1..]))[|h|..];
      }
      StableSortUnique(before, a[1..], b[1..], a[1..]);
      assert a == [x] + a[1..] && b == [y] + b[1..];
    }
  }

  lemma SameHead<T(!new)>(before: (T, T) -> bool, a: seq<T>, b: seq<T>)
    requires StrictWeakOrder(before) && Sorted(before, a) && Sorted(before, b)
    requires SameTies(before, a, b) && a != [] && b != []
    ensures a[0] == b[0]
  {
    var x, y := a[0], b[0];
    assert Ties(before, x, a) == Ties(before, x, b);
    assert Ties(before, y, a) == Ties(before, y, b);
    TiesMember(before, x, a, x);
    TiesMember(before, x, b, x);
    TiesMember(before, y, a, y);
    TiesMember(before, y, b, y);
    SortedHead(before, a);
    SortedHead(before, b);
    assert Tied(before, x, y);
    assert Ties(before, x, a)[0] == x;
    assert Ties(before, x, b)[0] == y;
  }
}
