/** The heapsort of add_publisher.rs, over (key, original index) pairs. */
module HeapSort {
  import opened Keys

  datatype Entry = Entry(key: Key, index: nat)

  ghost function R(e: Entry): int {
    Rank(e.key)
  }

  /** Node k of the heap s[..len] is not smaller than its children. */
  ghost predicate HeapAt(s: seq<Entry>, len: nat, k: nat)
    requires len <= |s|
  {
    && (2 * k + 1 < len ==> R(s[2 * k + 1]) <= R(s[k]))
    && (2 * k + 2 < len ==> R(s[2 * k + 2]) <= R(s[k]))
  }

  ghost predicate HeapFrom(s: seq<Entry>, len: nat, lo: nat)
    requires len <= |s|
  {
    forall k :: lo <= k < len ==> HeapAt(s, len, k)
  }

  ghost predicate SortedFrom(s: seq<Entry>, lo: nat) {
    forall i, j :: lo <= i < j < |s| ==> R(s[i]) <= R(s[j])
  }

  ghost function Swapped<T>(s: seq<T>, i: nat, j: nat): (t: seq<T>)
    requires i < |s| && j < |s|
    ensures |t| == |s|
  {
    s[i := s[j]][j := s[i]]
  }

  lemma SwapPermutes<T>(s: seq<T>, i: nat, j: nat)
    requires i < |s| && j < |s|
    ensures multiset(Swapped(s, i, j)) == multiset(s)
  {
  }

  /** Everything but node satisfies the heap property, and node's parent is not below node's children. */
  ghost predicate HeapExcept(s: seq<Entry>, len: nat, lo: nat, node: nat)
    requires len <= |s|
  {
    && (forall k :: lo <= k < len && k != node ==> HeapAt(s, len, k))
    && (forall p :: lo <= p < len && (node == 2 * p + 1 || node == 2 * p + 2) ==>
          (2 * node + 1 < len ==> R(s[2 * node + 1]) <= R(s[p])) && (2 * node + 2 < len ==> R(s[2 * node + 2]) <= R(s[p])))
  }

  /** One step down: swapping node with its greater child moves the only defect to the child. */
  lemma SiftStep(s: seq<Entry>, len: nat, lo: nat, node: nat, child: nat)
    requires len <= |s| && lo <= node && child < len
    requires child == 2 * node + 1 || child == 2 * node + 2
    requires 2 * node + 1 < len ==> R(s[2 * node + 1]) <= R(s[child])
    requires 2 * node + 2 < len ==> R(s[2 * node + 2]) <= R(s[child])
    requires R(s[node]) < R(s[child])
    requires HeapExcept(s, len, lo, node)
    ensures HeapExcept(Swapped(s, node, child), len, lo, child)
  {
    var t := Swapped(s, node, child);
    assert HeapAt(s, len, child);
    forall k | lo <= k < len && k != child ensures HeapAt(t, len, k) {
      if k == node {
      } else {
        assert HeapAt(s, len, k);
      }
    }
  }

  method SiftDown(v: array<Entry>, len: nat, start: nat, ghost bound: int)
    requires len <= v.Length && start < len
    requires HeapFrom(v[..], len, start + 1)
    requires forall k :: 0 <= k < len ==> R(v[..][k]) <= bound
    modifies v
    ensures HeapFrom(v[..], len, start)
    ensures v[..][len..] == old(v[..][len..])
    ensures multiset(v[..]) == multiset(old(v[..]))
    ensures forall k :: 0 <= k < len ==> R(v[..][k]) <= bound
  {
    hide MemCmp;
    hide Rank;
    hide HeapExcept;
    hide HeapFrom;
    hide Swapped;
    ghost var s := v[..];
    var node := start;
    HeapExceptStart(s, len, start);
    while true
      invariant start <= node < len && v[..] == s && |s| == v.Length
      invariant HeapExcept(s, len, start, node)
      invariant s[len..] == old(v[..][len..])
      invariant multiset(s) == multiset(old(v[..]))
      invariant forall k :: 0 <= k < len ==> R(s[k]) <= bound
      decreases len - node
    {
      var child := 2 * node + 1;
      if child >= len {
        break;
      }
      if child + 1 < len {
        Compare(v[child].key, v[child + 1].key);
        if MemCmp(v[child].key, v[child + 1].key) < 0 {
          child := child + 1;
        }
      }
      Compare(v[node].key, v[child].key);
      if MemCmp(v[node].key, v[child].key) >= 0 {
        break;
      }
      SiftStep(s, len, start, node, child);
      SwapPermutes(s, node, child);
      SwapBounds(s, len, node, child, bound);
      v[node], v[child] := v[child], v[node];
      s := Swapped(s, node, child);
      node := child;
    }
    HeapExceptEnd(s, len, start, node);
  }

  lemma HeapExceptStart(s: seq<Entry>, len: nat, start: nat)
    requires len <= |s| && HeapFrom(s, len, start + 1)
    ensures HeapExcept(s, len, start, start)
  {
  }

  lemma HeapExceptEnd(s: seq<Entry>, len: nat, start: nat, node: nat)
    requires len <= |s| && HeapExcept(s, len, start, node) && HeapAt(s, len, node)
    ensures HeapFrom(s, len, start)
  {
  }

  lemma SwapBounds(s: seq<Entry>, len: nat, i: nat, j: nat, bound: int)
    requires len <= |s| && i < len && j < len
    requires forall k :: 0 <= k < len ==> R(s[k]) <= bound
    ensures forall k :: 0 <= k < len ==> R(Swapped(s, i, j)[k]) <= bound
    ensures Swapped(s, i, j)[len..] == s[len..]
    ensures Swapped(s, i, j) == s[i := s[j]][j := s[i]]
  {
  }

  lemma Compare(a: Key, b: Key)
    ensures MemCmp(a, b) < 0 <==> Rank(a) < Rank(b)
  {
    MemCmpIsRankOrder(a, b);
  }

  /** The root of a heap is its maximum. */
  lemma {:induction false} RootIsMax(s: seq<Entry>, len: nat, k: nat)
    requires len <= |s| && HeapFrom(s, len, 0) && k < len
    ensures R(s[k]) <= R(s[0])
  {
    if k > 0 {
      var p := (k - 1) / 2;
      assert k == 2 * p + 1 || k == 2 * p + 2;
      RootIsMax(s, len, p);
      assert HeapAt(s, len, p);
    }
  }

  /** Sorts by key, ascending; the pairs are only moved. */
  method Sort(v: array<Entry>)
    modifies v
    ensures SortedFrom(v[..], 0)
    ensures multiset(v[..]) == multiset(old(v[..]))
  {
    Heapify(v);
    var i := v.Length;
    while i > 1
      invariant 0 <= i <= v.Length && (i == 0 ==> v.Length == 0)
      invariant HeapFrom(v[..], i, 0)
      invariant multiset(v[..]) == multiset(old(v[..]))
      invariant Popped(v[..], i)
    {
      i := i - 1;
      PopMax(v, i);
    }
  }

  /** The tail from i on is in final order and above everything before it. */
  ghost predicate Popped(s: seq<Entry>, i: nat) {
    SortedFrom(s, i) && forall a, b :: 0 <= a < i <= b < |s| ==> R(s[a]) <= R(s[b])
  }

  method Heapify(v: array<Entry>)
    modifies v
    ensures HeapFrom(v[..], v.Length, 0)
    ensures multiset(v[..]) == multiset(old(v[..]))
  {
    var i := v.Length / 2;
    while i > 0
      invariant 0 <= i <= v.Length / 2
      invariant HeapFrom(v[..], v.Length, i)
      invariant multiset(v[..]) == multiset(old(v[..]))
    {
      i := i - 1;
      SiftDown(v, v.Length, i, MaxRank(v[..]));
    }
  }

  ghost function MaxRank(s: seq<Entry>): (m: int)
    ensures forall k :: 0 <= k < |s| ==> R(s[k]) <= m
  {
    if s == [] then 0
    else
      var t := MaxRank(s[1..]);
      assert forall k :: 1 <= k < |s| ==> s[k] == s[1..][k - 1];
      if R(s[0]) >= t then R(s[0]) else t
  }

  method PopMax(v: array<Entry>, i: nat)
    requires 0 < i < v.Length
    requires HeapFrom(v[..], i + 1, 0) && Popped(v[..], i + 1)
    modifies v
    ensures HeapFrom(v[..], i, 0) && Popped(v[..], i)
    ensures multiset(v[..]) == multiset(old(v[..]))
  {
    ghost var s := v[..];
    forall k | 0 <= k < i + 1 ensures R(s[k]) <= R(s[0]) {
      RootIsMax(s, i + 1, k);
    }
    v[0], v[i] := v[i], v[0];
    ghost var t := Swapped(s, 0, i);
    assert v[..] == t;
    SwapPermutes(s, 0, i);
    forall k | 1 <= k < i ensures HeapAt(t, i, k) {
      assert HeapAt(s, i + 1, k);
    }
    SiftDown(v, i, 0, R(s[0]));
    ghost var u := v[..];
    assert forall b :: i <= b < |u| ==> u[b] == u[i..][b - i] == t[i..][b - i] == t[b];
  }
}
