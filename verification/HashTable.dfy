/**
 The client's hash map: nodes in one growing vector, chained by index from a fixed table of heads, deleted
 nodes kept on a free list.  Index 0 is never a node and ends every chain.
 */
module HashTable {

  datatype Node<K, V> = Node(nxt: nat, key: K, val: V)

  /** A pointer to a link: a head in the table, or the nxt_ of a node. */
  datatype Link = Null | Head(bucket: nat) | Next(node: nat)

  /** The abstract shape: the chains, the free list, and who owns each node (a bucket, or -1 for the free list). */
  datatype Shape<!K> = Shape(chains: seq<seq<nat>>, free: seq<nat>, owner: seq<int>, index: map<K, nat>)

  // ----- Lists of indices -----

  ghost function First(p: seq<nat>): nat {
    if p == [] then 0 else p[0]
  }

  ghost function After(p: seq<nat>, i: nat): nat {
    if i + 1 < |p| then p[i + 1] else 0
  }

  /** Starting at head, the nodes are linked in the order of p, without repetition. */
  ghost predicate Linked<K, V>(nvec: seq<Node<K, V>>, head: nat, p: seq<nat>) {
    && head == First(p)
    && (forall i :: 0 <= i < |p| ==> 0 < p[i] < |nvec|)
    && (forall i :: 0 <= i < |p| ==> nvec[p[i]].nxt == After(p, i))
    && (forall i, j :: 0 <= i < j < |p| ==> p[i] != p[j])
  }

  ghost function Without<T>(s: seq<T>, t: nat): (r: seq<T>)
    requires t < |s|
    ensures |r| == |s| - 1
  {
    s[..t] + s[t + 1..]
  }

  lemma LinkedElsewhere<K, V>(nvec: seq<Node<K, V>>, n: nat, nd: Node<K, V>, head: nat, p: seq<nat>)
    requires Linked(nvec, head, p) && n < |nvec| && n !in p
    ensures Linked(nvec[n := nd], head, p)
  {
  }

  lemma LinkedGrows<K, V>(nvec: seq<Node<K, V>>, nd: Node<K, V>, head: nat, p: seq<nat>)
    requires Linked(nvec, head, p)
    ensures Linked(nvec + [nd], head, p)
  {
  }

  /** Pushing a node that is not in the list onto its front. */
  lemma LinkedPush<K, V>(nvec: seq<Node<K, V>>, n: nat, nd: Node<K, V>, head: nat, p: seq<nat>)
    requires Linked(nvec, head, p) && 0 < n < |nvec| && n !in p && nd.nxt == head
    ensures Linked(nvec[n := nd], n, [n] + p)
  {
    var q := [n] + p;
    forall i | 0 <= i < |q| ensures nvec[n := nd][q[i]].nxt == After(q, i) {
      if i > 0 {
        assert q[i] == p[i - 1];
      }
    }
  }

  lemma LinkedPop<K, V>(nvec: seq<Node<K, V>>, head: nat, p: seq<nat>)
    requires Linked(nvec, head, p) && p != []
    ensures Linked(nvec, nvec[head].nxt, p[1..]) && head !in p[1..]
  {
    forall i | 0 <= i < |p[1..]| ensures nvec[p[1..][i]].nxt == After(p[1..], i) {
      assert p[1..][i] == p[i + 1];
    }
  }

  ghost predicate NoRepeats(p: seq<nat>) {
    forall i, j :: 0 <= i < j < |p| ==> p[i] != p[j]
  }

  lemma WithoutAt(p: seq<nat>, t: nat)
    requires t < |p| && NoRepeats(p)
    ensures forall i :: 0 <= i < |p| - 1 ==> Without(p, t)[i] == p[if i < t then i else i + 1]
    ensures NoRepeats(Without(p, t)) && p[t] !in Without(p, t)
    ensures forall x :: x in p <==> x in Without(p, t) || x == p[t]
  {
    assert p == p[..t] + [p[t]] + p[t + 1..];
  }

  /** Unlinking the t-th node through the link before it. */
  lemma LinkedUnlink<K, V>(nvec: seq<Node<K, V>>, head: nat, p: seq<nat>, t: nat)
    requires Linked(nvec, head, p) && 0 < t < |p|
    ensures Linked(nvec[p[t - 1] := nvec[p[t - 1]].(nxt := nvec[p[t]].nxt)], head, Without(p, t))
  {
    var q, nd := Without(p, t), nvec[p[t - 1]].(nxt := nvec[p[t]].nxt);
    var m := nvec[p[t - 1] := nd];
    assert NoRepeats(p);
    WithoutAt(p, t);
    hide Without;
    forall i | 0 <= i < |q| ensures 0 < q[i] < |m| && m[q[i]].nxt == After(q, i) {
      if i < t - 1 {
        assert q[i] == p[i] && nvec[p[i]].nxt == After(p, i) && q[i + 1] == p[i + 1];
      } else if i == t - 1 {
        assert q[i] == p[i] && nvec[p[t]].nxt == After(p, t);
        if t + 1 < |p| {
          assert q[t] == p[t + 1];
        }
      } else {
        assert q[i] == p[i + 1] && nvec[p[i + 1]].nxt == After(p, i + 1);
        if i + 2 < |p| {
          assert q[i + 1] == p[i + 2];
        }
      }
    }
    assert NoRepeats(q);
  }

  // ----- The table -----

  ghost predicate Chained<K, V>(nvec: seq<Node<K, V>>, htab: seq<nat>, rhd: nat, g: Shape<K>) {
    && |nvec| >= 1 && |g.chains| == |htab|
    && (forall b :: 0 <= b < |htab| ==> Linked(nvec, htab[b], g.chains[b]))
    && Linked(nvec, rhd, g.free)
  }

  /** Every node but 0 is in exactly one list, the one its owner says. */
  ghost predicate Partitioned(size: nat, g: Shape) {
    && |g.owner| == size
    && (forall b, i :: 0 <= b < |g.chains| && 0 <= i < |g.chains[b]| ==> g.chains[b][i] < size && g.owner[g.chains[b][i]] == b)
    && (forall i :: 0 <= i < |g.free| ==> g.free[i] < size && g.owner[g.free[i]] == -1)
    && (forall n :: 0 < n < size ==>
          if g.owner[n] == -1 then n in g.free
          else 0 <= g.owner[n] < |g.chains| && n in g.chains[g.owner[n]])
  }

  /** The live nodes are exactly those of the indexed keys, each in the bucket of its key. */
  ghost predicate Keyed<K, V>(nvec: seq<Node<K, V>>, hash: K -> nat, g: Shape<K>) {
    && (forall k :: k in g.index ==>
          && |g.chains| > 0 && g.index[k] < |nvec| && nvec[g.index[k]].key == k
          && g.index[k] in g.chains[hash(k) % |g.chains|])
    && (forall b, i :: 0 <= b < |g.chains| && 0 <= i < |g.chains[b]| ==>
          var n := g.chains[b][i]; n < |nvec| && nvec[n].key in g.index && g.index[nvec[n].key] == n)
  }

  /** A live node's bucket is that of its key. */
  lemma LiveBucket<K, V>(nvec: seq<Node<K, V>>, htab: seq<nat>, rhd: nat, hash: K -> nat, g: Shape<K>, b: nat, i: nat)
    requires Chained(nvec, htab, rhd, g) && Partitioned(|nvec|, g) && Keyed(nvec, hash, g)
    requires b < |g.chains| && i < |g.chains[b]|
    ensures hash(nvec[g.chains[b][i]].key) % |g.chains| == b
  {
    var n := g.chains[b][i];
    var c := hash(nvec[n].key) % |g.chains|;
    assert n in g.chains[c];
    var j :| 0 <= j < |g.chains[c]| && g.chains[c][j] == n;
  }

  // ----- Deleting -----

  ghost function ShapeWithout<K>(g: Shape<K>, b: nat, t: nat, k: K): Shape<K>
    requires b < |g.chains| && t < |g.chains[b]| && g.chains[b][t] < |g.owner|
  {
    var n := g.chains[b][t];
    Shape(g.chains[b := Without(g.chains[b], t)], [n] + g.free, g.owner[n := -1], g.index - {k})
  }

  /** The nodes after the link before position t was set past node n, and n was pushed on the free list. */
  ghost function NodesWithout<K, V>(nvec: seq<Node<K, V>>, rhd: nat, p: seq<nat>, t: nat): (m: seq<Node<K, V>>)
    requires t < |p| && p[t] < |nvec| && (t > 0 ==> p[t - 1] < |nvec|)
    ensures |m| == |nvec|
  {
    var m := if t == 0 then nvec else nvec[p[t - 1] := nvec[p[t - 1]].(nxt := nvec[p[t]].nxt)];
    m[p[t] := m[p[t]].(nxt := rhd)]
  }

  ghost function HeadsWithout<K, V>(nvec: seq<Node<K, V>>, htab: seq<nat>, p: seq<nat>, b: nat, t: nat): (h: seq<nat>)
    requires b < |htab| && t < |p| && p[t] < |nvec|
    ensures |h| == |htab|
  {
    if t == 0 then htab[b := nvec[p[0]].nxt] else htab
  }

  lemma OnlyNextChanges<K, V>(nvec: seq<Node<K, V>>, rhd: nat, p: seq<nat>, t: nat)
    requires t < |p| && p[t] < |nvec| && (t > 0 ==> p[t - 1] < |nvec|)
    ensures forall x :: 0 <= x < |nvec| ==>
              NodesWithout(nvec, rhd, p, t)[x].key == nvec[x].key && NodesWithout(nvec, rhd, p, t)[x].val == nvec[x].val
  {
  }

  /** A node of chain b is in no other list. */
  lemma OnlyInChain(size: nat, g: Shape, b: nat, t: nat)
    requires Partitioned(size, g) && b < |g.chains| && t < |g.chains[b]|
    ensures g.chains[b][t] < size && g.chains[b][t] !in g.free
    ensures forall c :: 0 <= c < |g.chains| && c != b ==> g.chains[b][t] !in g.chains[c]
  {
    var n := g.chains[b][t];
    forall c | 0 <= c < |g.chains| && c != b ensures n !in g.chains[c] {
      assert forall i :: 0 <= i < |g.chains[c]| ==> g.owner[g.chains[c][i]] == c;
    }
    assert forall i :: 0 <= i < |g.free| ==> g.owner[g.free[i]] == -1;
  }

  lemma OtherListKept<K, V>(nvec: seq<Node<K, V>>, rhd: nat, p: seq<nat>, t: nat, head: nat, q: seq<nat>)
    requires t < |p| && p[t] < |nvec| && (t > 0 ==> p[t - 1] < |nvec|)
    requires Linked(nvec, head, q) && p[t] !in q && (t > 0 ==> p[t - 1] !in q)
    ensures Linked(NodesWithout(nvec, rhd, p, t), head, q)
  {
  }

  lemma DelChained<K, V>(nvec: seq<Node<K, V>>, htab: seq<nat>, rhd: nat, g: Shape<K>, b: nat, t: nat, k: K)
    requires Chained(nvec, htab, rhd, g) && Partitioned(|nvec|, g)
    requires b < |g.chains| && t < |g.chains[b]|
    ensures g.chains[b][t] < |nvec| && (t > 0 ==> g.chains[b][t - 1] < |nvec|)
    ensures var p := g.chains[b];
            Chained(NodesWithout(nvec, rhd, p, t), HeadsWithout(nvec, htab, p, b, t), p[t], ShapeWithout(g, b, t, k))
  {
    var p := g.chains[b];
    var n := p[t];
    OnlyInChain(|nvec|, g, b, t);
    if t > 0 {
      OnlyInChain(|nvec|, g, b, t - 1);
    }
    var nvec', htab', g' := NodesWithout(nvec, rhd, p, t), HeadsWithout(nvec, htab, p, b, t), ShapeWithout(g, b, t, k);
    forall c | 0 <= c < |htab| ensures Linked(nvec', htab'[c], g'.chains[c]) {
      if c != b {
        OtherListKept(nvec, rhd, p, t, htab[c], g.chains[c]);
      } else {
        UnlinkAndFree(nvec, rhd, htab[b], p, t);
      }
    }
    FreePush(nvec, rhd, p, t, g.free);
  }

  lemma UnlinkAndFree<K, V>(nvec: seq<Node<K, V>>, rhd: nat, head: nat, p: seq<nat>, t: nat)
    requires Linked(nvec, head, p) && t < |p|
    ensures Linked(NodesWithout(nvec, rhd, p, t), if t == 0 then nvec[p[0]].nxt else head, Without(p, t))
  {
    WithoutAt(p, t);
    if t == 0 {
      LinkedPop(nvec, head, p);
      assert Without(p, 0) == p[1..];
      LinkedElsewhere(nvec, p[0], nvec[p[0]].(nxt := rhd), nvec[p[0]].nxt, p[1..]);
    } else {
      LinkedUnlink(nvec, head, p, t);
      var m := nvec[p[t - 1] := nvec[p[t - 1]].(nxt := nvec[p[t]].nxt)];
      LinkedElsewhere(m, p[t], m[p[t]].(nxt := rhd), head, Without(p, t));
    }
  }

  lemma FreePush<K, V>(nvec: seq<Node<K, V>>, rhd: nat, p: seq<nat>, t: nat, free: seq<nat>)
    requires t < |p| && 0 < p[t] < |nvec| && (t > 0 ==> p[t - 1] < |nvec|)
    requires Linked(nvec, rhd, free) && p[t] !in free && (t > 0 ==> p[t - 1] !in free)
    ensures Linked(NodesWithout(nvec, rhd, p, t), p[t], [p[t]] + free)
  {
    var m := if t == 0 then nvec else nvec[p[t - 1] := nvec[p[t - 1]].(nxt := nvec[p[t]].nxt)];
    assert Linked(m, rhd, free);
    LinkedPush(m, p[t], m[p[t]].(nxt := rhd), rhd, free);
  }

  lemma DelPartitioned<K>(size: nat, g: Shape<K>, b: nat, t: nat, k: K)
    requires Partitioned(size, g) && b < |g.chains| && t < |g.chains[b]|
    requires NoRepeats(g.chains[b]) && g.chains[b][t] < size
    ensures Partitioned(size, ShapeWithout(g, b, t, k))
  {
    var p, g' := g.chains[b], ShapeWithout(g, b, t, k);
    var n := p[t];
    WithoutAt(p, t);
    hide Without;
    forall x | 0 < x < size
      ensures if g'.owner[x] == -1 then x in g'.free else 0 <= g'.owner[x] < |g'.chains| && x in g'.chains[g'.owner[x]]
    {
      if x != n && g.owner[x] == b {
        assert x in p;
      }
    }
    forall c, i | 0 <= c < |g'.chains| && 0 <= i < |g'.chains[c]|
      ensures g'.chains[c][i] < size && g'.owner[g'.chains[c][i]] == c
    {
      if c == b {
        assert g'.chains[b][i] in Without(p, t);
      } else {
        assert g.owner[g.chains[c][i]] == c;
      }
    }
  }

  lemma DelKeyed<K, V>(nvec: seq<Node<K, V>>, nvec': seq<Node<K, V>>, hash: K -> nat, g: Shape<K>, b: nat, t: nat, k: K)
    requires Partitioned(|nvec|, g) && Keyed(nvec, hash, g) && b < |g.chains| && t < |g.chains[b]|
    requires NoRepeats(g.chains[b]) && g.chains[b][t] < |nvec| && k in g.index && g.index[k] == g.chains[b][t]
    requires |nvec'| == |nvec| && forall x :: 0 <= x < |nvec| ==> nvec'[x].key == nvec[x].key
    ensures Keyed(nvec', hash, ShapeWithout(g, b, t, k))
  {
    var p, g' := g.chains[b], ShapeWithout(g, b, t, k);
    WithoutAt(p, t);
    hide Without;
    forall j | j in g'.index
      ensures g'.index[j] < |nvec'| && nvec'[g'.index[j]].key == j && g'.index[j] in g'.chains[hash(j) % |g'.chains|]
    {
      assert nvec[g.index[j]].key == j;
    }
    forall c, i | 0 <= c < |g'.chains| && 0 <= i < |g'.chains[c]|
      ensures var n := g'.chains[c][i]; n < |nvec'| && nvec'[n].key in g'.index && g'.index[nvec'[n].key] == n
    {
      var n := g'.chains[c][i];
      if c == b {
        assert n in p && n != p[t];
        var j :| 0 <= j < |p| && p[j] == n;
        assert nvec[n].key in g.index && g.index[nvec[n].key] == n;
      } else {
        assert g.owner[n] == c;
      }
    }
  }

  // ----- Adding -----

  /** All lists are intact and node n is in none of them. */
  ghost predicate Detached<K, V>(nvec: seq<Node<K, V>>, htab: seq<nat>, rhd: nat, hash: K -> nat, g: Shape<K>, n: nat) {
    && Chained(nvec, htab, rhd, g) && 0 < n < |nvec| == |g.owner|
    && (forall b, i :: 0 <= b < |g.chains| && 0 <= i < |g.chains[b]| ==>
          g.chains[b][i] != n && g.owner[g.chains[b][i]] == b)
    && (forall i :: 0 <= i < |g.free| ==> g.free[i] != n && g.owner[g.free[i]] == -1)
    && (forall m :: 0 < m < |nvec| && m != n ==>
          if g.owner[m] == -1 then m in g.free
          else 0 <= g.owner[m] < |g.chains| && m in g.chains[g.owner[m]])
    && Keyed(nvec, hash, g)
  }

  lemma DetachFree<K, V>(nvec: seq<Node<K, V>>, htab: seq<nat>, rhd: nat, hash: K -> nat, g: Shape<K>)
    requires Chained(nvec, htab, rhd, g) && Partitioned(|nvec|, g) && Keyed(nvec, hash, g) && rhd != 0
    ensures g.free != [] && rhd < |nvec|
    ensures Detached(nvec, htab, nvec[rhd].nxt, hash, g.(free := g.free[1..]), rhd)
  {
    var g' := g.(free := g.free[1..]);
    LinkedPop(nvec, rhd, g.free);
    assert g.free == [rhd] + g.free[1..];
    assert g.owner[g.free[0]] == -1;
    forall i | 0 <= i < |g'.free| ensures g'.free[i] != rhd && g'.owner[g'.free[i]] == -1 {
      assert g'.free[i] == g.free[i + 1];
    }
  }

  lemma DetachNew<K, V>(nvec: seq<Node<K, V>>, htab: seq<nat>, rhd: nat, hash: K -> nat, g: Shape<K>, blank: Node<K, V>)
    requires Chained(nvec, htab, rhd, g) && Partitioned(|nvec|, g) && Keyed(nvec, hash, g)
    ensures Detached(nvec + [blank], htab, rhd, hash, g.(owner := g.owner + [-1]), |nvec|)
  {
    forall b | 0 <= b < |htab| ensures Linked(nvec + [blank], htab[b], g.chains[b]) {
      LinkedGrows(nvec, blank, htab[b], g.chains[b]);
    }
    LinkedGrows(nvec, blank, rhd, g.free);
  }

  lemma DetachedSizes<K, V>(nvec: seq<Node<K, V>>, htab: seq<nat>, rhd: nat, hash: K -> nat, g: Shape<K>, n: nat)
    requires Detached(nvec, htab, rhd, hash, g, n)
    ensures n < |nvec| && n < |g.owner| && |g.chains| == |htab|
  {
  }

  ghost function ShapeWith<K>(g: Shape<K>, b: nat, n: nat, k: K): Shape<K>
    requires b < |g.chains| && n < |g.owner|
  {
    Shape(g.chains[b := [n] + g.chains[b]], g.free, g.owner[n := b], g.index[k := n])
  }

  lemma ShapeWithin<K>(g: Shape<K>, b: nat, n: nat, k: K)
    requires b < |g.chains| && n < |g.owner|
    ensures var g' := ShapeWith(g, b, n, k);
            g'.index == g.index[k := n] && |g'.chains| == |g.chains| && g'.chains[b] != [] && g'.chains[b][0] == n
  {
  }

  lemma Attach<K, V>(nvec: seq<Node<K, V>>, htab: seq<nat>, rhd: nat, hash: K -> nat, g: Shape<K>, n: nat, k: K, v: V,
                     b: nat)
    requires Detached(nvec, htab, rhd, hash, g, n) && |htab| > 0 && k !in g.index && b == hash(k) % |htab|
    ensures |g.chains| == |htab|
    ensures var nvec', g' := nvec[n := Node(htab[b], k, v)], ShapeWith(g, b, n, k);
            Chained(nvec', htab[b := n], rhd, g') && Partitioned(|nvec'|, g') && Keyed(nvec', hash, g')
  {
    AttachChained(nvec, htab, rhd, hash, g, n, k, v, b);
    AttachPartitioned(nvec, htab, rhd, hash, g, n, k, v, b);
    AttachKeyed(nvec, htab, rhd, hash, g, n, k, v);
  }

  lemma AttachChained<K, V>(nvec: seq<Node<K, V>>, htab: seq<nat>, rhd: nat, hash: K -> nat, g: Shape<K>, n: nat,
                            k: K, v: V, b: nat)
    requires Detached(nvec, htab, rhd, hash, g, n) && b < |htab|
    ensures Chained(nvec[n := Node(htab[b], k, v)], htab[b := n], rhd, ShapeWith(g, b, n, k))
  {
    var nd := Node(htab[b], k, v);
    forall c | 0 <= c < |htab| ensures Linked(nvec[n := nd], htab[b := n][c], ShapeWith(g, b, n, k).chains[c]) {
      if c == b {
        LinkedPush(nvec, n, nd, htab[b], g.chains[b]);
      } else {
        LinkedElsewhere(nvec, n, nd, htab[c], g.chains[c]);
      }
    }
    LinkedElsewhere(nvec, n, nd, rhd, g.free);
  }

  lemma AttachPartitioned<K, V>(nvec: seq<Node<K, V>>, htab: seq<nat>, rhd: nat, hash: K -> nat, g: Shape<K>, n: nat,
                                k: K, v: V, b: nat)
    requires Detached(nvec, htab, rhd, hash, g, n) && b < |htab|
    ensures Partitioned(|nvec|, ShapeWith(g, b, n, k))
  {
    var g' := ShapeWith(g, b, n, k);
    forall c, i | 0 <= c < |g'.chains| && 0 <= i < |g'.chains[c]|
      ensures g'.chains[c][i] < |nvec| && g'.owner[g'.chains[c][i]] == c
    {
      if c == b && i > 0 {
        assert g'.chains[c][i] == g.chains[b][i - 1];
      }
    }
  }

  lemma AttachKeyed<K, V>(nvec: seq<Node<K, V>>, htab: seq<nat>, rhd: nat, hash: K -> nat, g: Shape<K>, n: nat, k: K,
                          v: V)
    requires Detached(nvec, htab, rhd, hash, g, n) && |htab| > 0 && k !in g.index
    ensures var b := hash(k) % |htab|;
            |g.chains| == |htab| && Keyed(nvec[n := Node(htab[b], k, v)], hash, ShapeWith(g, b, n, k))
  {
    assert |g.chains| == |htab|;
    KeyedPush(nvec, hash, g, n, k, Node(htab[hash(k) % |htab|], k, v));
  }

  lemma KeyedPush<K, V>(nvec: seq<Node<K, V>>, hash: K -> nat, g: Shape<K>, n: nat, k: K, nd: Node<K, V>)
    requires Keyed(nvec, hash, g) && |g.chains| > 0 && k !in g.index && nd.key == k && n < |nvec| && n < |g.owner|
    requires forall b, i :: 0 <= b < |g.chains| && 0 <= i < |g.chains[b]| ==> g.chains[b][i] != n
    ensures Keyed(nvec[n := nd], hash, ShapeWith(g, hash(k) % |g.chains|, n, k))
  {
    var b := hash(k) % |g.chains|;
    var nvec', g' := nvec[n := nd], ShapeWith(g, b, n, k);
    forall j | j in g'.index
      ensures g'.index[j] < |nvec'| && nvec'[g'.index[j]].key == j && g'.index[j] in g'.chains[hash(j) % |g'.chains|]
    {
      KeyedPushKey(nvec, hash, g, n, k, b, j);
    }
    forall c, i | 0 <= c < |g'.chains| && 0 <= i < |g'.chains[c]|
      ensures var m := g'.chains[c][i]; m < |nvec'| && nvec'[m].key in g'.index && g'.index[nvec'[m].key] == m
    {
      if c == b {
        if i > 0 {
          assert g'.chains[c][i] == g.chains[b][i - 1];
        }
      } else {
        assert g'.chains[c][i] == g.chains[c][i];
      }
    }
  }

  lemma KeyedPushKey<K, V>(nvec: seq<Node<K, V>>, hash: K -> nat, g: Shape<K>, n: nat, k: K, b: nat, j: K)
    requires |g.chains| > 0 && Keyed(nvec, hash, g) && b == hash(k) % |g.chains| && k !in g.index && n < |g.owner|
    requires forall b, i :: 0 <= b < |g.chains| && 0 <= i < |g.chains[b]| ==> g.chains[b][i] != n
    requires |g.chains| > 0 && (j == k || j in g.index)
    ensures var g' := ShapeWith(g, b, n, k);
            g'.index[j] in g'.chains[hash(j) % |g.chains|] && (j != k ==> g'.index[j] != n)
  {
    var c, g' := hash(j) % |g.chains|, ShapeWith(g, b, n, k);
    if j == k {
      assert g'.chains[b][0] == n;
    } else {
      var i :| 0 <= i < |g.chains[c]| && g.chains[c][i] == g.index[j];
      assert if c == b then g'.chains[c][i + 1] == g.index[j] else g'.chains[c] == g.chains[c];
    }
  }

  lemma OneLess<K, V>(m: map<K, V>, k: K)
    requires k in m
    ensures |m - {k}| == |m| - 1
  {
    assert m == (m - {k})[k := m[k]];
  }

  /** A detached node is the node of no key. */
  lemma DetachedUnindexed<K, V>(nvec: seq<Node<K, V>>, htab: seq<nat>, rhd: nat, hash: K -> nat, g: Shape<K>, n: nat)
    requires Detached(nvec, htab, rhd, hash, g, n)
    ensures forall j :: j in g.index ==> g.index[j] != n && g.index[j] < |nvec|
  {
    forall j | j in g.index ensures g.index[j] != n && g.index[j] < |nvec| {
      var c := hash(j) % |g.chains|;
      var i :| 0 <= i < |g.chains[c]| && g.chains[c][i] == g.index[j];
    }
  }

  /** Different keys have different nodes. */
  lemma IndexInjective<K, V>(nvec: seq<Node<K, V>>, hash: K -> nat, g: Shape<K>, k: K)
    requires Keyed(nvec, hash, g) && k in g.index
    ensures forall j :: j in g.index && j != k ==> g.index[j] != g.index[k]
    ensures forall j :: j in g.index ==> g.index[j] < |nvec|
  {
  }

  ghost function Values<K, V>(nvec: seq<Node<K, V>>, index: map<K, nat>): map<K, V>
    requires forall k :: k in index ==> index[k] < |nvec|
  {
    map k | k in index :: nvec[index[k]].val
  }

  lemma ValuesSet<K, V>(nvec: seq<Node<K, V>>, index: map<K, nat>, k: K, v: V)
    requires k in index && forall j :: j in index ==> index[j] < |nvec|
    requires forall j :: j in index && j != k ==> index[j] != index[k]
    ensures var m := nvec[index[k] := nvec[index[k]].(val := v)];
            Values(m, index) == Values(nvec, index)[k := v]
  {
  }

  lemma ValuesKeys<K, V>(nvec: seq<Node<K, V>>, index: map<K, nat>)
    requires forall k :: k in index ==> index[k] < |nvec|
    ensures Values(nvec, index).Keys == index.Keys
  {
  }

  lemma ValuesAdded<K, V>(nvec: seq<Node<K, V>>, m: seq<Node<K, V>>, index: map<K, nat>, k: K, res: nat)
    requires k !in index && res < |m| && |nvec| <= |m|
    requires forall j :: j in index ==> index[j] < |nvec| && index[j] != res
    requires forall n :: 0 <= n < |nvec| && n != res ==> m[n] == nvec[n]
    ensures k in Values(m, index[k := res]) && Values(m, index[k := res]) - {k} == Values(nvec, index)
  {
  }

  lemma IndexWithin<K, V>(nvec: seq<Node<K, V>>, hash: K -> nat, g: Shape<K>)
    requires Keyed(nvec, hash, g)
    ensures forall j :: j in g.index ==> g.index[j] < |nvec|
  {
  }

  ghost function EmptyShape<K>(size: nat): (g: Shape<K>)
    ensures |g.chains| == size && g.index == map[]
  {
    Shape(seq(size, b => []), [], [0], map[])
  }

  ghost function Zeros(size: nat): (z: seq<nat>)
    ensures |z| == size
  {
    seq(size, b => 0)
  }

  lemma EmptyTable<K, V>(blank: Node<K, V>, size: nat, hash: K -> nat)
    ensures var g: Shape<K> := EmptyShape(size);
            Chained([blank], Zeros(size), 0, g) && Partitioned(1, g) && Keyed([blank], hash, g)
  {
  }

  lemma ValueOnly<K, V>(nvec: seq<Node<K, V>>, htab: seq<nat>, rhd: nat, hash: K -> nat, g: Shape<K>, n: nat, v: V)
    requires Chained(nvec, htab, rhd, g) && Keyed(nvec, hash, g) && n < |nvec|
    ensures var m := nvec[n := nvec[n].(val := v)]; Chained(m, htab, rhd, g) && Keyed(m, hash, g)
  {
    var m := nvec[n := nvec[n].(val := v)];
    assert forall i :: 0 <= i < |nvec| ==> m[i].nxt == nvec[i].nxt && m[i].key == nvec[i].key;
    forall b | 0 <= b < |htab| ensures Linked(m, htab[b], g.chains[b]) {
      assert Linked(nvec, htab[b], g.chains[b]);
    }
  }

  class HashMap<K(==), V> {
    var nvec: seq<Node<K, V>>
    const htab: array<nat>
    var rhd: nat
    var nval: nat
    const hash: K -> nat
    const blank: Node<K, V>
    ghost var g: Shape<K>

    ghost predicate Valid()
      reads this, htab
    {
      && htab.Length > 0
      && Chained(nvec, htab[..], rhd, g) && Partitioned(|nvec|, g) && Keyed(nvec, hash, g)
      && nval == |g.index|
    }

    /** The map the table stands for. */
    ghost function Contents(): map<K, V>
      requires Valid()
      reads this, htab
    {
      Values(nvec, g.index)
    }

    /** Where a link points. */
    function Deref(l: Link): nat
      requires !l.Null? && (l.Head? ==> l.bucket < htab.Length) && (l.Next? ==> l.node < |nvec|)
      reads this, htab
    {
      match l
      case Head(b) => htab[b]
      case Next(n) => nvec[n].nxt
    }

    /** l is the link through which the key's node hangs in its chain. */
    ghost predicate LinkTo(l: Link, key: K)
      requires Valid()
      reads this, htab
    {
      key in g.index &&
      var b := hash(key) % htab.Length;
      exists t :: 0 <= t < |g.chains[b]| && g.chains[b][t] == g.index[key] && IsLink(l, b, t)
    }

    /** l is the link before position t of chain b. */
    ghost predicate IsLink(l: Link, b: nat, t: nat)
      requires b < |g.chains| && t <= |g.chains[b]|
      reads this
    {
      l == if t == 0 then Head(b) else Next(g.chains[b][t - 1])
    }

    constructor (size: nat, hash: K -> nat, blank: Node<K, V>)
      requires size > 0
      ensures Valid() && Contents() == map[] && fresh(htab) && nval == 0
      ensures this.hash == hash
    {
      nvec := [blank];
      htab := new nat[size](i => 0);
      rhd, nval := 0, 0;
      this.hash, this.blank := hash, blank;
      g := EmptyShape(size);
    }

    /** What a chain holds at and after position t. */
    lemma ChainAt(b: nat, t: nat)
      requires Valid() && b < htab.Length && t < |g.chains[b]|
      ensures |g.chains| == htab.Length
      ensures var n := g.chains[b][t];
              && 0 < n < |nvec| && nvec[n].nxt == After(g.chains[b], t)
              && nvec[n].key in g.index && g.index[nvec[n].key] == n
    {
    }

    lemma Shaped()
      requires Valid()
      ensures |g.chains| == htab.Length && forall b :: 0 <= b < htab.Length ==> htab[b] == First(g.chains[b])
    {
      hide Partitioned, Keyed;
      assert forall b :: 0 <= b < htab.Length ==> htab[b] == htab[..][b];
    }

    /** The key's node, if any, is at some position of its bucket's chain. */
    lemma Indexed(k: K)
      requires Valid()
      ensures |g.chains| == htab.Length > 0
      ensures k in g.index ==> exists t :: 0 <= t < |g.chains[hash(k) % htab.Length]| &&
                                 nvec[g.chains[hash(k) % htab.Length][t]].key == k
    {
      if k in g.index {
        var chain := g.chains[hash(k) % htab.Length];
        var t :| 0 <= t < |chain| && chain[t] == g.index[k];
      }
    }

    /** Follow the chain of the key's bucket until the key or the end. */
    method Find(k: K) returns (p: Link)
      requires Valid()
      ensures p.Null? <==> k !in Contents()
      ensures !p.Null? ==> LinkTo(p, k)
    {
      hide Chained, Partitioned, Keyed;
      Shaped();
      Indexed(k);
      var i := hash(k) % htab.Length;
      ghost var chain, t := g.chains[i], 0;
      p := Head(i);
      var d := htab[i];
      while d != 0
        invariant 0 <= t <= |chain| && IsLink(p, i, t)
        invariant d == if t < |chain| then chain[t] else 0
        invariant forall j :: 0 <= j < t ==> chain[j] < |nvec| && nvec[chain[j]].key != k
        decreases |chain| - t
      {
        ChainAt(i, t);
        var nd := nvec[d];
        if k == nd.key {
          return;
        }
        p := Next(d);
        d := nd.nxt;
        t := t + 1;
      }
      if t < |chain| {
        ChainAt(i, t);
      }
      p := Null;
    }

    /** nval_ is the number of keys of the map. */
    method Size() returns (n: nat)
      requires Valid()
      ensures n == |Contents()|
    {
      hide Chained, Partitioned, Keyed;
      n := nval;
      Owned();
      ValuesKeys(nvec, g.index);
      assert Contents().Keys == g.index.Keys;
      assert |Contents().Keys| == |Contents()| && |g.index.Keys| == |g.index|;
    }

    /** Take the node out of its chain, through the link find returned, and put it on the free list. */
    method Del(i: Link, ghost k: K)
      requires Valid() && LinkTo(i, k)
      modifies this, htab
      ensures Valid() && Contents() == old(Contents()) - {k} && nval == old(nval) - 1
    {
      hide Chained, Partitioned, Keyed, Without, NodesWithout, HeadsWithout, ShapeWithout, IsLink;
      Shaped();
      ghost var b := hash(k) % htab.Length;
      ghost var t :| 0 <= t < |g.chains[b]| && g.chains[b][t] == g.index[k] && IsLink(i, b, t);
      Position(i, b, t, k);
      ghost var m, g' := DelShape(b, t, k);
      Unlink(i, b, t, g.chains[b]);
      g := g';
    }

    /** The three assignments of del, on a link before position t of the list p. */
    method Unlink(i: Link, ghost b: nat, ghost t: nat, ghost p: seq<nat>)
      requires t < |p| && p[t] < |nvec| && b < htab.Length && nval > 0
      requires i == if t == 0 then Head(b) else Next(p[t - 1])
      requires t == 0 ==> htab[b] == p[0]
      requires t > 0 ==> p[t - 1] < |nvec| && p[t - 1] != p[t] && nvec[p[t - 1]].nxt == p[t]
      modifies this, htab
      ensures nvec == NodesWithout(old(nvec), old(rhd), p, t)
      ensures htab[..] == HeadsWithout(old(nvec), old(htab[..]), p, b, t)
      ensures rhd == p[t] && nval == old(nval) - 1 && g == old(g)
    {
      var it := Deref(i);
      var nd := nvec[it];
      match i {
        case Head(j) => htab[j] := nd.nxt;
        case Next(m) => nvec := nvec[m := nvec[m].(nxt := nd.nxt)];
      }
      nvec := nvec[it := nvec[it].(nxt := rhd)];
      rhd := it;
      nval := nval - 1;
    }

    /** What del reads through the link. */
    lemma Position(i: Link, b: nat, t: nat, k: K)
      requires Valid() && k in g.index && b < |g.chains| && t < |g.chains[b]| && IsLink(i, b, t)
      ensures var p := g.chains[b];
              && i == (if t == 0 then Head(b) else Next(p[t - 1]))
              && p[t] < |nvec| && b < htab.Length && nval > 0
              && (t == 0 ==> htab[b] == p[0])
              && (t > 0 ==> p[t - 1] < |nvec| && p[t - 1] != p[t] && nvec[p[t - 1]].nxt == p[t])
    {
      var p := g.chains[b];
      assert |g.index| > 0;
      assert htab[..][b] == htab[b] && Linked(nvec, htab[b], p);
      assert t > 0 ==> nvec[p[t - 1]].nxt == After(p, t - 1);
    }

    lemma DelShape(b: nat, t: nat, k: K) returns (m: seq<Node<K, V>>, g': Shape<K>)
      requires Valid() && k in g.index && b == hash(k) % htab.Length && b < |g.chains| && t < |g.chains[b]|
      requires g.chains[b][t] == g.index[k]
      ensures var p := g.chains[b];
              && p[t] < |nvec| && b < htab.Length && (t > 0 ==> p[t - 1] < |nvec|)
              && m == NodesWithout(nvec, rhd, p, t)
              && Chained(m, HeadsWithout(nvec, htab[..], p, b, t), p[t], g')
              && Partitioned(|m|, g') && Keyed(m, hash, g')
      ensures |g'.index| == nval - 1 && g'.index == g.index - {k}
      ensures forall j :: j in g'.index ==> g'.index[j] < |m| == |nvec| && m[g'.index[j]].val == nvec[g'.index[j]].val
    {
      var p := g.chains[b];
      assert Linked(nvec, htab[..][b], p) && NoRepeats(p);
      Owned();
      hide Chained, Partitioned, Keyed, Linked, NoRepeats, Without, NodesWithout, HeadsWithout;
      DelChained(nvec, htab[..], rhd, g, b, t, k);
      DelPartitioned(|nvec|, g, b, t, k);
      OnlyNextChanges(nvec, rhd, p, t);
      m, g' := NodesWithout(nvec, rhd, p, t), ShapeWithout(g, b, t, k);
      DelKeyed(nvec, m, hash, g, b, t, k);
      OneLess(g.index, k);
    }

    lemma Owned()
      requires Valid()
      ensures |g.owner| == |nvec| > 0 && |g.chains| == htab.Length && forall j :: j in g.index ==> g.index[j] < |nvec|
    {
    }

    /**
     Add a key that a find has missed.  The value is whatever the node held: the blank of a new node, or what
     a deleted one left behind.
     */
    method Add(k: K) returns (p: Link)
      requires Valid() && k !in Contents()
      modifies this, htab
      ensures Valid() && LinkTo(p, k) && nval == old(nval) + 1
      ensures k in Contents() && Contents() - {k} == old(Contents())
    {
      hide Chained, Partitioned, Keyed, Detached, Values, First;
      var res := rhd;
      ghost var nvec0, index0 := nvec, g.index;
      IndexWithin(nvec, hash, g);
      assert k !in g.index by {
        assert Values(nvec, g.index).Keys == g.index.Keys by { ValuesKeys(nvec, g.index); }
      }
      Owned();
      if res != 0 {
        DetachFree(nvec, htab[..], rhd, hash, g);
        g := g.(free := g.free[1..]);
        rhd := nvec[rhd].nxt;
      } else {
        res := |nvec|;
        DetachNew(nvec, htab[..], rhd, hash, g, blank);
        g := g.(owner := g.owner + [-1]);
        nvec := nvec + [blank];
      }
      DetachedUnindexed(nvec, htab[..], rhd, hash, g, res);
      p := Insert(k, res);
      IndexWithin(nvec, hash, g);
      ValuesAdded(nvec0, nvec, index0, k, res);
    }

    /** Hang the detached node res at the front of the key's chain. */
    method Insert(k: K, res: nat) returns (p: Link)
      requires htab.Length > 0 && Detached(nvec, htab[..], rhd, hash, g, res) && k !in g.index && nval == |g.index|
      modifies this, htab
      ensures Valid() && LinkTo(p, k) && nval == old(nval) + 1
      ensures g.index == old(g.index)[k := res] && |nvec| == |old(nvec)| && res < |nvec|
      ensures nvec == old(nvec)[res := nvec[res]]
    {
      hide Chained, Partitioned, Keyed, ShapeWith, LinkTo;
      var i := hash(k) % htab.Length;
      ghost var htab0 := htab[..];
      DetachedSizes(nvec, htab0, rhd, hash, g, res);
      hide Detached;
      Attach(nvec, htab0, rhd, hash, g, res, k, nvec[res].val, i);
      ShapeWithin(g, i, res, k);
      ghost var hung := Node(htab0[i], k, nvec[res].val);
      var n := htab[i];
      htab[i] := res;
      assert htab[..] == htab0[i := res];
      nvec := nvec[res := nvec[res].(nxt := n, key := k)];
      assert nvec[res] == hung;
      nval := nval + 1;
      g := ShapeWith(g, i, res, k);
      p := Head(i);
      assert Valid();
      Fronted(k);
    }

    /** A key at the front of its chain hangs from the head of the chain. */
    lemma Fronted(k: K)
      requires Valid() && k in g.index
      requires var b := hash(k) % htab.Length;
               b < |g.chains| && g.chains[b] != [] && g.chains[b][0] == g.index[k]
      ensures LinkTo(Head(hash(k) % htab.Length), k)
    {
      var b := hash(k) % htab.Length;
      assert IsLink(Head(b), b, 0);
    }

    /** A key's link leads to its node. */
    lemma Target(p: Link, k: K)
      requires Valid() && LinkTo(p, k)
      ensures !p.Null? && (p.Head? ==> p.bucket < htab.Length) && (p.Next? ==> p.node < |nvec|)
      ensures k in g.index && Deref(p) == g.index[k] < |nvec|
    {
      hide Chained, Partitioned, Keyed, IsLink;
      Shaped();
      var b := hash(k) % htab.Length;
      var t :| 0 <= t < |g.chains[b]| && g.chains[b][t] == g.index[k] && IsLink(p, b, t);
      Position(p, b, t, k);
    }

    /** Assign through a link. */
    method SetVal(p: Link, ghost k: K, v: V)
      requires Valid() && LinkTo(p, k)
      modifies this
      ensures Valid() && Contents() == old(Contents())[k := v] && nval == old(nval)
    {
      hide Chained, Partitioned, Keyed, IsLink, LinkTo, Deref, Values;
      Target(p, k);
      var n := Deref(p);
      ValueOnly(nvec, htab[..], rhd, hash, g, n, v);
      IndexInjective(nvec, hash, g, k);
      ValuesSet(nvec, g.index, k, v);
      nvec := nvec[n := nvec[n].(val := v)];
    }

    method ClearHeads()
      modifies htab
      ensures htab[..] == Zeros(htab.Length)
    {
      forall b | 0 <= b < htab.Length {
        htab[b] := 0;
      }
    }

    method Clear()
      requires Valid()
      modifies this, htab
      ensures Valid() && Contents() == map[] && nval == 0
    {
      Owned();
      ClearHeads();
      Reset();
    }

    method Reset()
      requires htab.Length > 0 && |nvec| > 0 && htab[..] == Zeros(htab.Length)
      modifies this
      ensures Valid() && Contents() == map[] && nval == 0
    {
      hide Chained, Partitioned, Keyed, EmptyShape, Zeros;
      EmptyTable(nvec[0], htab.Length, hash);
      nvec := [nvec[0]];  // resize( 1 )
      rhd, nval := 0, 0;
      g := EmptyShape(htab.Length);
    }
  }
}
