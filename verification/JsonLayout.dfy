/** Where the nodes of a value end up, that the parser puts them there, and that they read back as the value. */
module JsonLayout {
  import opened JsonText
  import opened JsonTree

  // ----- The finished nodes of a list of entries, laid out from an index on -----

  function InnerSize(v: Value): nat {
    if v.Group? then Size(v.entries) else 0
  }

  function Size(es: Entries): nat {
    match es
    case None => 0
    case Entry(key, value, tail) => FrontSize(key) + InnerSize(value) + Size(tail)
  }

  /** The key, the value and the pair, or the value alone. */
  function FrontSize(key: Key): nat {
    if key.NoKey? then 1 else 3
  }

  /** The node its siblings link to. */
  function Handle(key: Key, base: nat): nat {
    if key.NoKey? then base else base + 2
  }

  function TailBase(es: Entries, base: nat): nat
    requires es.Entry?
  {
    base + FrontSize(es.key) + InnerSize(es.value)
  }

  function Head(es: Entries, base: nat): nat {
    if es.None? then 0 else Handle(es.key, base)
  }

  function Last(es: Entries, base: nat): nat {
    match es
    case None => 0
    case Entry(key, value, tail) =>
      if tail.None? then Handle(key, base) else Last(tail, TailBase(es, base))
  }

  /** The node of a value whose inner nodes start at the given index. */
  function Own(v: Value, at: nat, inner: nat): Node {
    match v
    case Str(text) => Node(Val, 0, at + 1, |text|)
    case Group(kind, entries) => Node(GroupType(kind), 0, Head(entries, inner), Last(entries, inner))
    case _ => Node(Val, 0, at, |Render(v)|)
  }

  function Inner(v: Value, at: nat, base: nat): (s: seq<Node>)
    ensures |s| == InnerSize(v)
  {
    if v.Group? then Layout(v.entries, true, at + 1, base) else []
  }

  /** Key text at one offset, value text at another; own is the value's node. */
  function Front(key: Key, own: Node, keyAt: nat, base: nat, next: nat): (s: seq<Node>)
    ensures |s| == FrontSize(key)
  {
    if key.NoKey? then [own.(next := next)]
    else [Node(Val, 0, keyAt + 1, |key.name|), own, Node(KeyVal, next, base, base + 1)]
  }

  function Layout(es: Entries, first: bool, at: nat, base: nat): (s: seq<Node>)
    ensures |s| == Size(es)
  {
    match es
    case None => []
    case Entry(key, value, tail) =>
      var keyAt := at + |Separator(first)|;
      var valAt := keyAt + |KeyText(key)|;
      var inner := base + FrontSize(key);
      var tailBase := TailBase(es, base);
      Front(key, Own(value, valAt, inner), keyAt, base, Head(tail, tailBase))
      + Inner(value, valAt, inner)
      + Layout(tail, false, valAt + |Render(value)|, tailBase)
  }

  // ----- The builder puts them there -----

  function Close(nv: seq<Node>, c: nat, last: nat): (r: seq<Node>)
    requires c < |nv|
    ensures |r| == |nv|
  {
    nv[c := nv[c].(b := last)]
  }

  /** What a run of entries does to the group they are added to and to its last child. */
  function Attached(nv: seq<Node>, c: nat, head: nat, last: nat): (r: seq<Node>)
    requires c < |nv| && nv[c].b < |nv|
    ensures |r| == |nv|
  {
    if head == 0 then nv else Close(Link(nv, c, head), c, last)
  }

  lemma LinkAppend(nv: seq<Node>, x: seq<Node>, c: nat, v: nat)
    requires c < |nv| && nv[c].b < |nv|
    ensures Link(nv + x, c, v) == Link(nv, c, v) + x
  {
  }

  /** Linking twice in a row: the second link goes into the node the first one added. */
  lemma LinkTwice(nv: seq<Node>, x: seq<Node>, c: nat, h: nat, h2: nat, last: nat)
    requires c < |nv| && nv[c].b < |nv| && |nv| <= h < |nv| + |x| && 0 < h2 < NEXT_LIMIT
    ensures var k := h - |nv|;
            Attached(Link(nv, c, h) + x, c, h2, last)
            == Attached(nv, c, h, last) + x[k := x[k].(next := h2)]
  {
    var k, m := h - |nv|, Link(nv, c, h) + x;
    assert m[c].b == h != 0;
    var y := x[k := x[k].(next := h2)];
    assert m[h := m[h].(next := h2 % NEXT_LIMIT)] == Link(nv, c, h) + y;
  }

  lemma LinkOnce(nv: seq<Node>, c: nat, h: nat)
    requires c < |nv| && nv[c].b < |nv| && h != 0
    ensures Attached(nv, c, h, h) == Link(nv, c, h)
  {
    var r := Link(nv, c, h);
    assert r[c].b == h;
  }

  /** A node just made and added to the innermost open group. */
  ghost function WithNode(b: Builder, n: Node): Builder
    requires Valid(b) && b.st != []
  {
    var c, own := b.st[|b.st| - 1], |b.nv|;
    if b.key == 0 then Builder(Link(b.nv, c, own) + [n], b.st, 0)
    else Builder(Link(b.nv, c, own + 1) + [n, Node(KeyVal, 0, b.key, own)], b.st, 0)
  }

  lemma NodeAdded(b: Builder, n: Node)
    requires Valid(b) && b.st != [] && n.next == 0 && (IsGroup(n) ==> n.b == 0)
    ensures Add(NewNode(b, n.kind, n.a, n.b), |b.nv|) == WithNode(b, n)
  {
    var c, own := b.st[|b.st| - 1], |b.nv|;
    assert NewNode(b, n.kind, n.a, n.b).nv == b.nv + [n];
    if b.key == 0 {
      LinkAppend(b.nv, [n], c, own);
    } else {
      var kv := Node(KeyVal, 0, b.key, own);
      assert b.nv + [n] + [kv] == b.nv + [n, kv];
      LinkAppend(b.nv, [n, kv], c, own + 1);
    }
  }

  /** The state after a value: its nodes are there, linked and not yet followed by a sibling. */
  ghost function Placed(b: Builder, v: Value, at: nat): Builder
    requires Valid(b) && b.st != []
  {
    var inner := |b.nv| + if b.key == 0 then 1 else 2;
    var w := WithNode(b, Own(v, at, inner));
    w.(nv := w.nv + Inner(v, at, inner))
  }

  predicate Fits(size: nat, end: nat) {
    size <= NEXT_LIMIT && end < WORD_LIMIT
  }

  lemma BuiltOne(b: Builder, e: Event)
    requires Valid(b) && (e.End? ==> b.st != [])
    ensures Balanced(|b.st|, [e]) && Built(b, [e]) == Applied(b, e)
  {
    hide Applied, Valid;
    DepthAfter(b, e);
    assert [e][1..] == [];
  }

  lemma ScalarPlaced(b: Builder, v: Value, at: nat)
    requires Valid(b) && b.st != [] && !v.Group? && at + |Render(v)| < WORD_LIMIT
    ensures Balanced(|b.st|, ValueEvents(v, at)) && Built(b, ValueEvents(v, at)) == Placed(b, v, at)
  {
    hide Valid, Add, NewNode, WithNode, Render, Placed, Built, Balanced, Own, ValueEvents;
    var n := Own(v, at, 0);
    ScalarNode(b, v, at);
    NodeAdded(b, n);
    BuiltOne(b, ScalarAt(n.a, n.b));
  }

  lemma ScalarNode(b: Builder, v: Value, at: nat)
    requires Valid(b) && b.st != [] && !v.Group? && at + |Render(v)| < WORD_LIMIT
    ensures var n := Own(v, at, 0);
            && n.kind == Val && n.next == 0 && n.a < WORD_LIMIT && n.b < WORD_LIMIT
            && ValueEvents(v, at) == [ScalarAt(n.a, n.b)]
            && Placed(b, v, at) == WithNode(b, n)
  {
    hide Valid, WithNode, IntText;
    var n := Own(v, at, 0);
    assert v.Str? ==> |Render(v)| == |v.text| + 2;
    assert WithNode(b, n).nv + [] == WithNode(b, n).nv;
  }

  /** An open group with its entries attached is the finished group. */
  lemma OwnFinished(b: Builder, v: Value, at: nat, inner: nat)
    requires Valid(b) && b.st != [] && v.Group? && inner > 0
    ensures var empty := Node(GroupType(v.kind), 0, 0, 0);
            var w := WithNode(b, empty).nv;
            && |b.nv| < |w| && w[|b.nv|] == empty
            && Attached(w, |b.nv|, Head(v.entries, inner), Last(v.entries, inner)) == WithNode(b, Own(v, at, inner)).nv
  {
    hide Last, Render, Layout, Valid;
    LastOfNone(inner);
    var own, empty := |b.nv|, Node(GroupType(v.kind), 0, 0, 0);
    var w := WithNode(b, empty).nv;
    assert w[own] == empty;
    assert WithNode(b, Own(v, at, inner)).nv == w[own := Own(v, at, inner)];
  }

  lemma LastOfNone(base: nat)
    ensures Last(None, base) == 0
  {
  }

  lemma {:induction false} HeadOf(es: Entries, base: nat)
    requires base > 0 && es.Entry?
    ensures base <= Head(es, base) < base + Size(es)
  {
  }

  lemma GroupStarted(b: Builder, kind: Kind)
    requires Valid(b) && b.st != []
    ensures Balanced(|b.st|, [Start(kind)])
    ensures Built(b, [Start(kind)])
         == Builder(WithNode(b, Node(GroupType(kind), 0, 0, 0)).nv, b.st + [|b.nv|], 0)
  {
    hide Valid, Add, NewNode, WithNode, Built, Balanced;
    var empty := Node(GroupType(kind), 0, 0, 0);
    NodeAdded(b, empty);
    WithNodeSize(b, empty);
    BuiltOne(b, Start(kind));
  }

  lemma GroupEnded(b: Builder)
    requires Valid(b) && b.st != []
    ensures Balanced(|b.st|, [End]) && Built(b, [End]) == b.(st := b.st[..|b.st| - 1])
  {
    BuiltOne(b, End);
  }

  /** Reading the events of a value places it. */
  lemma {:induction false} ValuePlaced(b: Builder, v: Value, at: nat)
    requires Valid(b) && b.st != []
    requires Fits(|b.nv| + (if b.key == 0 then 1 else 2) + InnerSize(v), at + |Render(v)|)
    ensures Balanced(|b.st|, ValueEvents(v, at)) && Built(b, ValueEvents(v, at)) == Placed(b, v, at)
    decreases v
  {
    hide Valid, Built, Balanced, Layout, Last, Head, RenderEntries, EntriesEvents, ValueEvents, Size, Attached, WithNode,
         Placed;
    if v.Group? {
      var own := |b.nv|;
      var inner := own + if b.key == 0 then 1 else 2;
      var start, entries := [Start(v.kind)], EntriesEvents(v.entries, true, at + 1);
      NotEmpty(b);
      OwnFinished(b, v, at, inner);
      GroupStarted(b, v.kind);
      WithNodeSize(b, Node(GroupType(v.kind), 0, 0, 0));
      var b1 := Built(b, start);
      EntriesBuilt(b1, v.entries, true, at + 1);
      BuiltAppend(b, start, entries);
      var b2 := Built(b, start + entries);
      assert (b.st + [own])[..|b.st|] == b.st;
      GroupEnded(b2);
      BuiltAppend(b, start + entries, [End]);
      GroupPlaced(b, v, at, inner);
    } else {
      ScalarPlaced(b, v, at);
    }
  }

  lemma GroupPlaced(b: Builder, v: Value, at: nat, inner: nat)
    requires Valid(b) && b.st != [] && v.Group? && inner == |b.nv| + if b.key == 0 then 1 else 2
    ensures ValueEvents(v, at) == [Start(v.kind)] + EntriesEvents(v.entries, true, at + 1) + [End]
    ensures Placed(b, v, at)
         == Builder(WithNode(b, Own(v, at, inner)).nv + Layout(v.entries, true, at + 1, inner), b.st, 0)
  {
    hide Valid, Own, Layout, WithNode;
    WithNodeSize(b, Own(v, at, inner));
  }

  lemma NotEmpty(b: Builder)
    requires Valid(b) && b.st != []
    ensures b.st[|b.st| - 1] < |b.nv| && b.nv[b.st[|b.st| - 1]].b < |b.nv|
  {
  }

  lemma OwnUnlinked(v: Value, at: nat, inner: nat)
    ensures Own(v, at, inner).next == 0
  {
  }

  lemma WithNodeSize(b: Builder, n: Node)
    requires Valid(b) && b.st != []
    ensures var w := WithNode(b, n);
            |w.nv| == |b.nv| + (if b.key == 0 then 1 else 2) && w.st == b.st && w.key == 0
  {
  }

  lemma KeyBuilt(b: Builder, key: Key, at: nat)
    requires Valid(b) && b.st != [] && b.key == 0 && at + |KeyText(key)| < WORD_LIMIT
    ensures var r := if key.NoKey? then b
                     else Builder(b.nv + [Node(Val, 0, at + 1, |key.name|)], b.st, |b.nv|);
            Balanced(|b.st|, KeyEvents(key, at)) && Valid(r) && Built(b, KeyEvents(key, at)) == r
  {
    if key.Named? {
      BuiltOne(b, KeyAt(at + 1, |key.name|));
    }
  }

  /** The nodes in front of an entry's inner ones, added behind what was there. */
  lemma FrontPlaced(b: Builder, key: Key, value: Value, keyAt: nat)
    requires Valid(b) && b.st != [] && b.key == 0 && keyAt + |KeyText(key)| < WORD_LIMIT
    ensures var base, c, h := |b.nv|, b.st[|b.st| - 1], Handle(key, |b.nv|);
            var b1, valAt, inner := Built(b, KeyEvents(key, keyAt)), keyAt + |KeyText(key)|, base + FrontSize(key);
            && Balanced(|b.st|, KeyEvents(key, keyAt)) && b1.st == b.st
            && |b1.nv| + (if b1.key == 0 then 1 else 2) == inner
            && Placed(b1, value, valAt)
               == Builder(Link(b.nv, c, h) + (Front(key, Own(value, valAt, inner), keyAt, base, 0) + Inner(value, valAt, inner)),
                          b.st, 0)
  {
    hide Inner, Own, KeyText, KeyEvents, Built, Balanced, Link;
    NotEmpty(b);
    OwnUnlinked(value, keyAt + |KeyText(key)|, |b.nv| + FrontSize(key));
    KeyBuilt(b, key, keyAt);
    var base, c, h := |b.nv|, b.st[|b.st| - 1], Handle(key, |b.nv|);
    var valAt, inner := keyAt + |KeyText(key)|, base + FrontSize(key);
    var own, rest := Own(value, valAt, inner), Inner(value, valAt, inner);
    if key.NoKey? {
      assert Front(key, own, keyAt, base, 0) == [own];
    } else {
      var k, kv := Node(Val, 0, keyAt + 1, |key.name|), Node(KeyVal, 0, base, base + 1);
      LinkAppend(b.nv, [k], c, h);
      assert Link(b.nv, c, h) + [k] + [own, kv] + rest == Link(b.nv, c, h) + ([k, own, kv] + rest);
    }
  }

  /** Reading the events of entries attaches them to the innermost open group and lays out their nodes. */
  lemma {:induction false} EntriesBuilt(b: Builder, es: Entries, first: bool, at: nat)
    requires Valid(b) && b.st != [] && b.key == 0
    requires Fits(|b.nv| + Size(es), at + |RenderEntries(es, first)|)
    ensures var c, base := b.st[|b.st| - 1], |b.nv|;
            var events := EntriesEvents(es, first, at);
            && Balanced(|b.st|, events)
            && Built(b, events)
               == Builder(Attached(b.nv, c, Head(es, base), Last(es, base)) + Layout(es, first, at, base), b.st, 0)
    decreases es
  {
    hide Valid, Built, Balanced, Render, RenderEntries, KeyText, Separator, KeyEvents, ValueEvents, EntriesEvents, Link,
         Inner, Own, Front, Attached, Layout, Head, Last;
    match es
    case None =>
      NothingBuilt(b, first, at);
    case Entry(key, value, tail) =>
      EntryParts(es, first, at);
      var c, base := b.st[|b.st| - 1], |b.nv|;
      var keyAt := at + |Separator(first)|;
      var valAt := keyAt + |KeyText(key)|;
      var atTail := valAt + |Render(value)|;
      var k, v, t := KeyEvents(key, keyAt), ValueEvents(value, valAt), EntriesEvents(tail, false, atTail);
      FrontPlaced(b, key, value, keyAt);
      var b1 := Built(b, k);
      ValuePlaced(b1, value, valAt);
      BuiltAppend(b, k, v);
      var b2 := Built(b, k + v);
      EntriesBuilt(b2, tail, false, atTail);
      BuiltAppend(b, k + v, t);
      TailAttached(b, es, first, at, b2.nv);
  }

  lemma NothingBuilt(b: Builder, first: bool, at: nat)
    requires Valid(b) && b.st != [] && b.key == 0
    ensures var c, base, events := b.st[|b.st| - 1], |b.nv|, EntriesEvents(None, first, at);
            && Balanced(|b.st|, events)
            && Built(b, events)
               == Builder(Attached(b.nv, c, Head(None, base), Last(None, base)) + Layout(None, first, at, base), b.st, 0)
  {
    assert b.nv + [] == b.nv;
  }

  lemma TailAttached(b: Builder, es: Entries, first: bool, at: nat, nv: seq<Node>)
    requires Valid(b) && b.st != [] && es.Entry? && |b.nv| + Size(es) <= NEXT_LIMIT
    requires var c, base, h := b.st[|b.st| - 1], |b.nv|, Handle(es.key, |b.nv|);
             var keyAt, inner := at + |Separator(first)|, base + FrontSize(es.key);
             var valAt := keyAt + |KeyText(es.key)|;
             nv == Link(b.nv, c, h)
                   + (Front(es.key, Own(es.value, valAt, inner), keyAt, base, 0) + Inner(es.value, valAt, inner))
    ensures var c, base := b.st[|b.st| - 1], |b.nv|;
            var tailBase, atTail := |nv|, at + |Separator(first)| + |KeyText(es.key)| + |Render(es.value)|;
            && tailBase == TailBase(es, base) && c < |nv| && nv[c].b < |nv|
            && Attached(nv, c, Head(es.tail, tailBase), Last(es.tail, tailBase)) + Layout(es.tail, false, atTail, tailBase)
               == Attached(b.nv, c, Head(es, base), Last(es, base)) + Layout(es, first, at, base)
  {
    hide Own, Inner, Front, Render, KeyText, Separator, Layout, Last, Attached, Link, Valid;
    NotEmpty(b);
    LinkedTail(b.nv, b.st[|b.st| - 1], Handle(es.key, |b.nv|));
    LayoutOfEntry(es, first, at, |b.nv|);
    var key, tail := es.key, es.tail;
    var c, base, h := b.st[|b.st| - 1], |b.nv|, Handle(key, |b.nv|);
    var keyAt, inner := at + |Separator(first)|, base + FrontSize(key);
    var valAt := keyAt + |KeyText(key)|;
    var own, rest := Own(es.value, valAt, inner), Inner(es.value, valAt, inner);
    var front := Front(key, own, keyAt, base, 0);
    var after := Layout(tail, false, valAt + |Render(es.value)|, |nv|);
    if tail.None? {
      LinkOnce(b.nv, c, h);
      NoTail(nv, c, |nv|);
      Regroup3(Link(b.nv, c, h), front, rest, after);
    } else {
      HeadOf(tail, |nv|);
      var h2, last := Head(tail, |nv|), Last(tail, |nv|);
      LinkTwice(b.nv, front + rest, c, h, h2, last);
      Relinked(key, own, keyAt, base, h2, rest);
      Regroup3(Attached(b.nv, c, h, last), Front(key, own, keyAt, base, h2), rest, after);
    }
  }

  lemma LinkedTail(nv: seq<Node>, c: nat, h: nat)
    requires c < |nv| && nv[c].b < |nv|
    ensures Link(nv, c, h)[c].b == h
  {
  }

  lemma NoTail(nv: seq<Node>, c: nat, base: nat)
    requires c < |nv| && nv[c].b < |nv|
    ensures Attached(nv, c, Head(None, base), Last(None, base)) == nv
  {
  }

  lemma Regroup3(a: seq<Node>, b: seq<Node>, c: seq<Node>, d: seq<Node>)
    ensures a + (b + c) + d == a + (b + c + d)
  {
  }

  /** Setting the link of an entry's handle is laying out its front with that link. */
  lemma Relinked(key: Key, own: Node, keyAt: nat, base: nat, next: nat, rest: seq<Node>)
    ensures var x, i := Front(key, own, keyAt, base, 0) + rest, Handle(key, base) - base;
            x[i := x[i].(next := next)] == Front(key, own, keyAt, base, next) + rest
  {
  }

  lemma LayoutOfEntry(es: Entries, first: bool, at: nat, base: nat)
    requires es.Entry?
    ensures var keyAt, inner, tailBase := at + |Separator(first)|, base + FrontSize(es.key), TailBase(es, base);
            var valAt := keyAt + |KeyText(es.key)|;
            Layout(es, first, at, base)
            == Front(es.key, Own(es.value, valAt, inner), keyAt, base, Head(es.tail, tailBase))
               + Inner(es.value, valAt, inner) + Layout(es.tail, false, valAt + |Render(es.value)|, tailBase)
    ensures Last(es, base) == if es.tail.None? then Handle(es.key, base) else Last(es.tail, TailBase(es, base))
  {
  }
}
