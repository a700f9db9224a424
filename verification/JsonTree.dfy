/** The parse tree: an array of nodes linked by index, how events build it, and what tree it stands for. */
module JsonTree {
  import opened JsonText

  datatype NodeType = ObjNode | ArrNode | KeyVal | Val

  /** The two words are head and tail of a group, key and value of a pair, or position and size of a text. */
  datatype Node = Node(kind: NodeType, next: nat, a: nat, b: nat)

  /** The nodes so far, the groups still open and the key waiting for its value, 0 for none. */
  datatype Builder = Builder(nv: seq<Node>, st: seq<nat>, key: nat)

  const NEXT_LIMIT: nat := 0x100_0000
  const WORD_LIMIT: nat := 0x1_0000_0000
  const BLANK := Node(ObjNode, 0, 0, 0)
  const EMPTY := Builder([BLANK], [], 0)

  // ----- Building -----

  predicate IsGroup(n: Node) {
    n.kind == ObjNode || n.kind == ArrNode
  }

  predicate ValidTails(nv: seq<Node>) {
    forall i :: 0 <= i < |nv| && IsGroup(nv[i]) ==> nv[i].b < |nv|
  }

  predicate ValidStack(nv: seq<Node>, st: seq<nat>) {
    forall i :: 0 <= i < |st| ==> st[i] < |nv| && IsGroup(nv[st[i]])
  }

  predicate Valid(b: Builder) {
    ValidTails(b.nv) && ValidStack(b.nv, b.st)
  }

  /** A new last child: linked behind the old one, or the first. */
  function Link(nv: seq<Node>, c: nat, v: nat): (r: seq<Node>)
    requires c < |nv| && nv[c].b < |nv|
    ensures |r| == |nv|
  {
    var t := nv[c].b;
    if t != 0 then
      var m := nv[t := nv[t].(next := v % NEXT_LIMIT)];
      m[c := m[c].(b := v)]
    else nv[c := nv[c].(a := v, b := v)]
  }

  /** A finished value goes behind the key that waits for it, and into the innermost open group. */
  function Add(b: Builder, v: nat): (r: Builder)
    requires Valid(b) && v < |b.nv|
    ensures Valid(r) && r.st == b.st
  {
    if b.st == [] then b else
      var c := b.st[|b.st| - 1];
      if b.key != 0 then
        var nv := b.nv + [Node(KeyVal, 0, b.key, v)];
        Builder(Link(nv, c, |b.nv|), b.st, 0)
      else b.(nv := Link(b.nv, c, v))
  }

  function NewNode(b: Builder, kind: NodeType, i: nat, j: nat): (r: Builder)
    requires Valid(b) && (kind == ObjNode || kind == ArrNode ==> j == 0)
    ensures Valid(r)
  {
    b.(nv := b.nv + [Node(kind, 0, i, j)])
  }

  function GroupType(kind: Kind): NodeType {
    if kind.Object? then ObjNode else ArrNode
  }

  function Applied(b: Builder, e: Event): (r: Builder)
    requires Valid(b) && (e.End? ==> b.st != [])
    ensures Valid(r)
  {
    match e
    case Start(kind) =>
      var idx := |b.nv|;
      var added := Add(NewNode(b, GroupType(kind), 0, 0), idx);
      Pushed(b, kind);
      added.(st := added.st + [idx])
    case End => b.(st := b.st[..|b.st| - 1])
    case KeyAt(pos, size) => NewNode(b, Val, pos % WORD_LIMIT, size % WORD_LIMIT).(key := |b.nv|)
    case ScalarAt(pos, size) => Add(NewNode(b, Val, pos % WORD_LIMIT, size % WORD_LIMIT), |b.nv|)
  }

  /** The node a group was opened with is still a group after it has been added. */
  lemma Pushed(b: Builder, kind: Kind)
    requires Valid(b)
    ensures var added := Add(NewNode(b, GroupType(kind), 0, 0), |b.nv|);
            |b.nv| < |added.nv| && IsGroup(added.nv[|b.nv|])
  {
  }

  /** No group is closed that was not opened: the parser pops an empty stack otherwise. */
  predicate Balanced(depth: nat, events: seq<Event>)
    decreases |events|
  {
    if events == [] then true else
      match events[0]
      case Start(_) => Balanced(depth + 1, events[1..])
      case End => depth > 0 && Balanced(depth - 1, events[1..])
      case _ => Balanced(depth, events[1..])
  }

  function Built(b: Builder, events: seq<Event>): (r: Builder)
    requires Valid(b) && Balanced(|b.st|, events)
    ensures Valid(r)
    decreases |events|
  {
    if events == [] then b else Built(Applied(b, events[0]), events[1..])
  }

  lemma {:induction false} BuiltAppend(b: Builder, x: seq<Event>, y: seq<Event>)
    requires Valid(b) && Balanced(|b.st|, x) && Balanced(|Built(b, x).st|, y)
    ensures Balanced(|b.st|, x + y) && Built(b, x + y) == Built(Built(b, x), y)
    decreases |x|
  {
    if x == [] {
      assert [] + y == y;
    } else {
      hide Applied, Valid;
      assert (x + y)[1..] == x[1..] + y && (x + y)[0] == x[0];
      DepthAfter(b, x[0]);
      BuiltAppend(Applied(b, x[0]), x[1..], y);
    }
  }

  lemma DepthAfter(b: Builder, e: Event)
    requires Valid(b) && (e.End? ==> b.st != [])
    ensures Valid(Applied(b, e))
    ensures |Applied(b, e).st| == |b.st| + (if e.Start? then 1 else if e.End? then -1 else 0)
  {
  }
}
