/** The node array read as a tree, and the round trip: parsing a rendered value gives the value back. */
module JsonRoundTrip {
  import opened JsonText
  import opened JsonTree
  import opened JsonLayout

  // ----- What a node stands for -----

  ghost predicate IsText(nv: seq<Node>, text: string, i: nat, s: string) {
    i < |nv| && nv[i].kind == Val && nv[i].b == |s| && Holds(text, nv[i].a, s)
  }

  /** The text of a scalar as the tree keeps it: strings without their quotes. */
  function ScalarText(v: Value): string {
    if v.Str? then v.text else Render(v)
  }

  /** Node i is the value: its text for a scalar, its type and its children in order for a group. */
  ghost predicate Represents(nv: seq<Node>, text: string, i: nat, v: Value)
    decreases v, 0
  {
    if v.Group? then i < |nv| && nv[i].kind == GroupType(v.kind) && Chain(nv, text, nv[i].a, v.entries)
    else IsText(nv, text, i, ScalarText(v))
  }

  /** The children from node i on, each linked to the next and the last to none; 0 is the end. */
  ghost predicate Chain(nv: seq<Node>, text: string, i: nat, es: Entries)
    decreases es, 0
  {
    match es
    case None => i == 0
    case Entry(key, value, tail) =>
      && 0 < i < |nv|
      && Child(nv, text, i, key, value)
      && Chain(nv, text, nv[i].next, tail)
  }

  /** A child is the value itself, or a pair of its key and the value. */
  ghost predicate Child(nv: seq<Node>, text: string, i: nat, key: Key, value: Value)
    requires i < |nv|
    decreases value, 1
  {
    if key.NoKey? then nv[i].kind != KeyVal && Represents(nv, text, i, value)
    else
      && nv[i].kind == KeyVal && IsText(nv, text, nv[i].a, key.name)
      && 0 < nv[i].b && Represents(nv, text, nv[i].b, value)
  }

  // ----- The layout stands for the entries -----

  ghost predicate LaidOut(nv: seq<Node>, base: nat, s: seq<Node>) {
    base + |s| <= |nv| && nv[base..base + |s|] == s
  }

  lemma LaidOutAt(nv: seq<Node>, base: nat, s: seq<Node>, k: nat)
    requires LaidOut(nv, base, s) && k < |s|
    ensures nv[base + k] == s[k]
  {
    assert nv[base..base + |s|][k] == s[k];
  }

  lemma Subslice(nv: seq<Node>, a: nat, b: nat, c: nat, d: nat)
    requires a <= b <= |nv| && c <= d <= b - a
    ensures nv[a..b][c..d] == nv[a + c..a + d]
  {
    assert forall i :: 0 <= i < d - c ==> nv[a..b][c..d][i] == nv[a..b][c + i] == nv[a + c + i];
  }

  lemma LaidOutParts(nv: seq<Node>, base: nat, a: seq<Node>, b: seq<Node>, c: seq<Node>)
    requires LaidOut(nv, base, a + b + c)
    ensures LaidOut(nv, base, a) && LaidOut(nv, base + |a|, b) && LaidOut(nv, base + |a| + |b|, c)
  {
    var s := a + b + c;
    assert s[..|a|] == a && s[|a|..|a| + |b|] == b && s[|a| + |b|..] == c;
    Subslice(nv, base, base + |s|, 0, |a|);
    Subslice(nv, base, base + |s|, |a|, |a| + |b|);
    Subslice(nv, base, base + |s|, |a| + |b|, |s|);
  }

  lemma {:induction false} OwnRepresents(nv: seq<Node>, text: string, i: nat, v: Value, at: nat, inner: nat)
    requires i < |nv| && inner > 0 && Holds(text, at, Render(v))
    requires nv[i].kind == Own(v, at, inner).kind && nv[i].a == Own(v, at, inner).a && nv[i].b == Own(v, at, inner).b
    requires LaidOut(nv, inner, Inner(v, at, inner))
    ensures Represents(nv, text, i, v)
    decreases v, 1
  {
    match v
    case Str(s) =>
      assert Render(v) == "\"" + (s + "\"");
      HoldsPart(text, at, "\"", s + "\"");
      HoldsPart(text, at + 1, s, "\"");
    case Group(kind, entries) =>
      var es := RenderEntries(entries, true);
      GroupParts(text, at, kind, es);
      LayoutChain(nv, text, entries, true, at + 1, inner);
    case _ =>
  }

  lemma {:induction false} LayoutChain(nv: seq<Node>, text: string, es: Entries, first: bool, at: nat, base: nat)
    requires base > 0 && Holds(text, at, RenderEntries(es, first)) && LaidOut(nv, base, Layout(es, first, at, base))
    ensures Chain(nv, text, Head(es, base), es)
    decreases es, 0
  {
    hide Layout, RenderEntries, Own, Front, Inner, Render, KeyText, Separator, Holds, LaidOut;
    match es
    case None =>
    case Entry(key, value, tail) =>
      EntryParts(es, first, at);
      LayoutOfEntry(es, first, at, base);
      var s, k, r, t := Separator(first), KeyText(key), Render(value), RenderEntries(tail, false);
      var keyAt := at + |s|;
      var valAt := keyAt + |k|;
      var inner, tailBase := base + FrontSize(key), TailBase(es, base);
      HoldsPart(text, at, s, k + (r + t));
      HoldsPart(text, keyAt, k, r + t);
      HoldsPart(text, valAt, r, t);
      var own := Own(value, valAt, inner);
      var front := Front(key, own, keyAt, base, Head(tail, tailBase));
      LaidOutParts(nv, base, front, Inner(value, valAt, inner), Layout(tail, false, valAt + |r|, tailBase));
      LayoutChain(nv, text, tail, false, valAt + |r|, tailBase);
      FrontNodes(nv, key, own, keyAt, base, Head(tail, tailBase));
      KeyHolds(text, keyAt, key);
      OwnRepresents(nv, text, if key.NoKey? then base else base + 1, value, valAt, inner);
      OwnNotPair(value, valAt, inner);
  }

  lemma OwnNotPair(v: Value, at: nat, inner: nat)
    ensures Own(v, at, inner).kind != KeyVal
  {
  }

  lemma KeyHolds(text: string, at: nat, key: Key)
    requires Holds(text, at, KeyText(key))
    ensures key.Named? ==> Holds(text, at + 1, key.name)
  {
    if key.Named? {
      assert KeyText(key) == "\"" + (key.name + "\":");
      HoldsPart(text, at, "\"", key.name + "\":");
      HoldsPart(text, at + 1, key.name, "\":");
    }
  }

  lemma FrontNodes(nv: seq<Node>, key: Key, own: Node, keyAt: nat, base: nat, next: nat)
    requires LaidOut(nv, base, Front(key, own, keyAt, base, next))
    ensures base + FrontSize(key) <= |nv|
    ensures key.NoKey? ==> nv[base] == own.(next := next)
    ensures key.Named? ==> nv[base] == Node(Val, 0, keyAt + 1, |key.name|) && nv[base + 1] == own
                           && nv[base + 2] == Node(KeyVal, next, base, base + 1)
  {
    var f := Front(key, own, keyAt, base, next);
    LaidOutAt(nv, base, f, 0);
    if key.Named? {
      LaidOutAt(nv, base, f, 1);
      LaidOutAt(nv, base, f, 2);
    }
  }

  // ----- The round trip -----

  predicate IsValid(b: Builder) {
    |b.nv| > 1 && b.st == []
  }

  /** Parsing the text of an object or array without quotes inside its strings is valid and rebuilds the tree. */
  lemma ParseLegal(v: Value)
    requires v.Group? && Legal(v) && 2 + Size(v.entries) <= NEXT_LIMIT && |Render(v)| < WORD_LIMIT
    ensures var text := Render(v);
            && Balanced(0, Lex(text, 0))
            && var b := Built(EMPTY, Lex(text, 0));
            && IsValid(b) && b.key == 0 && |b.nv| == 2 + Size(v.entries)
            && Represents(b.nv, text, 1, v)
  {
    hide Lex, ValueEvents, Built, Balanced, Own, Inner, Layout, Represents, RenderEntries, Legal, Size;
    var text, own := Render(v), Own(v, 0, 2);
    assert text[0..|text|] == text;
    LexValue(text, 0, v);
    LexEnd(text);
    RootPlaced(v);
    assert ValueEvents(v, 0) + [] == ValueEvents(v, 0);
    var b := Built(EMPTY, Lex(text, 0));
    var inner := Inner(v, 0, 2);
    assert b.nv[2..] == inner && b.nv[1] == own;
    OwnRepresents(b.nv, text, 1, v, 0, 2);
  }

  lemma LexEnd(text: string)
    ensures Lex(text, |text|) == []
  {
  }

  lemma RootPlaced(v: Value)
    requires v.Group? && 2 + Size(v.entries) <= NEXT_LIMIT && |Render(v)| < WORD_LIMIT
    ensures Balanced(0, ValueEvents(v, 0))
    ensures Built(EMPTY, ValueEvents(v, 0)) == Builder([BLANK, Own(v, 0, 2)] + Inner(v, 0, 2), [], 0)
    ensures |Inner(v, 0, 2)| == Size(v.entries)
  {
    hide Built, Balanced, Layout, Last, Head, RenderEntries, EntriesEvents, Attached, Size, Applied, Valid;
    var start, entries := [Start(v.kind)], EntriesEvents(v.entries, true, 1);
    var empty := Node(GroupType(v.kind), 0, 0, 0);
    RootStarted(v.kind);
    var b1 := Built(EMPTY, start);
    EntriesBuilt(b1, v.entries, true, 1);
    BuiltAppend(EMPTY, start, entries);
    var b2 := Built(EMPTY, start + entries);
    GroupEnded(b2);
    BuiltAppend(EMPTY, start + entries, [End]);
    RootFinished(v);
  }

  lemma RootStarted(kind: Kind)
    ensures Valid(EMPTY) && Balanced(0, [Start(kind)])
    ensures Built(EMPTY, [Start(kind)]) == Builder([BLANK, Node(GroupType(kind), 0, 0, 0)], [1], 0)
  {
    BuiltOne(EMPTY, Start(kind));
  }

  lemma RootFinished(v: Value)
    requires v.Group?
    ensures Attached([BLANK, Node(GroupType(v.kind), 0, 0, 0)], 1, Head(v.entries, 2), Last(v.entries, 2))
         == [BLANK, Own(v, 0, 2)]
    ensures ValueEvents(v, 0) == [Start(v.kind)] + EntriesEvents(v.entries, true, 1) + [End]
    ensures Inner(v, 0, 2) == Layout(v.entries, true, 1, 2)
  {
    hide Last, Layout, EntriesEvents;
    LastOfNone(2);
  }

  // ----- A quote inside a string is always lost -----

  ghost predicate Clean(text: string, pos: nat, size: nat) {
    pos + size <= |text| && forall k :: pos <= k < pos + size ==> text[k] != '\"'
  }

  ghost predicate CleanEvent(text: string, e: Event) {
    (e.KeyAt? || e.ScalarAt?) ==> Clean(text, e.pos, e.size)
  }

  ghost predicate CleanEvents(text: string, events: seq<Event>) {
    forall i :: 0 <= i < |events| ==> CleanEvent(text, events[i])
  }

  ghost predicate CleanNodes(nv: seq<Node>, text: string) {
    forall i :: 0 <= i < |nv| && nv[i].kind == Val ==> Clean(text, nv[i].a, nv[i].b)
  }

  lemma {:induction false} LexClean(text: string, i: nat)
    requires i <= |text|
    ensures CleanEvents(text, Lex(text, i))
    decreases |text| - i
  {
    if i < |text| {
      var c := text[i];
      var events := Lex(text, i);
      if c == '\"' {
        var e := Skip(text, i + 1, InString);
        if e < |text| {
          LexClean(text, Skip(text, e + 1, InSpace));
          assert Clean(text, i + 1, e - i - 1);
        }
      } else if c == '-' || c == '.' || IsDigit(c) {
        var e := Skip(text, i + 1, InNumber);
        LexClean(text, e);
        assert Clean(text, i, e - i);
      } else if c == 't' || c == 'f' || c == 'n' {
        var e := Skip(text, i + 1, InKeyword);
        LexClean(text, e);
        assert Clean(text, i, e - i);
      } else {
        LexClean(text, i + 1);
      }
    }
  }

  lemma LinkClean(nv: seq<Node>, c: nat, v: nat, text: string)
    requires c < |nv| && nv[c].b < |nv| && IsGroup(nv[c]) && CleanNodes(nv, text)
    ensures CleanNodes(Link(nv, c, v), text)
  {
    hide Clean;
  }

  lemma AppendClean(nv: seq<Node>, n: Node, text: string)
    requires CleanNodes(nv, text) && (n.kind == Val ==> Clean(text, n.a, n.b))
    ensures CleanNodes(nv + [n], text)
  {
    hide Clean;
  }

  lemma AddClean(b: Builder, v: nat, text: string)
    requires Valid(b) && v < |b.nv| && CleanNodes(b.nv, text)
    ensures CleanNodes(Add(b, v).nv, text)
  {
    hide Link, CleanNodes;
    if b.st != [] {
      var c := b.st[|b.st| - 1];
      if b.key != 0 {
        var kv := Node(KeyVal, 0, b.key, v);
        AppendClean(b.nv, kv, text);
        LinkClean(b.nv + [kv], c, |b.nv|, text);
      } else {
        LinkClean(b.nv, c, v, text);
      }
    }
  }

  lemma AppliedClean(b: Builder, e: Event, text: string)
    requires Valid(b) && (e.End? ==> b.st != []) && |text| < WORD_LIMIT
    requires CleanEvent(text, e) && CleanNodes(b.nv, text)
    ensures CleanNodes(Applied(b, e).nv, text)
  {
    hide CleanNodes, Add, Valid;
    match e
    case Start(kind) =>
      AppendClean(b.nv, Node(GroupType(kind), 0, 0, 0), text);
      AddClean(NewNode(b, GroupType(kind), 0, 0), |b.nv|, text);
    case End =>
    case KeyAt(pos, size) =>
      AppendClean(b.nv, Node(Val, 0, pos, size), text);
    case ScalarAt(pos, size) =>
      AppendClean(b.nv, Node(Val, 0, pos, size), text);
      AddClean(NewNode(b, Val, pos, size), |b.nv|, text);
  }

  lemma {:induction false} BuiltClean(b: Builder, events: seq<Event>, text: string)
    requires Valid(b) && Balanced(|b.st|, events) && |text| < WORD_LIMIT
    requires CleanEvents(text, events) && CleanNodes(b.nv, text)
    ensures CleanNodes(Built(b, events).nv, text)
    decreases |events|
  {
    hide Applied, CleanNodes, CleanEvent, Valid;
    if events != [] {
      DepthAfter(b, events[0]);
      AppliedClean(b, events[0], text);
      BuiltClean(Applied(b, events[0]), events[1..], text);
    }
  }

  lemma CleanText(nv: seq<Node>, text: string, i: nat, s: string)
    requires CleanNodes(nv, text) && IsText(nv, text, i, s)
    ensures '\"' !in s
  {
    var a := nv[i].a;
    assert forall k :: 0 <= k < |s| ==> s[k] == text[a..a + |s|][k] == text[a + k];
  }

  lemma {:induction false} RepresentsLegal(nv: seq<Node>, text: string, i: nat, v: Value)
    requires CleanNodes(nv, text) && Represents(nv, text, i, v)
    ensures Legal(v)
    decreases v
  {
    if v.Group? {
      ChainLegal(nv, text, nv[i].a, v.entries);
    } else {
      CleanText(nv, text, i, ScalarText(v));
    }
  }

  lemma {:induction false} ChainLegal(nv: seq<Node>, text: string, i: nat, es: Entries)
    requires CleanNodes(nv, text) && Chain(nv, text, i, es)
    ensures LegalEntries(es)
    decreases es
  {
    if es.Entry? {
      ChainLegal(nv, text, nv[i].next, es.tail);
      if es.key.Named? {
        CleanText(nv, text, nv[i].a, es.key.name);
        RepresentsLegal(nv, text, nv[i].b, es.value);
      } else {
        RepresentsLegal(nv, text, i, es.value);
      }
    }
  }

  /** Parsing the text of an object or array that needs at most 2^24 nodes rebuilds exactly the tree that was written if
      and only if none of its strings has a quote in it. */
  lemma ParseRendered(v: Value)
    requires v.Group? && 2 + Size(v.entries) <= NEXT_LIMIT && |Render(v)| < WORD_LIMIT
    ensures var text := Render(v);
            Legal(v) <==> (&& Balanced(0, Lex(text, 0))
                           && var b := Built(EMPTY, Lex(text, 0));
                           && IsValid(b)
                           && Represents(b.nv, text, 1, v))
  {
    hide Lex, Built, Balanced, Represents, Legal, CleanEvents, CleanNodes;
    var text := Render(v);
    if Legal(v) {
      ParseLegal(v);
    } else if Balanced(0, Lex(text, 0)) {
      LexClean(text, 0);
      EmptyClean(text);
      BuiltClean(EMPTY, Lex(text, 0), text);
      var b := Built(EMPTY, Lex(text, 0));
      if Represents(b.nv, text, 1, v) {
        RepresentsLegal(b.nv, text, 1, v);
      }
    }
  }

  lemma EmptyClean(text: string)
    ensures CleanNodes(EMPTY.nv, text)
  {
  }
}
