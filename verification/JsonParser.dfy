/** The parser: four scanning loops over the text, the node builder, and key lookup; and the whole round trip. */
module JsonParser {
  import opened JsonText
  import opened JsonTree
  import opened JsonLayout
  import opened JsonRoundTrip
  import W = JsonWriter

  // ----- Strings compared as the source does: equal lengths, then up to the first null character -----

  predicate SameUpToNull(a: string, b: string)
    requires |a| == |b|
  {
    a == "" || (a[0] == b[0] && (a[0] as int == 0 || SameUpToNull(a[1..], b[1..])))
  }

  predicate SameStr(a: string, b: string) {
    |a| == |b| && SameUpToNull(a, b)
  }

  lemma {:induction false} SameStrEqual(a: string, b: string)
    requires |a| == |b| && forall i :: 0 <= i < |a| ==> a[i] as int != 0
    ensures SameUpToNull(a, b) <==> a == b
  {
    if a != "" {
      SameStrEqual(a[1..], b[1..]);
      assert a == [a[0]] + a[1..] && b == [b[0]] + b[1..];
    }
  }

  // ----- Lookup -----

  /** The value of the first key that matches, if all entries before it have keys. */
  function Lookup(es: Entries, key: string): (r: Entries)
    ensures r.Entry? ==> r.key.Named? && SameStr(key, r.key.name)
  {
    match es
    case None => None
    case Entry(k, _, tail) => if k.NoKey? then None else if SameStr(key, k.name) then es else Lookup(tail, key)
  }

  // ----- Steps of the builder -----

  lemma OneEvent(b: Builder, text: string, i: nat, e: Event, j: nat)
    requires Valid(b) && i <= |text| && j <= |text| && Lex(text, i) == [e] + Lex(text, j)
    requires Balanced(|b.st|, Lex(text, i))
    ensures e.End? ==> b.st != []
    ensures var b1 := Applied(b, e);
            Valid(b1) && Balanced(|b1.st|, Lex(text, j)) && Built(b1, Lex(text, j)) == Built(b, Lex(text, i))
  {
    hide Applied, Valid, Lex;
    assert ([e] + Lex(text, j))[1..] == Lex(text, j) && ([e] + Lex(text, j))[0] == e;
    DepthAfter(b, e);
  }

  predicate StartsNumber(c: char) {
    c == '-' || c == '.' || IsDigit(c)
  }

  predicate StartsKeyword(c: char) {
    c == 't' || c == 'f' || c == 'n'
  }

  /** The scanner at one character of its start state. */
  lemma LexAt(text: string, i: nat)
    requires i < |text|
    ensures var c := text[i];
            && (c == '{' ==> Lex(text, i) == [Start(Object)] + Lex(text, i + 1))
            && (c == '[' ==> Lex(text, i) == [Start(Array)] + Lex(text, i + 1))
            && (c == '}' || c == ']' ==> Lex(text, i) == [End] + Lex(text, i + 1))
            && (c != '{' && c != '[' && c != '}' && c != ']' && c != '\"' && !StartsNumber(c) && !StartsKeyword(c)
                ==> Lex(text, i) == Lex(text, i + 1))
  {
  }

  /** The scanner at a quote: where the string ends and what kind of event it is. */
  lemma LexAtQuote(text: string, i: nat)
    requires i < |text| && text[i] == '\"'
    ensures var e := Skip(text, i + 1, InString);
            && (e == |text| ==> Lex(text, i) == [])
            && (e < |text| ==>
                  var p, n := Skip(text, e + 1, InSpace), e - i - 1;
                  && (p == |text| ==> Lex(text, i) == [])
                  && (p < |text| && text[p] == ':' ==> Lex(text, i) == [KeyAt(i + 1, n)] + Lex(text, p))
                  && (p < |text| && text[p] != ':' ==> Lex(text, i) == [ScalarAt(i + 1, n)] + Lex(text, p)))
  {
  }

  /** The scanner at the first character of a number or a keyword. */
  lemma LexAtWord(text: string, i: nat, span: Span)
    requires i < |text|
    requires (StartsNumber(text[i]) && span == InNumber) || (StartsKeyword(text[i]) && span == InKeyword)
    ensures var e := Skip(text, i + 1, span);
            Lex(text, i) == if e == |text| then [] else [ScalarAt(i, e - i)] + Lex(text, e)
  {
  }

  lemma NoEventsBuilt(b: Builder)
    requires Valid(b)
    ensures Balanced(|b.st|, []) && Built(b, []) == b
  {
  }

  datatype State = EStart | EString | ENumber | EKeyword

  class JTree {
    var nv: seq<Node>
    var st: seq<nat>
    var key: nat
    var buf: string

    constructor ()
      ensures Tree() == Builder([], [], 0)
    {
      nv, st, key, buf := [], [], 0, "";
    }

    function Tree(): Builder
      reads this
    {
      Builder(nv, st, key)
    }

    // ----- Nodes -----

    method MakeNode(kind: NodeType, i: nat, j: nat) returns (nxt: nat)
      requires Valid(Tree()) && (kind == ObjNode || kind == ArrNode ==> j == 0)
      modifies `nv
      ensures nxt == old(|nv|) && Tree() == NewNode(old(Tree()), kind, i, j)
    {
      nxt := |nv|;
      nv := nv + [Node(kind, 0, i, j)];
    }

    method AddArr(val: nat)
      requires st != [] && st[|st| - 1] < |nv| && nv[st[|st| - 1]].b < |nv|
      modifies `nv
      ensures nv == Link(old(nv), st[|st| - 1], val)
    {
      var c := st[|st| - 1];
      var t := nv[c].b;
      if t != 0 {
        nv := nv[t := nv[t].(next := val % NEXT_LIMIT)];
        nv := nv[c := nv[c].(b := val)];
      } else {
        nv := nv[c := nv[c].(a := val, b := val)];
      }
    }

    method AddObj(val: nat)
      requires Valid(Tree()) && st != [] && val < |nv|
      modifies `nv
      ensures nv == Link(old(nv) + [Node(KeyVal, 0, key, val)], st[|st| - 1], |old(nv)|)
    {
      var kvidx := MakeNode(KeyVal, key, val);
      AddArr(kvidx);
    }

    method AddNode(val: nat)
      requires Valid(Tree()) && val < |nv|
      modifies `nv, `key
      ensures Tree() == Add(old(Tree()), val)
    {
      if st != [] {
        if key != 0 {
          AddObj(val);
          key := 0;
        } else {
          AddArr(val);
        }
      }
    }

    method ParseStart(kind: Kind)
      requires Valid(Tree())
      modifies `nv, `key, `st
      ensures Tree() == Applied(old(Tree()), Start(kind))
    {
      var idx := MakeNode(GroupType(kind), 0, 0);
      AddNode(idx);
      st := st + [idx];
    }

    method ParseEnd()
      requires Valid(Tree()) && st != []
      modifies `st
      ensures Tree() == Applied(old(Tree()), End)
    {
      st := st[..|st| - 1];
    }

    method ParseKey(pos: nat, size: nat)
      requires Valid(Tree())
      modifies `nv, `key
      ensures Tree() == Applied(old(Tree()), KeyAt(pos, size))
    {
      key := MakeNode(Val, pos % WORD_LIMIT, size % WORD_LIMIT);
    }

    method ParseScalar(pos: nat, size: nat)
      requires Valid(Tree())
      modifies `nv, `key
      ensures Tree() == Applied(old(Tree()), ScalarAt(pos, size))
    {
      var idx := MakeNode(Val, pos % WORD_LIMIT, size % WORD_LIMIT);
      AddNode(idx);
    }

    // ----- Scanning -----

    /** The events from a place on are what is still missing from the tree. */
    ghost predicate Ahead(goal: Builder, from: nat)
      reads this
    {
      && from <= |buf| && Valid(Tree())
      && Balanced(|st|, Lex(buf, from)) && Built(Tree(), Lex(buf, from)) == goal
    }

    /** A string began behind a quote, a number or keyword where its text begins; nothing skipped so far ends it. */
    ghost predicate InState(s: State, txt: nat, cptr: nat)
      reads this
    {
      match s
      case EStart => txt == cptr <= |buf|
      case EString =>
        0 < txt <= cptr <= |buf| && buf[txt - 1] == '\"' && Skip(buf, txt, InString) == Skip(buf, cptr, InString)
      case ENumber =>
        txt < cptr <= |buf| && StartsNumber(buf[txt]) && Skip(buf, txt + 1, InNumber) == Skip(buf, cptr, InNumber)
      case EKeyword =>
        txt < cptr <= |buf| && StartsKeyword(buf[txt]) && Skip(buf, txt + 1, InKeyword) == Skip(buf, cptr, InKeyword)
    }

    static function From(s: State, txt: nat): nat {
      if s == EString && txt > 0 then txt - 1 else txt
    }

    /** Takes an event whose text runs up to the given place. */
    lemma Taken(goal: Builder, from: nat, e: Event, to: nat)
      requires Ahead(goal, from) && to <= |buf| && Lex(buf, from) == [e] + Lex(buf, to)
      ensures e.End? ==> st != []
      ensures var b := Applied(Tree(), e);
              Valid(b) && Balanced(|b.st|, Lex(buf, to)) && Built(b, Lex(buf, to)) == goal
    {
      OneEvent(Tree(), buf, from, e, to);
    }

    method ScanStart(start: nat, ghost goal: Builder) returns (cptr: nat, next: State, txt: nat, done: bool)
      requires Ahead(goal, start)
      modifies `nv, `st, `key
      ensures done ==> Tree() == goal
      ensures !done ==> next != EStart && InState(next, txt, cptr) && Ahead(goal, From(next, txt)) && cptr > start
    {
      hide Lex, Built, Balanced, Applied, Valid;
      cptr, next, txt, done := start, EStart, start, false;
      while true
        invariant start <= cptr && Ahead(goal, cptr)
        decreases |buf| - cptr
      {
        if cptr == |buf| {
          LexEnd(buf);
          NoEventsBuilt(Tree());
          done := true;
          return;
        }
        var c := buf[cptr];
        LexAt(buf, cptr);
        if c == '{' {
          Taken(goal, cptr, Start(Object), cptr + 1);
          ParseStart(Object);
        } else if c == '[' {
          Taken(goal, cptr, Start(Array), cptr + 1);
          ParseStart(Array);
        } else if c == '}' || c == ']' {
          Taken(goal, cptr, End, cptr + 1);
          ParseEnd();
        } else if c == '\"' {
          next, txt := EString, cptr + 1;
          break;
        } else if c == '-' || c == '.' || IsDigit(c) {
          next, txt := ENumber, cptr;
          break;
        } else if c == 't' || c == 'f' || c == 'n' {
          next, txt := EKeyword, cptr;
          break;
        }
        cptr := cptr + 1;
      }
      cptr := cptr + 1;
    }

    /** The loop of every state but the first: on to the first character outside the span, or the end. */
    method SkipOver(start: nat, span: Span) returns (cptr: nat)
      requires start <= |buf|
      ensures cptr == Skip(buf, start, span)
    {
      cptr := start;
      while cptr != |buf| && Inside(span, buf[cptr])
        invariant start <= cptr <= |buf| && Skip(buf, start, span) == Skip(buf, cptr, span)
        decreases |buf| - cptr
      {
        cptr := cptr + 1;
      }
    }

    method ScanString(txt: nat, start: nat, ghost goal: Builder) returns (cptr: nat, done: bool)
      requires InState(EString, txt, start) && Ahead(goal, txt - 1)
      modifies `nv, `key
      ensures done ==> Tree() == goal
      ensures !done ==> Ahead(goal, cptr) && cptr > start
    {
      hide Lex, Built, Balanced, Applied, Valid;
      LexAtQuote(buf, txt - 1);
      NoEventsBuilt(Tree());
      hide Skip;
      done := false;
      cptr := SkipOver(start, InString);
      if cptr == |buf| {
        done := true;
        return;
      }
      var etxt := cptr;
      cptr := SkipOver(cptr + 1, InSpace);
      if cptr == |buf| {
        done := true;
        return;
      }
      if buf[cptr] == ':' {
        Taken(goal, txt - 1, KeyAt(txt, etxt - txt), cptr);
        ParseKey(txt, etxt - txt);
      } else {
        Taken(goal, txt - 1, ScalarAt(txt, etxt - txt), cptr);
        ParseScalar(txt, etxt - txt);
      }
    }

    method ScanWord(s: State, txt: nat, start: nat, ghost goal: Builder) returns (cptr: nat, done: bool)
      requires (s == ENumber || s == EKeyword) && InState(s, txt, start) && Ahead(goal, txt)
      modifies `nv, `key
      ensures done ==> Tree() == goal
      ensures !done ==> Ahead(goal, cptr) && cptr >= start
    {
      hide Lex, Built, Balanced, Applied, Valid, Skip;
      var span := if s == ENumber then InNumber else InKeyword;
      LexAtWord(buf, txt, span);
      NoEventsBuilt(Tree());
      done := false;
      cptr := SkipOver(start, span);
      if cptr == |buf| {
        done := true;
      } else {
        Taken(goal, txt, ScalarAt(txt, cptr - txt), cptr);
        ParseScalar(txt, cptr - txt);
      }
    }

    /** Parses a text that closes no more groups than it opens: the tree is what its events build. */
    method Parse(text: string)
      requires Balanced(0, Lex(text, 0))
      modifies this
      ensures buf == text && Tree() == Built(EMPTY, Lex(text, 0))
    {
      hide Lex, Built, Balanced, Skip;
      nv, st, key, buf := [BLANK], [], 0, text;
      ghost var goal := Built(EMPTY, Lex(text, 0));
      var state, cptr, txt, done := EStart, 0, 0, false;
      while !done
        invariant buf == text
        invariant done ==> Tree() == goal
        invariant !done ==> InState(state, txt, cptr) && Ahead(goal, From(state, txt))
        decreases !done, |text| - cptr, if state == EStart then 0 else 1
      {
        if state == EStart {
          cptr, state, txt, done := ScanStart(cptr, goal);
        } else if state == EString {
          cptr, done := ScanString(txt, cptr, goal);
          state, txt := EStart, cptr;
        } else {
          cptr, done := ScanWord(state, txt, cptr, goal);
          state, txt := EStart, cptr;
        }
      }
    }

    method IsValidTree() returns (ok: bool)
      ensures ok <==> IsValid(Tree())
    {
      ok := |nv| > 1 && st == [];
    }

    // ----- Reading -----

    /** The value found for a key in a group is the value of its first entry with that key; 0 when there is none. */
    method FindVal(obj: nat, k: string, ghost v: Value) returns (r: nat)
      requires v.Group? && Represents(nv, buf, obj, v)
      ensures Lookup(v.entries, k).Entry? ==> r != 0 && Represents(nv, buf, r, Lookup(v.entries, k).value)
      ensures Lookup(v.entries, k).None? ==> r == 0
    {
      ghost var es := v.entries;
      var it := nv[obj].a;
      while it != 0
        invariant Chain(nv, buf, it, es) && Lookup(es, k) == Lookup(v.entries, k)
        decreases es
      {
        if nv[it].kind == KeyVal {
          var kn := nv[nv[it].a];
          if SameStr(k, buf[kn.a..kn.a + kn.b]) {
            return nv[it].b;
          }
        } else {
          break;
        }
        it := nv[it].next;
        es := es.tail;
      }
      r := 0;
    }
  }

  /** Every well-nested run of the writer with an object or array at the root, no quotes inside strings and at most 2^24
      nodes: parsing its text is valid and rebuilds the tree it wrote. */
  lemma ParseWritten(ops: seq<W.Op>, v: Value)
    requires W.WellNested(0, ops) && W.Net(ops) == 0 && W.ScalarsOnly(ops)
    requires W.Read(ops).0 == Entry(NoKey, v, None) && v.Group? && Legal(v)
    requires 2 + Size(v.entries) <= NEXT_LIMIT && |Render(v)| < WORD_LIMIT
    ensures var text := W.WrittenAll(W.START, ops).text;
            && text == Render(v)
            && Balanced(0, Lex(text, 0))
            && var b := Built(EMPTY, Lex(text, 0));
            && IsValid(b) && |b.nv| == 2 + Size(v.entries)
            && Represents(b.nv, text, 1, v)
  {
    hide Lex, Built, Balanced, Represents, Legal, Render, Size;
    W.EveryRun(ops);
    OneEntry(v);
    ParseLegal(v);
  }

  lemma OneEntry(v: Value)
    ensures RenderEntries(Entry(NoKey, v, None), true) == Render(v)
  {
    assert "" + "" + Render(v) + "" == Render(v);
  }
}
