/** The JSON writer: its operations, the text of every well-nested run, and integers as text and back. */
module JsonWriter {
  import opened JsonText

  // ----- Integers -----

  /** The digits, from the last to the first, then the sign. */
  method IntToStr(val: int) returns (s: string)
    ensures s == IntText(val)
  {
    s := "";
    if val != 0 {
      var v := if val < 0 then -val else val;
      ghost var n := v;
      while v != 0
        invariant v >= 0
        invariant v > 0 ==> Decimal(n) == Decimal(v) + s
        invariant v == 0 ==> Decimal(n) == s
      {
        ghost var was := s;
        assert v < 10 ==> Decimal(v) == [Digit(v % 10)];
        assert v >= 10 ==> Decimal(v) + was == Decimal(v / 10) + ([Digit(v % 10)] + was);
        s := [Digit(v % 10)] + s;
        v := v / 10;
      }
      if val < 0 {
        s := "-" + s;
      }
    } else {
      s := "0";
      assert IntText(0) == [Digit(0)];
    }
  }

  /** The value scanned so far and the text still to scan: any character but a digit or a minus sign gives 0. */
  function ScannedInt(s: string, neg: bool, res: int): int {
    if s == "" then if neg then -res else res
    else if IsDigit(s[0]) then ScannedInt(s[1..], neg, res * 10 + (s[0] as int - 48))
    else if s[0] == '-' then ScannedInt(s[1..], true, res)
    else 0
  }

  method StrToInt(s: string) returns (r: int)
    ensures r == ScannedInt(s, false, 0)
  {
    var neg, res := false, 0;
    var i := 0;
    while i < |s|
      invariant i <= |s| && ScannedInt(s[i..], neg, res) == ScannedInt(s, false, 0)
    {
      if IsDigit(s[i]) {
        res := res * 10 + (s[i] as int - 48);
      } else if s[i] == '-' {
        neg := true;
      } else {
        return 0;
      }
      i := i + 1;
    }
    r := if neg then -res else res;
  }

  lemma {:induction false} DecimalScanned(n: nat, t: string, neg: bool)
    ensures ScannedInt(Decimal(n) + t, neg, 0) == ScannedInt(t, neg, n)
  {
    var d := [Digit(n % 10)];
    DigitChar(n % 10);
    assert (d + t)[1..] == t;
    if n >= 10 {
      DecimalScanned(n / 10, d + t, neg);
      assert Decimal(n) + t == Decimal(n / 10) + (d + t);
      assert n / 10 * 10 + n % 10 == n;
    }
  }

  /** An integer written as text is read back. */
  lemma IntReadsBack(i: int)
    ensures ScannedInt(IntText(i), false, 0) == i
  {
    var d := Decimal(if i < 0 then -i else i);
    DecimalScanned(if i < 0 then -i else i, "", i < 0);
    assert d + "" == d;
    if i < 0 {
      assert IntText(i)[1..] == d;
    }
  }

  // ----- Operations -----

  /** A scalar or the opening of a group, with or without a key, or the closing of the innermost group. */
  datatype Op = Put(key: Key, value: Value) | Begin(key: Key, kind: Kind) | Pop

  datatype Written = Written(text: string, first: bool, st: seq<Kind>)

  const START := Written("", true, [])

  function WrittenOp(w: Written, op: Op): Written
    requires op.Pop? ==> w.st != []
  {
    match op
    case Put(key, value) =>
      Written(w.text + Separator(w.first) + KeyText(key) + Render(value), false, w.st)
    case Begin(key, kind) =>
      Written(w.text + Separator(w.first) + KeyText(key) + [Opening(kind)], true, w.st + [kind])
    case Pop => Written(w.text + [Closing(w.st[|w.st| - 1])], false, w.st[..|w.st| - 1])
  }

  /** Every pop closes a group that was opened. */
  predicate WellNested(depth: nat, ops: seq<Op>)
    decreases |ops|
  {
    if ops == [] then true else
      match ops[0]
      case Put(_, _) => WellNested(depth, ops[1..])
      case Begin(_, _) => WellNested(depth + 1, ops[1..])
      case Pop => depth > 0 && WellNested(depth - 1, ops[1..])
  }

  function WrittenAll(w: Written, ops: seq<Op>): Written
    requires WellNested(|w.st|, ops)
    decreases |ops|
  {
    if ops == [] then w else WrittenAll(WrittenOp(w, ops[0]), ops[1..])
  }

  lemma {:induction false} WrittenAppend(w: Written, x: seq<Op>, y: seq<Op>)
    requires WellNested(|w.st|, x) && WellNested(|WrittenAll(w, x).st|, y)
    ensures WellNested(|w.st|, x + y) && WrittenAll(w, x + y) == WrittenAll(WrittenAll(w, x), y)
    decreases |x|
  {
    if x == [] {
      assert [] + y == y;
    } else {
      assert (x + y)[1..] == x[1..] + y && (x + y)[0] == x[0];
      WrittenAppend(WrittenOp(w, x[0]), x[1..], y);
    }
  }

  // ----- The run that writes a list of entries -----

  function Run(es: Entries): seq<Op>
    decreases es
  {
    match es
    case None => []
    case Entry(key, value, tail) => EntryRun(key, value) + Run(tail)
  }

  function EntryRun(key: Key, value: Value): seq<Op>
    decreases value
  {
    if value.Group? then [Begin(key, value.kind)] + Run(value.entries) + [Pop] else [Put(key, value)]
  }

  /** Writing entries appends exactly their text. */
  lemma {:induction false} RunWrites(w: Written, es: Entries)
    ensures WellNested(|w.st|, Run(es))
    ensures WrittenAll(w, Run(es)) == Written(w.text + RenderEntries(es, w.first), w.first && es.None?, w.st)
    decreases es, 0
  {
    hide Render, RenderEntries, KeyText, Separator, WrittenAll, WellNested, EntryRun;
    EntryParts(es, w.first, 0);
    match es
    case None =>
      NothingWritten(w);
    case Entry(key, value, tail) =>
      var s, k, r, t := Separator(w.first), KeyText(key), Render(value), RenderEntries(tail, false);
      EntryWritten(w, key, value);
      var w1 := WrittenAll(w, EntryRun(key, value));
      RunWrites(w1, tail);
      WrittenAppend(w, EntryRun(key, value), Run(tail));
      Joined(w.text, s, k, r, t);
  }

  lemma Joined(a: string, b: string, c: string, d: string, e: string)
    ensures a + b + c + d + e == a + (b + (c + (d + e)))
  {
  }

  lemma NothingWritten(w: Written)
    ensures WellNested(|w.st|, []) && WrittenAll(w, []) == w == Written(w.text + "", w.first, w.st)
  {
    assert w.text + "" == w.text;
  }

  lemma OneOp(w: Written, op: Op)
    requires op.Pop? ==> w.st != []
    ensures WellNested(|w.st|, [op]) && WrittenAll(w, [op]) == WrittenOp(w, op)
  {
    assert [op][1..] == [];
  }

  lemma {:induction false} EntryWritten(w: Written, key: Key, value: Value)
    ensures WellNested(|w.st|, EntryRun(key, value))
    ensures WrittenAll(w, EntryRun(key, value))
         == Written(w.text + Separator(w.first) + KeyText(key) + Render(value), false, w.st)
    decreases value
  {
    hide RenderEntries, KeyText, Separator, WrittenAll, WellNested, Run;
    if value.Group? {
      var front := w.text + Separator(w.first) + KeyText(key);
      var begin, inner := Begin(key, value.kind), Run(value.entries);
      OneOp(w, begin);
      RunWrites(WrittenOp(w, begin), value.entries);
      WrittenAppend(w, [begin], inner);
      var w2 := WrittenAll(w, [begin] + inner);
      OneOp(w2, Pop);
      WrittenAppend(w, [begin] + inner, [Pop]);
      assert (w.st + [value.kind])[..|w.st|] == w.st;
      Joined(front, [Opening(value.kind)], RenderEntries(value.entries, true), [Closing(value.kind)], "");
    } else {
      OneOp(w, Put(key, value));
    }
  }

  // ----- Every well-nested run writes some entries -----

  function Net(ops: seq<Op>): int {
    if ops == [] then 0 else (if ops[0].Begin? then 1 else if ops[0].Pop? then -1 else 0) + Net(ops[1..])
  }

  /** The entries at the front of a run, up to the pop of the group they are in. */
  function Read(ops: seq<Op>): (r: (Entries, seq<Op>))
    ensures |r.1| <= |ops|
    decreases |ops|
  {
    if ops == [] || ops[0].Pop? then (None, ops)
    else if ops[0].Put? then
      var (tail, rest) := Read(ops[1..]);
      (Entry(ops[0].key, ops[0].value, tail), rest)
    else
      var (inner, after) := Read(ops[1..]);
      if after == [] then (None, ops) else
        var (tail, rest) := Read(after[1..]);
        (Entry(ops[0].key, Group(ops[0].kind, inner), tail), rest)
  }

  lemma {:induction false} NetAppend(x: seq<Op>, y: seq<Op>)
    ensures Net(x + y) == Net(x) + Net(y)
    decreases |x|
  {
    if x == [] {
      assert [] + y == y;
    } else {
      assert (x + y)[1..] == x[1..] + y;
      NetAppend(x[1..], y);
    }
  }

  lemma {:induction false} NetOfRun(es: Entries)
    ensures Net(Run(es)) == 0
    decreases es
  {
    if es.Entry? {
      NetOfRun(es.tail);
      if es.value.Group? {
        var b, inner := Begin(es.key, es.value.kind), Run(es.value.entries);
        NetOfRun(es.value.entries);
        NetAppend([b], inner);
        NetAppend([b] + inner, [Pop]);
        assert Net([b]) == 1 + Net([]) && Net([Pop]) == -1 + Net([]);
        NetAppend([b] + inner + [Pop], Run(es.tail));
      } else {
        NetAppend([Put(es.key, es.value)], Run(es.tail));
      }
    }
  }

  predicate ScalarsOnly(ops: seq<Op>) {
    forall i :: 0 <= i < |ops| && ops[i].Put? ==> !ops[i].value.Group?
  }

  lemma {:induction false} ReadRun(ops: seq<Op>)
    requires Net(ops) <= 0 && ScalarsOnly(ops)
    ensures var (es, rest) := Read(ops);
            ops == Run(es) + rest && (rest == [] || rest[0].Pop?)
    decreases |ops|
  {
    hide Run;
    NoRun();
    if ops != [] && !ops[0].Pop? {
      var op := ops[0];
      var (inner, after) := Read(ops[1..]);
      ReadRun(ops[1..]);
      if op.Begin? {
        NetOfRun(inner);
        NetAppend(Run(inner), after);
        assert after[1..] == ops[1..][|ops| - |after|..];
        ReadRun(after[1..]);
        var (tail, rest) := Read(after[1..]);
        RunOfGroup(op.key, op.kind, inner, tail);
        Nested(ops, op, Run(inner), after, Run(tail), rest);
      } else {
        RunOfScalar(op.key, op.value, inner);
      }
    }
  }

  lemma NoRun()
    ensures Run(None) == []
  {
  }

  lemma RunOfScalar(key: Key, value: Value, tail: Entries)
    requires !value.Group?
    ensures Run(Entry(key, value, tail)) == [Put(key, value)] + Run(tail)
  {
  }

  lemma RunOfGroup(key: Key, kind: Kind, inner: Entries, tail: Entries)
    ensures Run(Entry(key, Group(kind, inner), tail)) == [Begin(key, kind)] + Run(inner) + [Pop] + Run(tail)
  {
  }

  lemma Nested(ops: seq<Op>, op: Op, inner: seq<Op>, after: seq<Op>, tail: seq<Op>, rest: seq<Op>)
    requires ops != [] && ops[0] == op && ops[1..] == inner + after
    requires after != [] && after[0] == Pop && after[1..] == tail + rest
    ensures ops == [op] + inner + [Pop] + tail + rest
  {
    assert ops == [op] + ops[1..];
    assert after == [Pop] + after[1..];
  }

  lemma {:induction false} NestedSuffix(depth: nat, es: Entries, rest: seq<Op>)
    requires WellNested(depth, Run(es) + rest)
    ensures WellNested(depth, rest)
    decreases es
  {
    hide Run;
    NoRun();
    if es.Entry? {
      var ops, after := Run(es) + rest, Run(es.tail) + rest;
      if es.value.Group? {
        var inner := Run(es.value.entries);
        RunOfGroup(es.key, es.value.kind, es.value.entries, es.tail);
        assert ops == [Begin(es.key, es.value.kind)] + (inner + ([Pop] + after));
        assert ops[1..] == inner + ([Pop] + after);
        NestedSuffix(depth + 1, es.value.entries, [Pop] + after);
        assert ([Pop] + after)[1..] == after;
      } else {
        RunOfScalar(es.key, es.value, es.tail);
        assert ops == [Put(es.key, es.value)] + after;
        assert ops[1..] == after;
      }
      NestedSuffix(depth, es.tail, rest);
    } else {
      assert [] + rest == rest;
    }
  }

  /** A run that closes every group it opens, and no other, is the run of the entries read off it. */
  lemma EveryRun(ops: seq<Op>)
    requires WellNested(0, ops) && Net(ops) == 0 && ScalarsOnly(ops)
    ensures ops == Run(Read(ops).0)
    ensures WrittenAll(START, ops).text == RenderEntries(Read(ops).0, true)
  {
    var (es, rest) := Read(ops);
    ReadRun(ops);
    NestedSuffix(0, es, rest);
    assert rest == [];
    assert Run(es) + [] == Run(es);
    RunWrites(START, es);
    assert "" + RenderEntries(es, true) == RenderEntries(es, true);
  }

  // ----- The writer -----

  class Writer {
    var text: string
    var first: bool
    var st: seq<Kind>

    constructor ()
      ensures State() == START
    {
      text, first, st := "", true, [];
    }

    function State(): Written
      reads this
    {
      Written(text, first, st)
    }

    method Reset()
      modifies this
      ensures State() == START
    {
      text, first, st := "", true, [];
    }

    method AddFirst()
      modifies this
      ensures State() == old(Written(text + Separator(first), false, st))
    {
      if !first {
        text := text + ",";
      }
      first := false;
    }

    method AddText(s: string)
      modifies this
      ensures State() == old(Written(text + Quoted(s), first, st))
    {
      text := text + "\"";
      text := text + s;
      text := text + "\"";
      assert old(text) + "\"" + s + "\"" == old(text) + Quoted(s);
    }

    method AddKeyOnly(key: string)
      modifies this
      ensures State() == old(Written(text + Separator(first) + KeyText(Named(key)), false, st))
    {
      AddFirst();
      ghost var t := text;
      AddText(key);
      text := text + ":";
      assert t + Quoted(key) + ":" == t + KeyText(Named(key));
    }

    method AddInt(i: int)
      modifies this
      ensures State() == old(Written(text + IntText(i), first, st))
    {
      var s := IntToStr(i);
      text := text + s;
    }

    method AddScalar(v: Value)
      requires !v.Group?
      modifies this
      ensures State() == old(Written(text + Render(v), first, st))
    {
      match v
      case Str(s) => AddText(s);
      case Int(i) => AddInt(i);
      case Null => text := text + "null";
      case True => text := text + "true";
      case False => text := text + "false";
    }

    method AddGroup(kind: Kind)
      modifies this
      ensures State() == old(Written(text + [Opening(kind)], true, st + [kind]))
    {
      text := text + [Opening(kind)];
      first := true;
      st := st + [kind];
    }

    method AddKey(key: string, v: Value)
      requires !v.Group?
      modifies this
      ensures State() == WrittenOp(old(State()), Put(Named(key), v))
    {
      AddKeyOnly(key);
      AddScalar(v);
    }

    method AddKeyGroup(key: string, kind: Kind)
      modifies this
      ensures State() == WrittenOp(old(State()), Begin(Named(key), kind))
    {
      AddKeyOnly(key);
      AddGroup(kind);
    }

    method AddVal(v: Value)
      requires !v.Group?
      modifies this
      ensures State() == WrittenOp(old(State()), Put(NoKey, v))
    {
      AddFirst();
      AddScalar(v);
      assert old(text) + Separator(old(first)) + "" == old(text) + Separator(old(first));
    }

    method AddValGroup(kind: Kind)
      modifies this
      ensures State() == WrittenOp(old(State()), Begin(NoKey, kind))
    {
      AddFirst();
      AddGroup(kind);
      assert old(text) + Separator(old(first)) + "" == old(text) + Separator(old(first));
    }

    method PopGroup()
      requires st != []
      modifies this
      ensures State() == WrittenOp(old(State()), Pop)
    {
      text := text + (if st[|st| - 1] == Object then "}" else "]");
      st := st[..|st| - 1];
      first := false;
    }
  }
}
