/** JSON values, the text the writer gives them, and the events the parser's scanner finds in a text. */
module JsonText {

  datatype Kind = Object | Array
  datatype Key = NoKey | Named(name: string)
  datatype Value = Str(text: string) | Int(i: int) | Null | True | False | Group(kind: Kind, entries: Entries)

  /** The members of an object or the elements of an array, in order. */
  datatype Entries = None | Entry(key: Key, value: Value, tail: Entries)

  // ----- Text -----

  function Digit(d: nat): char
    requires d < 10
  {
    (48 + d) as char
  }

  function Decimal(n: nat): (s: string)
    ensures s != ""
  {
    if n < 10 then [Digit(n)] else Decimal(n / 10) + [Digit(n % 10)]
  }

  function IntText(i: int): (s: string)
    ensures s != ""
  {
    if i < 0 then "-" + Decimal(-i) else Decimal(i)
  }

  function Quoted(s: string): string {
    "\"" + s + "\""
  }

  function Opening(kind: Kind): char {
    if kind.Object? then '{' else '['
  }

  function Closing(kind: Kind): char {
    if kind.Object? then '}' else ']'
  }

  function Separator(first: bool): string {
    if first then "" else ","
  }

  function KeyText(key: Key): string {
    if key.NoKey? then "" else Quoted(key.name) + ":"
  }

  function Render(v: Value): (s: string)
    ensures s != ""
  {
    match v
    case Str(text) => Quoted(text)
    case Int(i) => IntText(i)
    case Null => "null"
    case True => "true"
    case False => "false"
    case Group(kind, entries) => [Opening(kind)] + RenderEntries(entries, true) + [Closing(kind)]
  }

  function RenderEntries(es: Entries, first: bool): string {
    match es
    case None => ""
    case Entry(key, value, tail) => Separator(first) + KeyText(key) + Render(value) + RenderEntries(tail, false)
  }

  ghost function MemberText(key: Key, value: Value): string {
    (match key case NoKey => "" case Named(name) => "\"" + name + "\":") + Render(value)
  }

  ghost function MemberTexts(es: Entries): seq<string> {
    match es
    case None => []
    case Entry(key, value, tail) => [MemberText(key, value)] + MemberTexts(tail)
  }

  ghost function JoinedByCommas(parts: seq<string>): string {
    if parts == [] then "" else if |parts| == 1 then parts[0] else parts[0] + "," + JoinedByCommas(parts[1..])
  }

  lemma MemberIs(key: Key, value: Value)
    ensures KeyText(key) + Render(value) == MemberText(key, value)
  {
    hide Render;
    if key.Named? {
      assert Quoted(key.name) + ":" == "\"" + key.name + "\":";
    }
  }

  lemma JoinedCons(first: string, rest: seq<string>)
    ensures JoinedByCommas([first] + rest) == first + if rest == [] then "" else "," + JoinedByCommas(rest)
  {
    assert ([first] + rest)[1..] == rest;
    assert first + "" == first;
  }

  lemma {:induction false} EntriesJoined(es: Entries, first: bool)
    ensures RenderEntries(es, first) == (if first || es.None? then "" else ",") + JoinedByCommas(MemberTexts(es))
  {
    hide Render, KeyText, MemberText, JoinedByCommas;
    match es
    case None =>
      assert JoinedByCommas([]) == "" by { NothingJoined(); }
    case Entry(key, value, tail) =>
      EntriesJoined(tail, false);
      MemberIs(key, value);
      JoinedCons(MemberText(key, value), MemberTexts(tail));
      var r := RenderEntries(tail, false);
      assert RenderEntries(es, first) == Separator(first) + (KeyText(key) + Render(value)) + r;
      if tail.None? {
        NothingJoined();
        assert r == "";
      }
  }

  lemma NothingJoined()
    ensures JoinedByCommas([]) == ""
  {
  }

  /** The text of a group and of the literals, as RFC 8259 has them: the members joined by commas, within brackets. */
  lemma GroupText(kind: Kind, es: Entries)
    ensures Render(Group(kind, es))
         == (if kind.Object? then "{" else "[") + JoinedByCommas(MemberTexts(es)) + (if kind.Object? then "}" else "]")
    ensures Render(True) == "true" && Render(False) == "false" && Render(Null) == "null"
  {
    hide RenderEntries, JoinedByCommas, MemberTexts;
    EntriesJoined(es, true);
    assert "" + JoinedByCommas(MemberTexts(es)) == JoinedByCommas(MemberTexts(es));
    assert RenderEntries(es, true) == JoinedByCommas(MemberTexts(es));
  }

  /** No quotes inside strings: the writer does not escape them. */
  predicate Legal(v: Value) {
    match v
    case Str(text) => '\"' !in text
    case Group(_, entries) => LegalEntries(entries)
    case _ => true
  }

  predicate LegalEntries(es: Entries) {
    match es
    case None => true
    case Entry(key, value, tail) => (key.Named? ==> '\"' !in key.name) && Legal(value) && LegalEntries(tail)
  }

  // ----- The scanner -----

  predicate IsDigit(c: char) {
    '0' <= c <= '9'
  }

  predicate IsSpace(c: char) {
    c == ' ' || 9 <= c as int <= 13
  }

  predicate IsLetter(c: char) {
    'a' <= c <= 'z' || 'A' <= c <= 'Z'
  }

  datatype Span = InString | InSpace | InNumber | InKeyword

  predicate Inside(span: Span, c: char) {
    match span
    case InString => c != '\"'
    case InSpace => IsSpace(c)
    case InNumber => IsDigit(c) || c == '.' || c == '-' || c == 'e' || c == '+'
    case InKeyword => IsLetter(c)
  }

  /** The first place from i on that is not inside the span, or the end. */
  function Skip(text: string, i: nat, span: Span): (r: nat)
    requires i <= |text|
    ensures i <= r <= |text| && (r < |text| ==> !Inside(span, text[r]))
    ensures forall k :: i <= k < r ==> Inside(span, text[k])
    decreases |text| - i
  {
    if i < |text| && Inside(span, text[i]) then Skip(text, i + 1, span) else i
  }

  datatype Event = Start(kind: Kind) | End | KeyAt(pos: nat, size: nat) | ScalarAt(pos: nat, size: nat)

  /** The events from place i on. A string, number or keyword that runs into the end of the text is dropped. */
  function Lex(text: string, i: nat): seq<Event>
    requires i <= |text|
    decreases |text| - i
  {
    if i == |text| then [] else
      var c := text[i];
      if c == '{' then [Start(Object)] + Lex(text, i + 1)
      else if c == '[' then [Start(Array)] + Lex(text, i + 1)
      else if c == '}' || c == ']' then [End] + Lex(text, i + 1)
      else if c == '\"' then
        var e := Skip(text, i + 1, InString);
        if e == |text| then [] else
          var p := Skip(text, e + 1, InSpace);
          if p == |text| then []
          else [if text[p] == ':' then KeyAt(i + 1, e - i - 1) else ScalarAt(i + 1, e - i - 1)] + Lex(text, p)
      else if c == '-' || c == '.' || IsDigit(c) then
        var e := Skip(text, i + 1, InNumber);
        if e == |text| then [] else [ScalarAt(i, e - i)] + Lex(text, e)
      else if c == 't' || c == 'f' || c == 'n' then
        var e := Skip(text, i + 1, InKeyword);
        if e == |text| then [] else [ScalarAt(i, e - i)] + Lex(text, e)
      else Lex(text, i + 1)
  }

  // ----- The events of a rendered value -----

  function ValueEvents(v: Value, at: nat): seq<Event> {
    match v
    case Str(text) => [ScalarAt(at + 1, |text|)]
    case Group(kind, entries) => [Start(kind)] + EntriesEvents(entries, true, at + 1) + [End]
    case _ => [ScalarAt(at, |Render(v)|)]
  }

  function EntriesEvents(es: Entries, first: bool, at: nat): seq<Event> {
    match es
    case None => []
    case Entry(key, value, tail) =>
      var k := at + |Separator(first)|;
      var v := k + |KeyText(key)|;
      KeyEvents(key, k) + ValueEvents(value, v) + EntriesEvents(tail, false, v + |Render(value)|)
  }

  function KeyEvents(key: Key, at: nat): seq<Event> {
    if key.NoKey? then [] else [KeyAt(at + 1, |key.name|)]
  }

  /** What comes after a value inside a group. */
  predicate Delimits(c: char) {
    c == ',' || c == ']' || c == '}'
  }

  ghost predicate Holds(text: string, at: nat, s: string) {
    at + |s| <= |text| && text[at..at + |s|] == s
  }

  lemma HoldsAt(text: string, at: nat, s: string, k: nat)
    requires Holds(text, at, s) && k < |s|
    ensures text[at + k] == s[k]
  {
    assert text[at..at + |s|][k] == s[k];
  }

  lemma HoldsPart(text: string, at: nat, a: string, b: string)
    requires Holds(text, at, a + b)
    ensures Holds(text, at, a) && Holds(text, at + |a|, b)
  {
    assert text[at..at + |a|] == text[at..at + |a + b|][..|a|] == a;
    assert text[at + |a|..at + |a| + |b|] == text[at..at + |a + b|][|a|..] == b;
  }

  lemma DigitChar(d: nat)
    requires d < 10
    ensures IsDigit(Digit(d)) && Digit(d) as int == 48 + d
  {
  }

  predicate AllInside(span: Span, s: string) {
    forall k :: 0 <= k < |s| ==> Inside(span, s[k])
  }

  lemma {:induction false} DecimalChars(n: nat)
    ensures AllInside(InNumber, Decimal(n)) && IsDigit(Decimal(n)[0])
  {
    DigitChar(n % 10);
    if n >= 10 {
      DecimalChars(n / 10);
    }
  }

  lemma IntChars(i: int)
    ensures AllInside(InNumber, IntText(i)) && (IntText(i)[0] == '-' || IsDigit(IntText(i)[0]))
  {
    DecimalChars(if i < 0 then -i else i);
  }

  /** A span ends where it is seen to end. */
  lemma SkipEnds(text: string, i: nat, e: nat, span: Span)
    requires i <= e < |text| && !Inside(span, text[e]) && forall k :: i <= k < e ==> Inside(span, text[k])
    ensures Skip(text, i, span) == e
  {
  }

  lemma LexString(text: string, at: nat, s: string, next: nat)
    requires Holds(text, at, Quoted(s)) && '\"' !in s && next == at + |s| + 2 && next < |text| && !IsSpace(text[next])
    ensures Lex(text, at)
         == [if text[next] == ':' then KeyAt(at + 1, |s|) else ScalarAt(at + 1, |s|)] + Lex(text, next)
  {
    var q := Quoted(s);
    HoldsAt(text, at, q, 0);
    HoldsAt(text, at, q, |s| + 1);
    forall k | at + 1 <= k < next - 1 ensures Inside(InString, text[k]) {
      HoldsAt(text, at, q, k - at);
      assert q[k - at] == s[k - at - 1];
    }
    SkipEnds(text, at + 1, next - 1, InString);
    SkipEnds(text, next, next, InSpace);
  }

  lemma LexInt(text: string, at: nat, i: int)
    requires var s := IntText(i); Holds(text, at, s) && at + |s| < |text| && Delimits(text[at + |s|])
    ensures var s := IntText(i); Lex(text, at) == [ScalarAt(at, |s|)] + Lex(text, at + |s|)
  {
    var s := IntText(i);
    IntChars(i);
    HoldsAt(text, at, s, 0);
    forall k | at + 1 <= k < at + |s| ensures Inside(InNumber, text[k]) {
      HoldsAt(text, at, s, k - at);
    }
    SkipEnds(text, at + 1, at + |s|, InNumber);
  }

  lemma LexWord(text: string, at: nat, w: string)
    requires w != "" && AllInside(InKeyword, w) && (w[0] == 't' || w[0] == 'f' || w[0] == 'n')
    requires Holds(text, at, w) && at + |w| < |text| && Delimits(text[at + |w|])
    ensures Lex(text, at) == [ScalarAt(at, |w|)] + Lex(text, at + |w|)
  {
    HoldsAt(text, at, w, 0);
    forall k | at + 1 <= k < at + |w| ensures Inside(InKeyword, text[k]) {
      HoldsAt(text, at, w, k - at);
    }
    SkipEnds(text, at + 1, at + |w|, InKeyword);
  }

  lemma LexBrackets(text: string, at: nat, close: nat, kind: Kind)
    requires Holds(text, at, [Opening(kind)]) && Holds(text, close, [Closing(kind)])
    ensures Lex(text, at) == [Start(kind)] + Lex(text, at + 1)
    ensures Lex(text, close) == [End] + Lex(text, close + 1) && Delimits(text[close])
  {
    HoldsAt(text, at, [Opening(kind)], 0);
    HoldsAt(text, close, [Closing(kind)], 0);
  }

  /** Scanning a rendered value yields its events, and goes on after it. */
  lemma {:induction false} LexValue(text: string, at: nat, v: Value)
    requires Legal(v) && Holds(text, at, Render(v))
    requires v.Group? || (at + |Render(v)| < |text| && Delimits(text[at + |Render(v)|]))
    ensures Lex(text, at) == ValueEvents(v, at) + Lex(text, at + |Render(v)|)
    decreases v
  {
    hide Lex, Holds, RenderEntries, EntriesEvents, IntText;
    match v
    case Str(s) => LexString(text, at, s, at + |s| + 2);
    case Int(i) => LexInt(text, at, i);
    case Null => LexWord(text, at, "null");
    case True => LexWord(text, at, "true");
    case False => LexWord(text, at, "false");
    case Group(kind, entries) =>
      var inner := RenderEntries(entries, true);
      var close := at + 1 + |inner|;
      GroupParts(text, at, kind, inner);
      LexBrackets(text, at, close, kind);
      LexEntries(text, at + 1, entries, true);
      Regroup(Lex(text, at), Lex(text, at + 1), Lex(text, close), Lex(text, close + 1),
              [Start(kind)], EntriesEvents(entries, true, at + 1), [End]);
  }

  lemma GroupParts(text: string, at: nat, kind: Kind, inner: string)
    requires Holds(text, at, [Opening(kind)] + inner + [Closing(kind)])
    ensures Holds(text, at, [Opening(kind)]) && Holds(text, at + 1, inner)
    ensures Holds(text, at + 1 + |inner|, [Closing(kind)])
  {
    assert [Opening(kind)] + inner + [Closing(kind)] == [Opening(kind)] + (inner + [Closing(kind)]);
    HoldsPart(text, at, [Opening(kind)], inner + [Closing(kind)]);
    HoldsPart(text, at + 1, inner, [Closing(kind)]);
  }

  lemma {:induction false} LexEntries(text: string, at: nat, es: Entries, first: bool)
    requires LegalEntries(es) && Holds(text, at, RenderEntries(es, first))
    requires var end := at + |RenderEntries(es, first)|; end < |text| && Delimits(text[end])
    ensures Lex(text, at) == EntriesEvents(es, first, at) + Lex(text, at + |RenderEntries(es, first)|)
    decreases es
  {
    hide Lex, Holds, ValueEvents, EntriesEvents, Render, RenderEntries, KeyEvents, KeyText, Separator, Legal, Delimits;
    EntryParts(es, first, at);
    match es
    case None =>
    case Entry(key, value, tail) =>
      var s, k, r, t := Separator(first), KeyText(key), Render(value), RenderEntries(tail, false);
      var atKey := at + |s|;
      var atValue := atKey + |k|;
      var atTail := atValue + |r|;
      HoldsPart(text, at, s, k + (r + t));
      HoldsPart(text, atKey, k, r + t);
      HoldsPart(text, atValue, r, t);
      Delimited(text, atTail, tail);
      LexEntries(text, atTail, tail, false);
      LexValue(text, atValue, value);
      LexKey(text, atKey, key);
      LexSeparator(text, at, first);
      Regroup(Lex(text, at), Lex(text, atValue), Lex(text, atTail), Lex(text, atTail + |t|),
              KeyEvents(key, atKey), ValueEvents(value, atValue), EntriesEvents(tail, false, atTail));
  }

  /** The text and the events of the entries, part by part. */
  lemma EntryParts(es: Entries, first: bool, at: nat)
    ensures es.None? ==> RenderEntries(es, first) == "" && EntriesEvents(es, first, at) == []
    ensures es.Entry? ==>
              var s, k, r := Separator(first), KeyText(es.key), Render(es.value);
              var t := RenderEntries(es.tail, false);
              var atKey := at + |s|;
              var atValue := atKey + |k|;
              && RenderEntries(es, first) == s + (k + (r + t))
              && |RenderEntries(es, first)| == |s| + |k| + |r| + |t|
              && EntriesEvents(es, first, at)
                 == KeyEvents(es.key, atKey) + ValueEvents(es.value, atValue)
                    + EntriesEvents(es.tail, false, atValue + |r|)
  {
    hide Render, ValueEvents, KeyText, KeyEvents, Separator;
    if es.Entry? {
      var s, k, r, t := Separator(first), KeyText(es.key), Render(es.value), RenderEntries(es.tail, false);
      assert RenderEntries(es, first) == s + k + r + t;
      Associates(s, k, r, t);
    }
  }

  lemma Associates(a: string, b: string, c: string, d: string)
    ensures a + b + c + d == a + (b + (c + d))
  {
  }

  lemma Regroup(l: seq<Event>, m: seq<Event>, n: seq<Event>, o: seq<Event>, a: seq<Event>, b: seq<Event>, c: seq<Event>)
    requires l == a + m && m == b + n && n == c + o
    ensures l == a + b + c + o
  {
  }

  /** Whatever follows an entry, the next separator or the end of the group, delimits it. */
  lemma Delimited(text: string, at: nat, tail: Entries)
    requires var t := RenderEntries(tail, false);
             Holds(text, at, t) && at + |t| < |text| && Delimits(text[at + |t|])
    ensures at < |text| && Delimits(text[at])
  {
    if tail.Entry? {
      HoldsAt(text, at, RenderEntries(tail, false), 0);
    }
  }

  lemma LexSeparator(text: string, at: nat, first: bool)
    requires Holds(text, at, Separator(first))
    ensures Lex(text, at) == Lex(text, at + |Separator(first)|)
  {
    if !first {
      HoldsAt(text, at, ",", 0);
    }
  }

  lemma LexKey(text: string, at: nat, key: Key)
    requires Holds(text, at, KeyText(key)) && (key.Named? ==> '\"' !in key.name)
    ensures Lex(text, at) == KeyEvents(key, at) + Lex(text, at + |KeyText(key)|)
  {
    if key.Named? {
      var q := Quoted(key.name);
      HoldsPart(text, at, q, ":");
      HoldsAt(text, at + |q|, ":", 0);
      LexString(text, at, key.name, at + |q|);
      assert Lex(text, at + |q|) == Lex(text, at + |q| + 1);
    }
  }
}
