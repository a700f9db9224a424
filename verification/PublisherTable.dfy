/** The publisher table over runs: bounded, strictly sorted, zero beyond its end. */
module PublisherTable {
  import opened MachineInts
  import opened Keys
  import opened PriceTypes
  import opened Aggregation
  import opened AccountState
  import opened Settings
  import opened ConfidenceFilter
  import opened Wrappers

  ghost predicate StrictlyAscending(c: seq<PriceComponent>) {
    forall i, j :: 0 <= i < j < |c| ==> Rank(c[i].pub) < Rank(c[j].pub)
  }

  ghost predicate ZeroFrom(c: seq<PriceComponent>, n: nat) {
    forall i :: n <= i < |c| ==> c[i] == ZERO_COMP
  }

  ghost predicate TableOk(s: State) {
    && |s.comp| == 128 && s.num <= 64
    && StrictlyAscending(s.comp[..s.num])
    && ZeroFrom(s.comp, s.num)
  }

  lemma AscendingIsDistinct(c: seq<PriceComponent>)
    requires StrictlyAscending(c)
    ensures DistinctKeys(c)
  {
    forall i, j | 0 <= i < j < |c| ensures c[i].pub != c[j].pub {
      assert Rank(c[i].pub) < Rank(c[j].pub);
    }
  }

  // ----- Sorting by key -----

  lemma {:induction false} InsertedAscends(x: PriceComponent, c: seq<PriceComponent>)
    requires StrictlyAscending(c) && forall i :: 0 <= i < |c| ==> Rank(c[i].pub) != Rank(x.pub)
    ensures StrictlyAscending(InsertedByKey(x, c))
    ensures InsertedByKey(x, c)[0] == if c == [] || Rank(x.pub) <= Rank(c[0].pub) then x else c[0]
  {
    if c != [] && Rank(x.pub) > Rank(c[0].pub) {
      InsertedAscends(x, c[1..]);
      var t := InsertedByKey(x, c[1..]);
      forall i | 0 <= i < |t| ensures Rank(c[0].pub) < Rank(t[i].pub) {
        assert i > 0 ==> Rank(t[0].pub) < Rank(t[i].pub);
      }
    }
  }

  lemma {:induction false} InsertedPermutes(x: PriceComponent, c: seq<PriceComponent>)
    ensures multiset(InsertedByKey(x, c)) == multiset{x} + multiset(c)
  {
    if c != [] && Rank(x.pub) > Rank(c[0].pub) {
      InsertedPermutes(x, c[1..]);
      assert c == [c[0]] + c[1..];
    }
  }

  lemma {:induction false} ByKeySorts(c: seq<PriceComponent>)
    requires DistinctKeys(c)
    ensures StrictlyAscending(ByKey(c)) && multiset(ByKey(c)) == multiset(c)
  {
    if c != [] {
      var t := c[1..];
      assert c == [c[0]] + t;
      ByKeySorts(t);
      InsertedPermutes(c[0], ByKey(t));
      forall i | 0 <= i < |ByKey(t)| ensures Rank(ByKey(t)[i].pub) != Rank(c[0].pub) {
        assert ByKey(t)[i] in multiset(ByKey(t));
        assert ByKey(t)[i] in t;
        RankInjective(ByKey(t)[i].pub, c[0].pub);
      }
      InsertedAscends(c[0], ByKey(t));
    }
  }

  /** A strictly ascending arrangement of given components is the only one. */
  lemma {:induction false} AscendingUnique(a: seq<PriceComponent>, b: seq<PriceComponent>)
    requires StrictlyAscending(a) && StrictlyAscending(b) && multiset(a) == multiset(b)
    ensures a == b
  {
    SameLength(a, b);
    if a != [] {
      SameHead(a, b);
      AscendingUnique(a[1..], b[1..]);
      assert a == [a[0]] + a[1..] && b == [b[0]] + b[1..];
    }
  }

  lemma SameLength(a: seq<PriceComponent>, b: seq<PriceComponent>)
    requires multiset(a) == multiset(b)
    ensures |a| == |b|
  {
    assert |multiset(a)| == |a| && |multiset(b)| == |b|;
  }

  lemma TailMultiset(a: seq<PriceComponent>)
    requires a != []
    ensures multiset(a[1..]) == multiset(a) - multiset{a[0]}
  {
    assert a == [a[0]] + a[1..];
  }

  lemma HeadIsLeast(a: seq<PriceComponent>, b: seq<PriceComponent>)
    requires StrictlyAscending(a) && multiset(a) == multiset(b) && a != [] && b != []
    ensures a[0] == b[0] || Rank(a[0].pub) < Rank(b[0].pub)
  {
    assert b[0] in multiset(b);
    var j :| 0 <= j < |a| && a[j] == b[0];
  }

  lemma SameHead(a: seq<PriceComponent>, b: seq<PriceComponent>)
    requires StrictlyAscending(a) && StrictlyAscending(b) && multiset(a) == multiset(b) && a != [] && b != []
    ensures a[0] == b[0] && multiset(a[1..]) == multiset(b[1..])
  {
    HeadIsLeast(a, b);
    HeadIsLeast(b, a);
    TailMultiset(a);
    TailMultiset(b);
  }

  // ----- Adding and deleting -----

  lemma ExtendedDistinct(c: seq<PriceComponent>, key: Key)
    requires DistinctKeys(c) && FindKey(c, key).None?
    ensures DistinctKeys(Extended(c, key))
  {
  }

  lemma AddKeepsTable(s: State, key: Key)
    requires TableOk(s) && AddPublisher(s, key).Some?
    ensures TableOk(AddPublisher(s, key).value)
  {
    hide StrictlyAscending;
    if key != ENABLE_ACCUMULATOR_V2 && key != DISABLE_ACCUMULATOR_V2 {
      var table := s.comp[..s.num];
      AscendingIsDistinct(table);
      ExtendedDistinct(table, key);
      ByKeySorts(Extended(table, key));
      var t := AddPublisher(s, key).value;
      assert t.comp[..t.num] == ByKey(Extended(table, key));
    }
  }

  lemma DelKeepsTable(s: State, key: Key)
    requires TableOk(s) && DelPublisher(s, key).Some?
    ensures TableOk(DelPublisher(s, key).value)
    ensures FindKey(DelPublisher(s, key).value.comp[..s.num - 1], key).None?
  {
    var table, t := s.comp[..s.num], DelPublisher(s, key).value;
    var i := FindKey(table, key).value;
    assert t.comp[..t.num] == table[..i] + table[i + 1..];
    RemovedAscends(table, i);
    forall j | 0 <= j < t.num ensures t.comp[..t.num][j].pub != key {
      AscendingIsDistinct(table);
    }
  }

  lemma RemovedAscends(c: seq<PriceComponent>, i: nat)
    requires StrictlyAscending(c) && i < |c|
    ensures StrictlyAscending(c[..i] + c[i + 1..])
  {
  }

  /** An ordinary key: neither of the two flag commands nor all zero. */
  predicate Ordinary(key: Key) {
    key != ENABLE_ACCUMULATOR_V2 && key != DISABLE_ACCUMULATOR_V2 && key != ZERO_KEY
  }

  /** Adding a new ordinary key and deleting it again restores the account. */
  lemma AddThenDelRestores(s: State, key: Key)
    requires TableOk(s) && Ordinary(key) && s.num < 64 && FindKey(s.comp[..s.num], key).None?
    ensures AddPublisher(s, key).Some?
    ensures var t := AddPublisher(s, key).value; t.num <= |t.comp| && DelPublisher(t, key) == Some(s)
  {
    var table, t := s.comp[..s.num], AddPublisher(s, key).value;
    hide StrictlyAscending, AddPublisher, DelPublisher, Ordinary;
    var added := PriceComponent(key, ZERO_INFO, ZERO_INFO);
    var grown := ByKey(Extended(table, key));
    AddOrdinary(s, key);
    assert t.comp[..t.num] == grown;
    AscendingIsDistinct(table);
    ExtendedDistinct(table, key);
    ByKeySorts(Extended(table, key));
    var i := PositionOf(grown, added, key);
    RemovedIsTable(grown, table, added, i);
    Reassembled(s.comp, s.num, grown, i, ZERO_COMP);
    DelOrdinary(t, key, i);
  }

  /**
   Which keys add_publisher and del_publisher take: the two flag keys always and an ordinary one if it is new and there
   are fewer than 64; a key of the table that is not all zero.
   */
  lemma TakenKeys(s: State, key: Key)
    requires TableOk(s)
    ensures s.num <= |s.comp|
    ensures var present, flag := exists i :: 0 <= i < s.num && s.comp[i].pub == key, IsFlag(key, 1) || IsFlag(key, 2);
            && (AddPublisher(s, key).Some? <==> flag || (s.num < 64 && !present))
            && (DelPublisher(s, key).Some? <==> present && exists j :: 0 <= j < 32 && key[j] != 0)
  {
    hide StrictlyAscending, IsFlag, FindKey, AddPublisher, DelPublisher;
    FlagKeys(key);
    Presence(s, key);
    AddTaken(s, key);
    DelTaken(s, key);
    ZeroKey(key);
  }

  lemma Presence(s: State, key: Key)
    requires s.num <= |s.comp|
    ensures FindKey(s.comp[..s.num], key).Some? <==> exists i :: 0 <= i < s.num && s.comp[i].pub == key
  {
    hide FindKey;
    var table := s.comp[..s.num];
    assert forall i :: 0 <= i < s.num ==> table[i] == s.comp[i];
  }

  lemma AddTaken(s: State, key: Key)
    requires TableOk(s)
    ensures AddPublisher(s, key).Some?
            <==> key == ENABLE_ACCUMULATOR_V2 || key == DISABLE_ACCUMULATOR_V2
                 || (s.num < 64 && FindKey(s.comp[..s.num], key).None?)
  {
    hide StrictlyAscending, FindKey, ByKey;
  }

  lemma DelTaken(s: State, key: Key)
    requires TableOk(s)
    ensures DelPublisher(s, key).Some? <==> key != ZERO_KEY && FindKey(s.comp[..s.num], key).Some?
  {
    hide StrictlyAscending, FindKey;
  }

  lemma ZeroKey(key: Key)
    ensures key != ZERO_KEY <==> exists j :: 0 <= j < 32 && key[j] != 0
  {
    assert forall j :: 0 <= j < 32 ==> ZERO_KEY[j] == 0;
    assert key == ZERO_KEY <==> forall j :: 0 <= j < 32 ==> key[j] == ZERO_KEY[j];
  }

  lemma AddOrdinary(s: State, key: Key)
    requires TableOk(s) && Ordinary(key) && s.num < 64 && FindKey(s.comp[..s.num], key).None?
    ensures AddPublisher(s, key)
         == Some(s.(num := s.num + 1, comp := ByKey(Extended(s.comp[..s.num], key)) + s.comp[s.num + 1..]))
  {
  }

  lemma DelOrdinary(s: State, key: Key, i: nat)
    requires Ordinary(key) && s.num <= |s.comp| && FindKey(s.comp[..s.num], key) == Some(i)
    ensures i < s.num && DelPublisher(s, key)
         == Some(s.(num := s.num - 1, comp := s.comp[..i] + s.comp[i + 1..s.num] + [ZERO_COMP] + s.comp[s.num..]))
  {
  }

  lemma Reassembled<T>(comp: seq<T>, n: nat, grown: seq<T>, i: nat, zero: T)
    requires n < |comp| && comp[n] == zero && |grown| == n + 1 && i <= n
    requires grown[..i] + grown[i + 1..] == comp[..n]
    ensures var d := grown + comp[n + 1..]; d[..i] + d[i + 1..n + 1] + [zero] + d[n + 1..] == comp
  {
    var d := grown + comp[n + 1..];
    assert d[..i] == grown[..i] && d[i + 1..n + 1] == grown[i + 1..] && d[n + 1..] == comp[n + 1..];
    assert comp == comp[..n] + [comp[n]] + comp[n + 1..];
  }

  lemma PositionOf(grown: seq<PriceComponent>, added: PriceComponent, key: Key) returns (i: nat)
    requires StrictlyAscending(grown) && added in multiset(grown) && added.pub == key
    ensures FindKey(grown, key) == Some(i) && i < |grown| && grown[i] == added
  {
    assert added in grown;
    AscendingIsDistinct(grown);
    i := FindKey(grown, key).value;
  }

  lemma RemovedIsTable(grown: seq<PriceComponent>, table: seq<PriceComponent>, added: PriceComponent, i: nat)
    requires StrictlyAscending(grown) && StrictlyAscending(table) && i < |grown| && grown[i] == added
    requires multiset(grown) == multiset(table + [added])
    ensures grown[..i] + grown[i + 1..] == table
  {
    RemovedAscends(grown, i);
    var r := grown[..i] + grown[i + 1..];
    assert grown == grown[..i] + [grown[i]] + grown[i + 1..];
    assert multiset(r) == multiset(grown) - multiset{added};
    assert multiset(table) == multiset(table + [added]) - multiset{added};
    AscendingUnique(r, table);
  }

  // ----- The other steps -----

  /** Two tables with the same keys in the same places. */
  ghost predicate SameKeys(c: seq<PriceComponent>, d: seq<PriceComponent>) {
    |c| == |d| && forall i :: 0 <= i < |c| ==> c[i].pub == d[i].pub
  }

  lemma SameKeysKeepTable(s: State, t: State)
    requires TableOk(s) && t.num == s.num && SameKeys(s.comp, t.comp) && ZeroFrom(t.comp, t.num)
    ensures TableOk(t)
  {
    forall i, j | 0 <= i < j < t.num ensures Rank(t.comp[..t.num][i].pub) < Rank(t.comp[..t.num][j].pub) {
      assert Rank(s.comp[..s.num][i].pub) < Rank(s.comp[..s.num][j].pub);
    }
  }

  lemma AggregateKeepsTable(s: State, slot: int, timestamp: int)
    requires TableOk(s)
    ensures TableOk(AggregateStep(s, slot, timestamp))
  {
    hide Outcome, Accumulated, CountingQuotes, StrictlyAscending;
    SameKeysKeepTable(s, AggregateStep(s, slot, timestamp));
  }

  lemma UpdateKeepsTable(s: State, key: Key, args: UpdArgs, slot: int, timestamp: int, buffer: Buffer)
    requires TableOk(s) && IsInt64(args.price)
    ensures TableOk(UpdPrice(s, key, args, slot, timestamp, buffer).0)
  {
    hide AggregateStep, StatusFor, StrictlyAscending;
    AggregateKeepsTable(s, slot, timestamp);
    var r := Refreshed(s, slot, timestamp);
    var t := UpdPrice(s, key, args, slot, timestamp, buffer).0;
    UpdPriceKeepsTable(s, key, args, slot, timestamp, buffer);
    assert r.num == s.num by { hide StrictlyAscending; AggregateKeepsNum(s, slot, timestamp); }
    if t.comp != s.comp {
      SameKeysKeepTable(r, t);
    } else {
      SameKeysKeepTable(s, t);
    }
  }

  lemma AggregateKeepsNum(s: State, slot: int, timestamp: int)
    requires s.num <= |s.comp|
    ensures AggregateStep(s, slot, timestamp).num == s.num
  {
    hide Outcome, Accumulated, CountingQuotes;
  }

  lemma InitKeepsTable(s: State, exponent: int)
    requires TableOk(s) && InitPrice(s, exponent).Some?
    ensures TableOk(InitPrice(s, exponent).value)
  {
    hide StrictlyAscending;
    SameKeysKeepTable(s, InitPrice(s, exponent).value);
  }

  lemma NextKeepsTableOk(s: State, e: Event)
    requires TableOk(s) && ValidEvent(e)
    ensures TableOk(Next(s, e))
  {
    hide TableOk, UpdPrice, AggregateStep, AddPublisher, DelPublisher, InitPrice;
    assert s.num <= |s.comp| by { TableBounds(s); }
    match e.ins
    case Update(key, args, buffer, noFail) =>
      UpdateKeepsTable(s, key, args, e.slot, e.timestamp, buffer);
    case Validate =>
      AggregateKeepsTable(s, e.slot, e.timestamp);
    case Add(key) =>
      if AddPublisher(s, key).Some? {
        AddKeepsTable(s, key);
      }
    case Del(key) =>
      if DelPublisher(s, key).Some? {
        DelKeepsTable(s, key);
      }
    case Init(exponent) =>
      if InitPrice(s, exponent).Some? {
        InitKeepsTable(s, exponent);
      }
    case SetMinPub(n) =>
      TableReads(s, Next(s, e));
    case SetMaxLatency(n) =>
      TableReads(s, Next(s, e));
  }

  lemma TableBounds(s: State)
    requires TableOk(s)
    ensures s.num <= |s.comp|
  {
  }

  lemma TableReads(s: State, t: State)
    requires TableOk(s) && t.num == s.num && t.comp == s.comp
    ensures TableOk(t)
  {
  }

  lemma {:induction false} RunKeepsTable(s: State, events: seq<Event>, now: int)
    requires TableOk(s) && ValidRun(events, now)
    ensures s.num <= |s.comp| && TableOk(Run(s, events, now))
    decreases |events|
  {
    hide Next, ValidEvent, TableOk;
    TableBounds(s);
    if events != [] {
      NextKeepsTableOk(s, events[0]);
      RunKeepsTable(Next(s, events[0]), events[1..], events[0].slot);
    }
  }

  /** In every state a new account can reach the table has at most 64 keys, strictly ascending, and zeros after them. */
  lemma ReachableTableOk(exponent: int, minPub: int, v2: bool, events: seq<Event>)
    requires ValidRun(events, 0)
    ensures TableOk(Run(Fresh(exponent, minPub, v2), events, 0))
  {
    RunKeepsTable(Fresh(exponent, minPub, v2), events, 0);
  }
}
