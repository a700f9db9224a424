/** compute_publisher_stake_caps: a capped share per symbol, summed over the symbols a publisher serves. */
module StakeCaps {
  import opened MachineInts
  import opened Keys
  import opened PriceTypes
  import opened Wrappers
  import opened Multiplication

  /** What the computation reads of an account: None is one that does not load as a price account. */
  datatype Symbol = Symbol(num: nat, pubs: seq<Key>)

  datatype Cap = Cap(publisher: Key, cap: int)

  // ----- The ordered map -----

  ghost predicate Ascending(caps: seq<Cap>) {
    forall i, j :: 0 <= i < j < |caps| ==> Rank(caps[i].publisher) < Rank(caps[j].publisher)
  }

  ghost function CapOf(caps: seq<Cap>, key: Key): Option<int> {
    if caps == [] then None
    else if caps[0].publisher == key then Some(caps[0].cap)
    else CapOf(caps[1..], key)
  }

  function SaturatingAdd(a: int, b: int): int {
    Min(UINT64_MAX, a + b)
  }

  /** entry(key).and_modify(saturating add).or_insert(cap), in a map kept in key order. */
  function Credit(caps: seq<Cap>, key: Key, cap: int): seq<Cap> {
    if caps == [] then [Cap(key, cap)]
    else
      var order := MemCmp(key, caps[0].publisher);
      if order == 0 then [Cap(key, SaturatingAdd(caps[0].cap, cap))] + caps[1..]
      else if order < 0 then [Cap(key, cap)] + caps
      else [caps[0]] + Credit(caps[1..], key, cap)
  }

  lemma {:induction false} CreditAscends(caps: seq<Cap>, key: Key, cap: int)
    requires Ascending(caps)
    ensures Ascending(Credit(caps, key, cap)) && Credit(caps, key, cap) != []
    ensures Rank(Credit(caps, key, cap)[0].publisher)
         == if caps == [] then Rank(key) else Min(Rank(key), Rank(caps[0].publisher))
  {
    if caps != [] {
      MemCmpIsRankOrder(key, caps[0].publisher);
      if MemCmp(key, caps[0].publisher) > 0 {
        var t := Credit(caps[1..], key, cap);
        CreditAscends(caps[1..], key, cap);
        forall i | 0 <= i < |t| ensures Rank(caps[0].publisher) < Rank(t[i].publisher) {
          assert i > 0 ==> Rank(t[0].publisher) < Rank(t[i].publisher);
        }
      }
    }
  }

  lemma {:induction false} AbsentBelow(caps: seq<Cap>, key: Key)
    requires forall i :: 0 <= i < |caps| ==> Rank(key) < Rank(caps[i].publisher)
    ensures CapOf(caps, key).None?
  {
    if caps != [] {
      AbsentBelow(caps[1..], key);
    }
  }

  lemma {:induction false} CreditLookup(caps: seq<Cap>, key: Key, cap: int, k: Key)
    requires Ascending(caps)
    ensures CapOf(Credit(caps, key, cap), k) ==
            if k != key then CapOf(caps, k)
            else match CapOf(caps, key) case None => Some(cap) case Some(c) => Some(SaturatingAdd(c, cap))
  {
    if caps != [] {
      MemCmpIsRankOrder(key, caps[0].publisher);
      if MemCmp(key, caps[0].publisher) > 0 {
        CreditLookup(caps[1..], key, cap, k);
      } else if MemCmp(key, caps[0].publisher) < 0 {
        AbsentBelow(caps, key);
      }
    }
  }

  ghost function Sum(caps: seq<Cap>): int {
    if caps == [] then 0 else caps[0].cap + Sum(caps[1..])
  }

  lemma {:induction false} CreditSum(caps: seq<Cap>, key: Key, cap: int)
    ensures Sum(Credit(caps, key, cap)) <= Sum(caps) + cap
  {
    if caps != [] && MemCmp(key, caps[0].publisher) > 0 {
      CreditSum(caps[1..], key, cap);
    }
  }

  // ----- What each publisher is due -----

  /** The share of one symbol: m split among its publishers, but never among fewer than z; 0 when both are 0. */
  function Share(a: Symbol, m: int, z: int): int
    requires 0 <= m && 0 <= z
  {
    var divisor := Max(a.num, z);
    if divisor == 0 then 0 else m / divisor
  }

  /** The keys that are credited: the first num, as far as the table has them. */
  function Credited(a: Symbol): seq<Key> {
    if a.num <= |a.pubs| then a.pubs[..a.num] else a.pubs
  }

  ghost function Occurrences(keys: seq<Key>, key: Key): nat {
    if keys == [] then 0 else Occurrences(keys[..|keys| - 1], key) + if keys[|keys| - 1] == key then 1 else 0
  }

  /** The unsaturated sum of the shares of all symbols, once per entry. */
  ghost function Due(accounts: seq<Option<Symbol>>, m: int, z: int, key: Key): int
    requires 0 <= m && 0 <= z
  {
    if accounts == [] then 0
    else
      Due(accounts[..|accounts| - 1], m, z, key) +
      match accounts[|accounts| - 1]
      case None => 0
      case Some(a) => Occurrences(Credited(a), key) * Share(a, m, z)
  }

  ghost function Entries(accounts: seq<Option<Symbol>>, key: Key): nat {
    if accounts == [] then 0
    else
      Entries(accounts[..|accounts| - 1], key) +
      match accounts[|accounts| - 1]
      case None => 0
      case Some(a) => Occurrences(Credited(a), key)
  }

  /** The map after the given dues and entry counts. */
  ghost predicate Holds(caps: seq<Cap>, key: Key, due: int, entries: int) {
    CapOf(caps, key) == if entries == 0 then None else Some(Min(UINT64_MAX, due))
  }

  ghost predicate HoldsAll(caps: seq<Cap>, accounts: seq<Option<Symbol>>, keys: seq<Key>, share: int, m: int,
                           z: int)
    requires 0 <= m && 0 <= z
  {
    forall key: Key :: Holds(caps, key, Due(accounts, m, z, key) + Occurrences(keys, key) * share,
                             Entries(accounts, key) + Occurrences(keys, key))
  }

  lemma {:induction false} DueNonNegative(accounts: seq<Option<Symbol>>, m: int, z: int, key: Key)
    requires 0 <= m && 0 <= z
    ensures 0 <= Due(accounts, m, z, key) && (Entries(accounts, key) == 0 ==> Due(accounts, m, z, key) == 0)
  {
    hide Share, Occurrences;
    if accounts != [] {
      DueNonNegative(accounts[..|accounts| - 1], m, z, key);
      match accounts[|accounts| - 1]
      case None =>
      case Some(a) =>
        SharesWithin(a, m, z);
        Product(Occurrences(Credited(a), key), Share(a, m, z));
    }
  }

  lemma Product(n: nat, w: int)
    requires 0 <= w
    ensures 0 <= n * w && (n + 1) * w == n * w + w && (n == 0 ==> n * w == 0)
  {
  }

  lemma CreditHolds(caps: seq<Cap>, accounts: seq<Option<Symbol>>, keys: seq<Key>, key: Key, share: int, m: int,
                    z: int)
    requires 0 <= m && 0 <= z && 0 <= share <= UINT64_MAX && Ascending(caps)
    requires HoldsAll(caps, accounts, keys, share, m, z)
    ensures HoldsAll(Credit(caps, key, share), accounts, keys + [key], share, m, z)
  {
    hide CapOf, Credit, Due, Entries, Ascending;
    forall k: Key
      ensures Holds(Credit(caps, key, share), k, Due(accounts, m, z, k) + Occurrences(keys + [key], k) * share,
                    Entries(accounts, k) + Occurrences(keys + [key], k))
    {
      assert Holds(caps, k, Due(accounts, m, z, k) + Occurrences(keys, k) * share, Entries(accounts, k) + Occurrences(keys, k));
      CreditLookup(caps, key, share, k);
      DueNonNegative(accounts, m, z, k);
      assert (keys + [key])[..|keys|] == keys;
      Product(Occurrences(keys, k), share);
    }
  }

  lemma AccountHolds(caps: seq<Cap>, accounts: seq<Option<Symbol>>, a: Symbol, m: int, z: int)
    requires 0 <= m && 0 <= z && HoldsAll(caps, accounts, Credited(a), Share(a, m, z), m, z)
    ensures HoldsAll(caps, accounts + [Some(a)], [], 0, m, z)
  {
    var next := accounts + [Some(a)];
    assert next[..|accounts|] == accounts;
    forall k: Key ensures Holds(caps, k, Due(next, m, z, k) + Occurrences([], k) * 0, Entries(next, k) + Occurrences([], k)) {
      assert Holds(caps, k, Due(accounts, m, z, k) + Occurrences(Credited(a), k) * Share(a, m, z),
                   Entries(accounts, k) + Occurrences(Credited(a), k));
    }
  }

  lemma SkipHolds(caps: seq<Cap>, accounts: seq<Option<Symbol>>, m: int, z: int)
    requires 0 <= m && 0 <= z && HoldsAll(caps, accounts, [], 0, m, z)
    ensures HoldsAll(caps, accounts + [None], [], 0, m, z)
  {
    var next := accounts + [None];
    assert next[..|accounts|] == accounts;
    forall k: Key ensures Holds(caps, k, Due(next, m, z, k) + Occurrences([], k) * 0, Entries(next, k) + Occurrences([], k)) {
      assert Holds(caps, k, Due(accounts, m, z, k) + Occurrences([], k) * 0, Entries(accounts, k) + Occurrences([], k));
    }
  }

  /** All entries of one symbol together get at most m. */
  lemma SharesWithin(a: Symbol, m: int, z: int)
    requires 0 <= m && 0 <= z
    ensures 0 <= Share(a, m, z) <= m && |Credited(a)| * Share(a, m, z) <= m
  {
    var divisor := Max(a.num, z);
    if divisor > 0 {
      var share := m / divisor;
      Quotient(m, divisor);
      MulMonotone(|Credited(a)|, divisor, share);
    }
  }

  lemma Quotient(m: nat, d: nat)
    requires d > 0
    ensures d * (m / d) <= m && 0 <= m / d <= m
  {
    MulMonotone(1, d, m / d);
  }

  method ComputePublisherStakeCaps(accounts: seq<Option<Symbol>>, m: int, z: int) returns (caps: seq<Cap>)
    requires 0 <= m <= UINT64_MAX && 0 <= z
    ensures Ascending(caps)
    ensures exists shares :: Splits(shares, accounts, m, z)
    ensures forall shares, key: Key :: Splits(shares, accounts, m, z) ==>
              CapOf(caps, key)
              == if Serves(accounts, key) then Some(Min(UINT64_MAX, Credits(shares, accounts, key))) else None
    ensures Sum(caps) <= m * |accounts|
  {
    hide Share, Due, Entries, CapOf, Holds, Credited, Credits, Serves;
    caps := [];
    NothingHeld(m, z);
    var i := 0;
    while i < |accounts|
      invariant 0 <= i <= |accounts|
      invariant Ascending(caps) && HoldsAll(caps, accounts[..i], [], 0, m, z)
      invariant Sum(caps) <= m * i
    {
      assert accounts[..i + 1] == accounts[..i] + [accounts[i]];
      MulMonotone(i, i + 1, m);
      match accounts[i] {
        case None =>
          SkipHolds(caps, accounts[..i], m, z);
        case Some(a) =>
          SharesWithin(a, m, z);
          caps := CreditAccount(caps, a, Share(a, m, z), accounts[..i], m, z);
          AccountHolds(caps, accounts[..i], a, m, z);
          assert m * (i + 1) == m * i + m;
      }
      i := i + 1;
    }
    assert accounts[..|accounts|] == accounts;
    forall shares, key: Key | Splits(shares, accounts, m, z)
      ensures CapOf(caps, key)
           == if Serves(accounts, key) then Some(Min(UINT64_MAX, Credits(shares, accounts, key))) else None
    {
      EntriesServe(accounts, key);
      Held(caps, accounts, m, z, key);
      CreditsAreDue(shares, accounts, m, z, key);
    }
    ghost var _ := SomeSplit(accounts, m, z);
  }

  // ----- The shares without division -----

  /** One share an account: what m comes to for each of num publishers, or of z if those are more; 0 for nobody. */
  ghost predicate Splits(shares: seq<int>, accounts: seq<Option<Symbol>>, m: int, z: int) {
    && |shares| == |accounts|
    && forall i :: 0 <= i < |accounts| && accounts[i].Some? ==>
         var d := Max(accounts[i].value.num, z);
         if d == 0 then shares[i] == 0 else shares[i] * d <= m < (shares[i] + 1) * d
  }

  /** The keys in the first num entries. */
  ghost function Publishers(a: Symbol): seq<Key> {
    a.pubs[..Min(a.num, |a.pubs|)]
  }

  /** Some account lists the key. */
  ghost predicate Serves(accounts: seq<Option<Symbol>>, key: Key) {
    exists i :: 0 <= i < |accounts| && accounts[i].Some? && key in Publishers(accounts[i].value)
  }

  /** The shares, once for every entry of the key. */
  ghost function Credits(shares: seq<int>, accounts: seq<Option<Symbol>>, key: Key): int
    requires |shares| == |accounts|
  {
    if accounts == [] then 0
    else
      var n := |accounts| - 1;
      Credits(shares[..n], accounts[..n], key) +
      if accounts[n].None? then 0 else multiset(Publishers(accounts[n].value))[key] * shares[n]
  }

  lemma ShareSplits(a: Symbol, m: int, z: int, share: int)
    requires 0 <= m && 0 <= z
    ensures var d := Max(a.num, z);
            share == Share(a, m, z) <==> if d == 0 then share == 0 else share * d <= m < (share + 1) * d
  {
    var d := Max(a.num, z);
    if d > 0 {
      QuotientUnique(m, d, share);
    }
  }

  lemma QuotientUnique(m: nat, d: nat, q: int)
    requires d > 0
    ensures q == m / d <==> q * d <= m < (q + 1) * d
  {
    var p := m / d;
    assert p * d <= m < p * d + d;
    MulStep(p, d);
    if q < p {
      MulMonotone(q + 1, p, d);
    } else if q > p {
      MulMonotone(p + 1, q, d);
    }
  }

  lemma {:induction false} OccurrencesCount(keys: seq<Key>, key: Key)
    ensures Occurrences(keys, key) == multiset(keys)[key]
  {
    if keys != [] {
      var n := |keys| - 1;
      OccurrencesCount(keys[..n], key);
      assert keys == keys[..n] + [keys[n]];
    }
  }

  lemma {:induction false} EntriesServe(accounts: seq<Option<Symbol>>, key: Key)
    ensures Entries(accounts, key) > 0 <==> Serves(accounts, key)
  {
    if accounts != [] {
      var n := |accounts| - 1;
      EntriesServe(accounts[..n], key);
      assert Serves(accounts[..n], key) ==> Serves(accounts, key);
      if accounts[n].Some? {
        OccurrencesCount(Credited(accounts[n].value), key);
      }
    }
  }

  lemma {:induction false} CreditsAreDue(shares: seq<int>, accounts: seq<Option<Symbol>>, m: int, z: int, key: Key)
    requires 0 <= m && 0 <= z && Splits(shares, accounts, m, z)
    ensures Credits(shares, accounts, key) == Due(accounts, m, z, key)
  {
    hide Share, Occurrences, Credited, Publishers;
    if accounts != [] {
      var n := |accounts| - 1;
      CreditsAreDue(shares[..n], accounts[..n], m, z, key);
      if accounts[n].Some? {
        ShareSplits(accounts[n].value, m, z, shares[n]);
        OccurrencesCount(Credited(accounts[n].value), key);
        assert Credited(accounts[n].value) == Publishers(accounts[n].value) by { CreditedPublishers(accounts[n].value); }
      }
    }
  }

  lemma CreditedPublishers(a: Symbol)
    ensures Credited(a) == Publishers(a)
  {
  }

  /** The shares exist, and there is only one choice of them. */
  lemma {:induction false} SomeSplit(accounts: seq<Option<Symbol>>, m: int, z: int) returns (shares: seq<int>)
    requires 0 <= m && 0 <= z
    ensures Splits(shares, accounts, m, z)
  {
    if accounts == [] {
      shares := [];
    } else {
      var n := |accounts| - 1;
      shares := SomeSplit(accounts[..n], m, z);
      if accounts[n].Some? {
        ShareSplits(accounts[n].value, m, z, Share(accounts[n].value, m, z));
        shares := shares + [Share(accounts[n].value, m, z)];
      } else {
        shares := shares + [0];
      }
    }
  }

  lemma NothingHeld(m: int, z: int)
    requires 0 <= m && 0 <= z
    ensures HoldsAll([], [], [], 0, m, z)
  {
  }

  lemma Held(caps: seq<Cap>, accounts: seq<Option<Symbol>>, m: int, z: int, key: Key)
    requires 0 <= m && 0 <= z && HoldsAll(caps, accounts, [], 0, m, z)
    ensures CapOf(caps, key) == if Entries(accounts, key) == 0 then None else Some(Min(UINT64_MAX, Due(accounts, m, z, key)))
  {
    assert Holds(caps, key, Due(accounts, m, z, key) + Occurrences([], key) * 0, Entries(accounts, key) + Occurrences([], key));
  }

  /** The inner loop: one credit for each of the first num entries the table has. */
  method CreditAccount(caps0: seq<Cap>, a: Symbol, share: int, ghost accounts: seq<Option<Symbol>>,
                       ghost m: int, ghost z: int)
    returns (caps: seq<Cap>)
    requires 0 <= m && 0 <= z && 0 <= share <= UINT64_MAX && Ascending(caps0)
    requires HoldsAll(caps0, accounts, [], 0, m, z)
    ensures Ascending(caps) && HoldsAll(caps, accounts, Credited(a), share, m, z)
    ensures Sum(caps) <= Sum(caps0) + |Credited(a)| * share
  {
    hide HoldsAll, Ascending, Credit, Sum, Occurrences;
    caps := caps0;
    ghost var keys := Credited(a);
    StartAccount(caps, accounts, share, m, z);
    assert keys[..0] == [];
    var i := 0;
    while i < a.num && i < |a.pubs|
      invariant 0 <= i <= |keys|
      invariant Ascending(caps) && HoldsAll(caps, accounts, keys[..i], share, m, z)
      invariant Sum(caps) <= Sum(caps0) + i * share
    {
      CreditAscends(caps, a.pubs[i], share);
      CreditHolds(caps, accounts, keys[..i], a.pubs[i], share, m, z);
      CreditSum(caps, a.pubs[i], share);
      assert keys[..i + 1] == keys[..i] + [a.pubs[i]];
      Product(i, share);
      caps := Credit(caps, a.pubs[i], share);
      i := i + 1;
    }
    assert keys[..i] == keys;
  }

  lemma StartAccount(caps: seq<Cap>, accounts: seq<Option<Symbol>>, share: int, m: int, z: int)
    requires 0 <= m && 0 <= z && HoldsAll(caps, accounts, [], 0, m, z)
    ensures HoldsAll(caps, accounts, [], share, m, z)
  {
    forall k: Key ensures Holds(caps, k, Due(accounts, m, z, k) + Occurrences([], k) * share, Entries(accounts, k) + Occurrences([], k)) {
      assert Holds(caps, k, Due(accounts, m, z, k) + Occurrences([], k) * 0, Entries(accounts, k) + Occurrences([], k));
    }
  }
}
