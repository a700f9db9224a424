/** Public keys: 32 bytes, ordered as sol_memcmp orders them. */
module Keys {

  const KEY_SIZE: nat := 32

  type Key = k: seq<int> | |k| == KEY_SIZE && forall i :: 0 <= i < |k| ==> 0 <= k[i] < 256
    witness seq(KEY_SIZE, i => 0)

  const ZERO_KEY: Key := [
    0, 0, 0, 0, 0, 0, 0, 0, 0, 0, 0, 0, 0, 0, 0, 0,
    0, 0, 0, 0, 0, 0, 0, 0, 0, 0, 0, 0, 0, 0, 0, 0
  ]

  /** The difference of the first bytes that differ, 0 when none do. */
  function MemCmp(a: seq<int>, b: seq<int>): int
    requires |a| == |b|
  {
    if a == [] then 0
    else if a[0] != b[0] then a[0] - b[0]
    else MemCmp(a[1..], b[1..])
  }

  /** The bytes read as one big-endian number. */
  ghost function Rank(k: seq<int>): int {
    if k == [] then 0 else k[0] * Pow256(|k| - 1) + Rank(k[1..])
  }

  ghost function Pow256(n: nat): (p: nat)
    ensures p >= 1
  {
    if n == 0 then 1 else 256 * Pow256(n - 1)
  }

  ghost predicate Bytes(s: seq<int>) {
    forall i :: 0 <= i < |s| ==> 0 <= s[i] < 256
  }

  lemma {:induction false} RankBounds(k: seq<int>)
    requires Bytes(k)
    ensures 0 <= Rank(k) < Pow256(|k|)
  {
    if k != [] {
      RankBounds(k[1..]);
      LeadingByte(k[0], 256, Pow256(|k| - 1));
      LeadingByte(-1, k[0], Pow256(|k| - 1));
    }
  }

  /** Comparing byte by byte is comparing the numbers, so every law of the order is one of the integers. */
  lemma {:induction false} MemCmpIsRankOrder(a: seq<int>, b: seq<int>)
    requires Bytes(a) && Bytes(b) && |a| == |b|
    ensures MemCmp(a, b) < 0 <==> Rank(a) < Rank(b)
    ensures MemCmp(a, b) == 0 <==> Rank(a) == Rank(b)
    ensures MemCmp(a, b) == 0 <==> a == b
  {
    if a != [] {
      RankBounds(a[1..]);
      RankBounds(b[1..]);
      var p := Pow256(|a| - 1);
      if a[0] == b[0] {
        MemCmpIsRankOrder(a[1..], b[1..]);
        assert a == [a[0]] + a[1..] && b == [b[0]] + b[1..];
      } else if a[0] < b[0] {
        LeadingByte(a[0], b[0], p);
      } else {
        LeadingByte(b[0], a[0], p);
      }
    }
  }

  lemma LeadingByte(x: int, y: int, p: nat)
    requires x < y
    ensures x * p + p <= y * p
  {
    assert (x + 1) * p <= y * p;
  }

  /** Keys are told apart by their rank. */
  lemma RankInjective(a: Key, b: Key)
    ensures Rank(a) == Rank(b) <==> a == b
  {
    MemCmpIsRankOrder(a, b);
  }
}
