/** `price_model_core`: sort the votes in place and read off the three outputs. */
module PriceModel {
  import opened MachineInts
  import opened StableOrder
  import Average
  import Mergesort
  import opened Quantiles

  /** The default SORT_BEFORE of the template. */
  function LessThan(): (int, int) -> bool {
    (u, v) => u < v
  }

  lemma LessThanOrders(s: seq<int>)
    ensures StrictWeakOrder(LessThan())
    ensures Sorted(LessThan(), s) ==> IsAscending(s)
  {
    if Sorted(LessThan(), s) {
      forall i, j | 0 <= i < j < |s| ensures s[i] <= s[j] {
        assert !Before(LessThan(), s[j], s[i]);
      }
    }
  }

  /** The model outputs are the quantiles of the quotes, whatever the scratch array held. */
  method PriceModelCore(cnt: nat, quote: array<int>, scratch: array<int>)
    returns (p25: int, p50: int, p75: int, inQuote: bool)
    requires 1 <= cnt <= quote.Length && cnt <= scratch.Length && quote != scratch
    requires forall i :: 0 <= i < cnt ==> IsInt64(quote[i])
    modifies quote, scratch
    ensures p25 == P25(old(quote[..cnt])) && p50 == P50(old(quote[..cnt])) && p75 == P75(old(quote[..cnt]))
    ensures (if inQuote then quote else scratch)[..cnt] == Ascending(old(quote[..cnt]))
    ensures quote[cnt..] == old(quote[cnt..]) && scratch[cnt..] == old(scratch[cnt..])
  {
    hide StrictWeakOrder;
    hide StableSortOf;
    hide P25;
    hide P50;
    hide P75;
    ghost var q := quote[..cnt];
    LessThanOrders(q);
    inQuote := Mergesort.Stable(LessThan(), quote, cnt, scratch);
    SortedIsAscending((if inQuote then quote else scratch)[..cnt], q);
    p25, p50, p75 := Extract(cnt, if inQuote then quote else scratch, q);
  }

  /** The order statistics, read from the sorted quotes. */
  method Extract(cnt: nat, sorted: array<int>, ghost q: seq<int>) returns (p25: int, p50: int, p75: int)
    requires 1 <= cnt <= sorted.Length && |q| == cnt
    requires sorted[..cnt] == Ascending(q)
    requires forall i :: 0 <= i < cnt ==> IsInt64(q[i])
    ensures p25 == P25(q) && p50 == P50(q) && p75 == P75(q)
  {
    hide Ascending, IsAscending;
    ghost var s := Ascending(q);
    assert forall i :: 0 <= i < cnt ==> sorted[i] == s[i];
    AscendingSorts(q);
    var i25 := cnt / 4;
    p25 := sorted[i25];
    if cnt % 2 == 1 {
      p50 := sorted[cnt / 2];
    } else {
      var right := cnt / 2;
      var vl, vr := sorted[right - 1], sorted[right];
      SortedBounds(s, q, right - 1);
      SortedBounds(s, q, right);
      p50 := Average.Avg2Int64(vl, vr);
      Average.Avg2Int64IsFloor(vl, vr);
    }
    var i75 := cnt - 1 - i25;
    p75 := sorted[i75];
  }

  lemma SortedIsAscending(s: seq<int>, q: seq<int>)
    requires StableSortOf(LessThan(), s, q) && multiset(s) == multiset(q)
    ensures s == Ascending(q) && |s| == |q|
  {
    LessThanOrders(s);
    AscendingSorts(q);
    AscendingUnique(s, Ascending(q));
  }

  lemma SortedBounds(s: seq<int>, q: seq<int>, i: nat)
    requires multiset(s) == multiset(q) && i < |s|
    requires forall k :: 0 <= k < |q| ==> IsInt64(q[k])
    ensures IsInt64(s[i])
  {
    assert s[i] in multiset(q);
  }
}
