/** The filter an update passes before its quote is recorded: the confidence is at most a third of the price. */
module ConfidenceFilter {
  import opened MachineInts
  import opened PriceTypes
  import opened Wrappers

  /** get_status_for_conf_price_ratio; None is the failed conversion of the threshold to u64. */
  function StatusFor(price: int, conf: int, status: int): Option<int>
    requires IsInt64(price)
  {
    var threshold := TruncDiv(ToInt64(if price < 0 then -price else price), MAX_CI_DIVISOR);
    if threshold < 0 then None
    else Some(if conf > threshold then STATUS_IGNORED else status)
  }

  /** A trading quote is a 64-bit price with a confidence of at most a third of it. */
  ghost predicate Sharp(q: PriceInfo) {
    q.status == STATUS_TRADING ==> IsInt64(q.price) && 0 <= q.conf && MAX_CI_DIVISOR * q.conf <= Abs(q.price)
  }

  ghost predicate AllQuotesSharp(quotes: seq<PriceInfo>) {
    forall i :: 0 <= i < |quotes| ==> Sharp(quotes[i])
  }

  lemma StatusIsSharp(price: int, conf: int, status: int, pubSlot: int)
    requires IsInt64(price) && IsUint64(conf) && StatusFor(price, conf, status).Some?
    ensures Sharp(PriceInfo(price, conf, StatusFor(price, conf, status).value, pubSlot))
  {
  }

  /** The status is kept if and only if three times the confidence is within the price. */
  lemma StatusKept(price: int, conf: int, status: int)
    requires INT64_MIN < price <= INT64_MAX && 0 <= conf
    ensures StatusFor(price, conf, status) == Some(if 3 * conf <= Abs(price) then status else 4)
  {
  }

  /** The conversion fails for exactly one price, the one without an absolute value. */
  lemma StatusFailsOnlyAtMinimum(price: int, conf: int, status: int)
    requires IsInt64(price)
    ensures StatusFor(price, conf, status).None? <==> price == INT64_MIN
  {
    if price == INT64_MIN {
      assert ToInt64(-price) == INT64_MIN;
    }
  }
}
