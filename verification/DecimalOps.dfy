/**
 The pd_t operations as they run: through pointers that may alias, on 64-bit mantissas.  Every product,
 sum and quotient of the C code passes through I64, so that leaving 64 bits would be an error here.
 */
module DecimalOps {
  import opened MachineInts
  import opened Decimal
  import opened DecimalPacked
  import opened Wrappers
  import opened Multiplication

  /** An int64_t result that must not overflow. */
  function I64(x: int): int
    requires IsInt64(x)
  {
    x
  }

  /** The table of powers of ten the caller supplies. */
  const FACTORS: seq<int> := [
    1, 10, 100, 1000, 10000, 100_000, 1_000_000, 10_000_000, 100_000_000, 1_000_000_000,
    10_000_000_000, 100_000_000_000, 1_000_000_000_000, 10_000_000_000_000, 100_000_000_000_000,
    1_000_000_000_000_000, 10_000_000_000_000_000, 100_000_000_000_000_000
  ]

  lemma {:induction false} FactorsArePowers(i: nat)
    requires i < FACTOR_SIZE
    ensures |FACTORS| == FACTOR_SIZE && FACTORS[i] == Pow10(i)
  {
    if i > 0 {
      FactorsArePowers(i - 1);
      assert FACTORS[i] == 10 * FACTORS[i - 1];
    }
  }

  /** The table the alignment reads: the powers of ten from 10^0 to 10^17. */
  ghost predicate PowerTable(p: seq<int>) {
    |p| == FACTOR_SIZE && forall i: nat :: i < FACTOR_SIZE ==> p[i] == Pow10(i)
  }

  lemma FactorsTable()
    ensures PowerTable(FACTORS)
  {
    forall i: nat | i < FACTOR_SIZE ensures |FACTORS| == FACTOR_SIZE && FACTORS[i] == Pow10(i) {
      FactorsArePowers(i);
    }
    FactorsArePowers(0);
  }

  class Pd {
    var v: int
    var e: int

    ghost function Val(): Dec
      reads this
    {
      Dec(v, e)
    }

    constructor (v: int, e: int)
      ensures Val() == Dec(v, e)
    {
      this.v, this.e := v, e;
    }
  }

  method Scale(n: Pd)
    requires INT64_MIN < n.v <= INT64_MAX
    modifies n
    ensures n.Val() == Scaled(old(n.Val()))
  {
    var neg := n.v < 0;
    var v := if neg then I64(-n.v) else n.v;
    while v >= MANTISSA_LIMIT
      invariant v >= 0
      invariant Scaled(Dec(if neg then -v else v, n.e)) == Scaled(old(n.Val()))
    {
      NegatedDiv(v, 10);
      v, n.e := v / 10, n.e + 1;
    }
    n.v := if neg then -v else v;
  }

  method Mul(r: Pd, n1: Pd, n2: Pd)
    requires IsScaled(n1.Val()) && IsScaled(n2.Val())
    modifies r
    ensures r.Val() == Product(old(n1.Val()), old(n2.Val()))
  {
    ProductFits(n1.Val(), n2.Val());
    r.v, r.e := I64(n1.v * n2.v), n1.e + n2.e;
    Scale(r);
  }

  /** The normalising loop of pd_div. */
  method Lift(v: int) returns (v1: int, m: nat)
    requires 0 < v < MANTISSA_LIMIT
    ensures m == LiftSteps(v) && v1 == v * Pow10(m)
  {
    v1, m := v, 0;
    assert v * Pow10(0) == v;
    while v1 < MANTISSA_LIMIT  // no bit of 0xfffffffff0000000 is set
      invariant 0 < v1 < 10 * MANTISSA_LIMIT
      invariant v1 == v * Pow10(m) && LiftSteps(v) == m + LiftSteps(v1)
    {
      RaisePower(v, m);
      v1, m := I64(v1 * 10), m + 1;
    }
  }

  lemma RaisePower(v: int, m: nat)
    ensures v * Pow10(m + 1) == v * Pow10(m) * 10
  {
    assert v * (10 * Pow10(m)) == (v * Pow10(m)) * 10;
  }

  method Div(r: Pd, n1: Pd, n2: Pd)
    requires IsScaled(n1.Val()) && IsScaled(n2.Val())
    requires n1.v != 0 ==> n2.v != 0
    modifies r
    ensures r.Val() == Quotient(old(n1.Val()), old(n2.Val()))
  {
    if n1.v == 0 {
      r.v, r.e := n1.v, n1.e;
      return;
    }
    var v1, v2 := n1.v, n2.v;
    var neg1, neg2, m: int := v1 < 0, v2 < 0, 0;
    if neg1 {
      v1 := -v1;
    }
    if neg2 {
      v2 := -v2;
    }
    RawQuotientBounds(n1.Val(), n2.Val());
    v1, m := Lift(v1);
    var q := I64(I64(v1 * SCALE9) / v2);
    if neg1 {
      q := -q;
    }
    if neg2 {
      q := -q;
    }
    r.v, r.e := q, n1.e - n2.e - m - 9;
    Scale(r);
  }

  /** The two mantissas aligned and added: every branch stays in 64 bits and inside the table. */
  method AlignedSum(v1: int, e1: int, v2: int, e2: int, p: seq<int>) returns (v: int, e: int)
    requires IsScaled(Dec(v1, e1)) && IsScaled(Dec(v2, e2)) && PowerTable(p)
    ensures Dec(v, e) == if e1 >= e2 then RawSum(Dec(v1, e1), Dec(v2, e2)) else RawSum(Dec(v2, e2), Dec(v1, e1))
    ensures INT64_MIN < v <= INT64_MAX
  {
    hide Pow10, PowerTable;
    var d := e1 - e2;
    FactorFor(p, Abs(d));
    if d >= 0 {
      RawSumFits(Dec(v1, e1), Dec(v2, e2));
    } else {
      RawSumFits(Dec(v2, e2), Dec(v1, e1));
    }
    if d == 0 {
      v, e := I64(v1 + v2), e1;
    } else if d > 0 {
      if d < 9 {
        v, e := I64(I64(v1 * p[d]) + v2), e2;
      } else if d < FACTOR_SIZE + 9 {
        v, e := I64(I64(v1 * SCALE9) + TruncDiv(v2, p[d - 9])), e1 - 9;
      } else {
        v, e := v1, e1;
      }
    } else {
      d := -d;
      if d < 9 {
        v, e := I64(v1 + I64(v2 * p[d])), e1;
      } else if d < FACTOR_SIZE + 9 {
        v, e := I64(TruncDiv(v1, p[d - 9]) + I64(v2 * SCALE9)), e2 - 9;
      } else {
        v, e := v2, e2;
      }
    }
  }

  method Add(r: Pd, n1: Pd, n2: Pd, p: seq<int>)
    requires IsScaled(n1.Val()) && IsScaled(n2.Val()) && PowerTable(p)
    modifies r
    ensures r.Val() == Sum(old(n1.Val()), old(n2.Val()))
  {
    hide Scaled, RawSum, PowerTable;
    var v, e := AlignedSum(n1.v, n1.e, n2.v, n2.e, p);
    r.v, r.e := v, e;
    Scale(r);
  }

  /** The table entry each branch reads lies inside the table. */
  lemma FactorFor(p: seq<int>, gap: nat)
    requires PowerTable(p)
    ensures |p| == FACTOR_SIZE
    ensures gap < 9 ==> p[gap] == Pow10(gap)
    ensures 9 <= gap < FACTOR_SIZE + 9 ==> p[gap - 9] == Pow10(gap - 9)
  {
  }

  /** The same for the difference, which is the sum with the negated second operand. */
  method AlignedDifference(v1: int, e1: int, v2: int, e2: int, p: seq<int>) returns (v: int, e: int)
    requires IsScaled(Dec(v1, e1)) && IsScaled(Dec(v2, e2)) && PowerTable(p)
    ensures Dec(v, e) == if e1 >= e2 then RawSum(Dec(v1, e1), Dec(-v2, e2)) else RawSum(Dec(-v2, e2), Dec(v1, e1))
    ensures INT64_MIN < v <= INT64_MAX
  {
    hide Pow10, PowerTable;
    var d := e1 - e2;
    FactorFor(p, Abs(d));
    NegProducts(v2, Abs(d));
    if d >= 0 {
      RawSumFits(Dec(v1, e1), Dec(-v2, e2));
    } else {
      RawSumFits(Dec(-v2, e2), Dec(v1, e1));
    }
    if d == 0 {
      v, e := I64(v1 - v2), e1;
    } else if d > 0 {
      if d < 9 {
        v, e := I64(I64(v1 * p[d]) - v2), e2;
      } else if d < FACTOR_SIZE + 9 {
        v, e := I64(I64(v1 * SCALE9) - TruncDiv(v2, p[d - 9])), e1 - 9;
      } else {
        v, e := v1, e1;
      }
    } else {
      d := -d;
      if d < 9 {
        v, e := I64(v1 - I64(v2 * p[d])), e1;
      } else if d < FACTOR_SIZE + 9 {
        v, e := I64(TruncDiv(v1, p[d - 9]) - I64(v2 * SCALE9)), e2 - 9;
      } else {
        v, e := -v2, e2;
      }
    }
  }

  method Sub(r: Pd, n1: Pd, n2: Pd, p: seq<int>)
    requires IsScaled(n1.Val()) && IsScaled(n2.Val()) && PowerTable(p)
    modifies r
    ensures r.Val() == Difference(old(n1.Val()), old(n2.Val()))
  {
    hide Scaled, RawSum, PowerTable;
    var v, e := AlignedDifference(n1.v, n1.e, n2.v, n2.e, p);
    r.v, r.e := v, e;
    Scale(r);
  }

  lemma NegProducts(v: int, gap: nat)
    requires Abs(v) < MANTISSA_LIMIT
    ensures gap < 9 ==> (-v) * Pow10(gap) == -(v * Pow10(gap)) && IsInt64(v * Pow10(gap))
    ensures gap >= 9 ==> TruncDiv(-v, Pow10(gap - 9)) == -TruncDiv(v, Pow10(gap - 9))
  {
    NegateProduct(v, Pow10(gap));
    if gap < 9 {
      NearFits(v, 0, gap);
    } else {
      NegatedDiv(Abs(v), Pow10(gap - 9));
    }
  }

  method Lt(n1: Pd, n2: Pd, p: seq<int>) returns (b: bool)
    requires IsScaled(n1.Val()) && IsScaled(n2.Val()) && PowerTable(p)
    ensures b <==> ComparesExactly(n1.Val(), n2.Val()) && Before(n1.Val(), n2.Val())
  {
    hide ComparesExactly, Before, Difference;
    var r := new Pd(0, 0);
    Sub(r, n1, n2, p);
    DifferenceOrder(n1.Val(), n2.Val());
    b := r.v < 0;
    assert r.v == r.Val().v;
  }

  method Gt(n1: Pd, n2: Pd, p: seq<int>) returns (b: bool)
    requires IsScaled(n1.Val()) && IsScaled(n2.Val()) && PowerTable(p)
    ensures b <==> ComparesExactly(n1.Val(), n2.Val()) && Before(n2.Val(), n1.Val())
  {
    hide ComparesExactly, Before, Difference;
    var r := new Pd(0, 0);
    Sub(r, n1, n2, p);
    DifferenceOrder(n1.Val(), n2.Val());
    b := r.v > 0;
    assert r.v == r.Val().v;
  }

  /** pd_store: None is the `false` return. */
  method Store(n: Pd) returns (r: Option<int>)
    requires IsInt64(n.v)
    ensures r == match Stored(n.Val()) case None => None case Some(d) => Some(Pack(d))
    ensures r.Some? ==> IsInt64(r.value)
  {
    var v, e := n.v, n.e;
    ghost var d := n.Val();
    while v < -MANTISSA59
      invariant IsInt64(v) && Trimmed(Dec(v, e)) == Trimmed(d)
      decreases Abs(v)
    {
      v, e := TruncDiv(v, 10), e + 1;
    }
    while v > MANTISSA59 - 1
      invariant -MANTISSA59 <= v <= INT64_MAX && Trimmed(Dec(v, e)) == Trimmed(d)
      decreases Abs(v)
    {
      v, e := TruncDiv(v, 10), e + 1;
    }
    assert Dec(v, e) == Trimmed(d);
    while e < EXP_MIN
      invariant Fits59(v) && Ranged(Dec(v, e)) == Stored(d)
      decreases EXP_MIN - e
    {
      DropDigit(v, e);
      v, e := TruncDiv(v, 10), e + 1;
    }
    while e > EXP_MAX
      invariant Fits59(v) && e >= EXP_MIN && Ranged(Dec(v, e)) == Stored(d)
      decreases e - EXP_MAX
    {
      RaiseDigit(v, e);
      v := I64(v * 10);
      if v < -MANTISSA59 || v > MANTISSA59 - 1 {
        return None;
      }
      e := e - 1;
    }
    StoredUnpacks(d);
    return Some(v * 32 + e % 32);
  }

  lemma DropDigit(v: int, e: int)
    requires e < EXP_MIN
    ensures Ranged(Dec(v, e)) == Ranged(Dec(TruncDiv(v, 10), e + 1))
  {
    TruncDivTwice(v, 10, Pow10(EXP_MIN - e - 1));
  }

  lemma RaiseDigit(v: int, e: int)
    requires e > EXP_MAX
    ensures Ranged(Dec(v, e)) == if Fits59(v * 10) then Ranged(Dec(v * 10, e - 1)) else None
  {
    var w := Pow10(e - EXP_MAX - 1);
    assert v * (10 * w) == (v * 10) * w;
    if v > 0 {
      MulMonotone(1, w, v * 10);
    } else {
      NegateProduct(v * 10, w);
      MulMonotone(1, w, -(v * 10));
    }
  }

  method Load(r: Pd, n: int)
    requires IsInt64(n)
    modifies r
    ensures r.Val() == Loaded(n)
  {
    var low := n % 32;
    r.v, r.e := n / 32, if low < 16 then low else low - 32;
    Scale(r);
  }
}
