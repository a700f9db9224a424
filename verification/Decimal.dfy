/**
 The decimal float pd_t: a mantissa below 2^28 in magnitude and a power-of-ten exponent.  The functions
 here say what each operation computes; the lemmas say how far that is from the exact result.
 */
module Decimal {
  import opened MachineInts
  import opened Multiplication

  datatype Dec = Dec(v: int, e: int)

  /** A mantissa is scaled when it has less than 28 bits. */
  const MANTISSA_LIMIT: int := 0x1000_0000
  const SCALE9: int := 1_000_000_000
  const FACTOR_SIZE: int := 18

  ghost function Pow10(n: nat): (p: nat)
    ensures p >= 1
  {
    if n == 0 then 1 else 10 * Pow10(n - 1)
  }

  predicate IsScaled(d: Dec) {
    Abs(d.v) < MANTISSA_LIMIT
  }

  /** The value of d, counted in units of 10^base. */
  ghost function Units(d: Dec, base: int): int
    requires base <= d.e
  {
    d.v * Pow10(d.e - base)
  }

  // ----- Powers of ten -----

  lemma {:induction false} Pow10Add(a: nat, b: nat)
    ensures Pow10(a + b) == Pow10(a) * Pow10(b)
  {
    if a > 0 {
      Pow10Add(a - 1, b);
      assert 10 * (Pow10(a - 1) * Pow10(b)) == (10 * Pow10(a - 1)) * Pow10(b);
    }
  }

  lemma {:induction false} Pow10Monotone(a: nat, b: nat)
    requires a <= b
    ensures Pow10(a) <= Pow10(b)
  {
    if a < b {
      Pow10Monotone(a, b - 1);
    }
  }

  lemma Pow10Values()
    ensures Pow10(0) == 1 && Pow10(1) == 10 && Pow10(2) == 100 && Pow10(3) == 1000 && Pow10(4) == 10000
    ensures Pow10(5) == 100_000 && Pow10(6) == 1_000_000 && Pow10(7) == 10_000_000 && Pow10(8) == 100_000_000
    ensures Pow10(9) == SCALE9 && Pow10(10) == 10 * SCALE9 && Pow10(11) == 100 * SCALE9
  {
    assert Pow10(2) == 100;
    assert Pow10(4) == 10000;
    assert Pow10(6) == 1_000_000;
    assert Pow10(8) == 100_000_000;
    assert Pow10(10) == 10_000_000_000;
  }

  // ----- Truncating division -----

  lemma MulCancel(x: int, y: int, w: nat)
    requires x * w < y * w
    ensures x < y
  {
    if x >= y {
      MulMonotone(y, x, w);
    }
  }

  lemma NegateProduct(x: int, w: int)
    ensures (-x) * w == -(x * w)
  {
  }

  lemma DivBounds(a: nat, b: nat)
    requires b > 0
    ensures a / b * b <= a < a / b * b + b
  {
  }

  lemma DivUnique(a: nat, b: nat, q: int)
    requires b > 0 && q * b <= a < q * b + b
    ensures a / b == q
  {
    DivBounds(a, b);
    MulCancel(a / b, q + 1, b);
    MulCancel(q, a / b + 1, b);
  }

  /** Truncation toward zero leaves a remainder smaller than the divisor, on the side of the dividend. */
  lemma TruncDivRemainder(a: int, b: nat)
    requires b > 0
    ensures Abs(a - TruncDiv(a, b) * b) < b
    ensures a >= 0 ==> 0 <= TruncDiv(a, b) * b <= a
    ensures a <= 0 ==> a <= TruncDiv(a, b) * b <= 0
    ensures Abs(TruncDiv(a, b)) == Abs(a) / b
  {
    DivBounds(Abs(a), b);
    NegateProduct(Abs(a) / b, b);
    MulMonotone(0, Abs(a) / b, b);
  }

  lemma DivDiv(a: nat, b: nat, c: nat)
    requires b > 0 && c > 0
    ensures b * c > 0 && (a / b) / c == a / (b * c)
  {
    var q, r := a / b / c, a / b;
    DivBounds(a, b);
    DivBounds(r, c);
    assert q * c * b == q * (b * c);
    MulMonotone(q * c, r, b);
    MulMonotone(r, q * c + c - 1, b);
    assert (q * c + c - 1) * b == q * (b * c) + b * c - b;
    DivUnique(a, b * c, q);
  }

  lemma TruncDivTwice(a: int, b: nat, c: nat)
    requires b > 0 && c > 0
    ensures b * c > 0 && TruncDiv(TruncDiv(a, b), c) == TruncDiv(a, b * c)
  {
    DivDiv(Abs(a), b, c);
    NegatedDiv(Abs(a) / b, c);
  }

  lemma NegatedDiv(q: int, c: nat)
    requires q >= 0 && c > 0
    ensures TruncDiv(q, c) == q / c && TruncDiv(-q, c) == -(q / c)
  {
    if q == 0 {
      DivUnique(0, c, 0);
    }
  }

  // ----- pd_scale -----

  /** pd_scale: drop decimal digits until the mantissa fits. */
  ghost function Scaled(d: Dec): Dec
    decreases Abs(d.v)
  {
    if IsScaled(d) then d else Scaled(Dec(TruncDiv(d.v, 10), d.e + 1))
  }

  /** Scaling truncates once, at the exponent it ends on, and never drops a digit it could keep. */
  lemma {:induction false} ScaledTruncates(d: Dec)
    ensures var s := Scaled(d);
            && IsScaled(s) && s.e >= d.e
            && s.v == TruncDiv(d.v, Pow10(s.e - d.e))
            && (s.e > d.e ==> Abs(s.v) >= MANTISSA_LIMIT / 10)
            && (s.v == 0 <==> d.v == 0) && (s.v > 0 <==> d.v > 0)
    decreases Abs(d.v)
  {
    if !IsScaled(d) {
      var n := Dec(TruncDiv(d.v, 10), d.e + 1);
      ScaledTruncates(n);
      var k := Scaled(n).e - n.e;
      TruncDivTwice(d.v, 10, Pow10(k));
    }
  }

  /** A mantissa below 2^28 * 10^k needs at most k digits dropped. */
  lemma {:induction false} ScaledSteps(d: Dec, k: nat)
    requires Abs(d.v) < MANTISSA_LIMIT * Pow10(k)
    ensures Scaled(d).e <= d.e + k
    decreases k
  {
    if !IsScaled(d) {
      assert k > 0;
      ScaledSteps(Dec(TruncDiv(d.v, 10), d.e + 1), k - 1);
    }
  }

  /** What the truncation costs, in units of any exponent at or below that of the operand. */
  lemma ScaledError(d: Dec, base: int)
    requires base <= d.e
    ensures base <= Scaled(d).e
    ensures Abs(Units(Scaled(d), base) - Units(d, base)) <= Pow10(Scaled(d).e - base) - Pow10(d.e - base)
  {
    ScaledTruncates(d);
    TruncationError(d.v, Scaled(d).v, Scaled(d).e - d.e, d.e - base);
  }

  lemma TruncationError(v: int, t: int, k: nat, j: nat)
    requires t == TruncDiv(v, Pow10(k))
    ensures Abs(t * Pow10(k + j) - v * Pow10(j)) <= Pow10(k + j) - Pow10(j)
  {
    TruncDivRemainder(v, Pow10(k));
    Pow10Add(k, j);
    FactorGap(t, v, Pow10(k), Pow10(j));
    ScaleBound(t * Pow10(k) - v, Pow10(k) - 1, Pow10(j));
  }

  lemma FactorGap(t: int, v: int, p: int, w: int)
    ensures t * (p * w) - v * w == (t * p - v) * w
    ensures (p - 1) * w == p * w - w
  {
    assert t * (p * w) == (t * p) * w;
  }

  lemma ScaleBound(x: int, bound: nat, w: nat)
    requires Abs(x) <= bound
    ensures Abs(x * w) <= bound * w
  {
    NegateProduct(x, w);
    MulMonotone(Abs(x), bound, w);
    MulMonotone(0, Abs(x), w);
  }

  // ----- Sum and difference -----

  ghost function Neg(d: Dec): Dec {
    Dec(-d.v, d.e)
  }

  /** The aligned sum before scaling, hi being the operand with the larger exponent. */
  ghost function RawSum(hi: Dec, lo: Dec): Dec
    requires hi.e >= lo.e
  {
    var gap := hi.e - lo.e;
    if gap < 9 then Dec(hi.v * Pow10(gap) + lo.v, lo.e)
    else if gap < FACTOR_SIZE + 9 then Dec(hi.v * SCALE9 + TruncDiv(lo.v, Pow10(gap - 9)), hi.e - 9)
    else hi
  }

  ghost function Sum(a: Dec, b: Dec): Dec {
    Scaled(if a.e >= b.e then RawSum(a, b) else RawSum(b, a))
  }

  ghost function Difference(a: Dec, b: Dec): Dec {
    Sum(a, Neg(b))
  }

  /** Alignment loses less than one unit of the exponent it aligns to, and nothing when the gap is small. */
  lemma RawSumError(hi: Dec, lo: Dec, base: int)
    requires hi.e >= lo.e >= base && IsScaled(lo)
    ensures var r := RawSum(hi, lo);
            && lo.e <= r.e <= hi.e
            && Abs(Units(r, base) - Units(hi, base) - Units(lo, base)) <= Pow10(r.e - base) - 1
  {
    var gap, j := hi.e - lo.e, lo.e - base;
    if gap < 9 {
      NearAlign(hi.v, lo.v, gap, j);
    } else if gap < FACTOR_SIZE + 9 {
      MidAlign(hi.v, lo.v, gap - 9, j);
    } else {
      FarAlign(lo.v, gap, j);
    }
  }

  lemma NearAlign(h: int, l: int, gap: nat, j: nat)
    ensures (h * Pow10(gap) + l) * Pow10(j) == h * Pow10(gap + j) + l * Pow10(j)
  {
    Pow10Add(gap, j);
    AlignHigh(h, l, Pow10(gap), Pow10(j));
  }

  lemma MidAlign(h: int, l: int, k: nat, j: nat)
    ensures var t := TruncDiv(l, Pow10(k));
            Abs((h * SCALE9 + t) * Pow10(k + j) - h * Pow10(k + 9 + j) - l * Pow10(j)) <= Pow10(k + j) - Pow10(j)
  {
    hide Pow10;
    Pow10Values();
    TruncationError(l, TruncDiv(l, Pow10(k)), k, j);
    Pow10Add(9, k + j);
    AlignHigh(h, TruncDiv(l, Pow10(k)), SCALE9, Pow10(k + j));
  }

  lemma FarAlign(l: int, gap: nat, j: nat)
    requires gap >= 9 && Abs(l) < MANTISSA_LIMIT
    ensures Abs(l * Pow10(j)) <= Pow10(gap + j) - 1
  {
    Pow10Values();
    Pow10Monotone(9, gap);
    Pow10Add(gap, j);
    ScaleBound(l, Pow10(gap) - 1, Pow10(j));
    FactorGap(0, 0, Pow10(gap), Pow10(j));
  }

  lemma AlignHigh(h: int, t: int, p: int, w: int)
    ensures (h * p + t) * w == h * (p * w) + t * w
  {
    assert (h * p + t) * w == (h * p) * w + t * w;
    assert (h * p) * w == h * (p * w);
  }

  /** The sum is scaled and off from the exact one by strictly less than one unit of its own exponent. */
  lemma SumError(a: Dec, b: Dec, base: int)
    requires IsScaled(a) && IsScaled(b) && base <= a.e && base <= b.e
    ensures IsScaled(Sum(a, b)) && base <= Sum(a, b).e
    ensures Abs(Units(Sum(a, b), base) - (Units(a, base) + Units(b, base))) < Pow10(Sum(a, b).e - base)
  {
    var hi, lo := if a.e >= b.e then a else b, if a.e >= b.e then b else a;
    var r := RawSum(hi, lo);
    RawSumError(hi, lo, base);
    ScaledTruncates(r);
    ScaledError(r, base);
  }

  /** The exponent of a sum is at most one above the larger operand's. */
  lemma SumExponent(a: Dec, b: Dec)
    requires IsScaled(a) && IsScaled(b)
    ensures Min(a.e, b.e) <= Sum(a, b).e <= Max(a.e, b.e) + 1
  {
    var hi, lo := if a.e >= b.e then a else b, if a.e >= b.e then b else a;
    var gap, r := hi.e - lo.e, RawSum(hi, lo);
    RawSumFits(hi, lo);
    ScaledTruncates(r);
    if gap < 9 {
      ScaledSteps(r, gap + 1);
    } else if gap < FACTOR_SIZE + 9 {
      ScaledSteps(r, 10);
    }
  }

  /** No intermediate of the aligned sum leaves 64 bits. */
  lemma RawSumFits(hi: Dec, lo: Dec)
    requires IsScaled(hi) && IsScaled(lo) && hi.e >= lo.e
    ensures var gap := hi.e - lo.e;
            && (gap < 9 ==> IsInt64(hi.v * Pow10(gap)) && Abs(RawSum(hi, lo).v) < MANTISSA_LIMIT * Pow10(gap + 1))
            && (9 <= gap < FACTOR_SIZE + 9 ==> Abs(RawSum(hi, lo).v) < MANTISSA_LIMIT * Pow10(10))
    ensures INT64_MIN < RawSum(hi, lo).v <= INT64_MAX
    ensures hi.e == lo.e ==> RawSum(hi, lo) == Dec(hi.v + lo.v, lo.e)
  {
    Pow10Values();
    hide Pow10;
    var gap := hi.e - lo.e;
    if gap < 9 {
      NearFits(hi.v, lo.v, gap);
    } else if gap < FACTOR_SIZE + 9 {
      TruncDivRemainder(lo.v, Pow10(gap - 9));
      QuotientShrinks(Abs(lo.v), Pow10(gap - 9));
    }
  }

  lemma NearFits(h: int, l: int, gap: nat)
    requires Abs(h) < MANTISSA_LIMIT && Abs(l) < MANTISSA_LIMIT && gap < 9
    ensures IsInt64(h * Pow10(gap)) && IsInt64(h * Pow10(gap) + l)
    ensures Abs(h * Pow10(gap) + l) < MANTISSA_LIMIT * Pow10(gap + 1)
  {
    assert Pow10(gap) <= 100_000_000 by {
      Pow10Values();
      Pow10Monotone(gap, 8);
    }
    var p := Pow10(gap);
    ScaleBound(h, MANTISSA_LIMIT - 1, p);
  }

  lemma QuotientShrinks(a: nat, b: nat)
    requires b > 0
    ensures a / b <= a
  {
    DivBounds(a, b);
    MulMonotone(1, b, a / b);
  }

  /** pd_add does not depend on the order of its operands. */
  lemma SumCommutes(a: Dec, b: Dec)
    ensures Sum(a, b) == Sum(b, a)
  {
  }

  lemma NegUnits(d: Dec, base: int)
    requires base <= d.e
    ensures Units(Neg(d), base) == -Units(d, base)
  {
    NegateProduct(d.v, Pow10(d.e - base));
  }

  /** pd_sub has the accuracy and the exponent bound of pd_add. */
  lemma DifferenceError(a: Dec, b: Dec, base: int)
    requires IsScaled(a) && IsScaled(b) && base <= a.e && base <= b.e
    ensures var r := Difference(a, b);
            && IsScaled(r) && base <= r.e <= Max(a.e, b.e) + 1
            && Abs(Units(r, base) - (Units(a, base) - Units(b, base))) < Pow10(r.e - base)
  {
    SumError(a, Neg(b), base);
    SumExponent(a, Neg(b));
    NegUnits(b, base);
  }

  // ----- Comparison -----

  function Sign(x: int): int {
    if x < 0 then -1 else if x == 0 then 0 else 1
  }

  /**
   When pd_lt and pd_gt see the true order: unless the operand with the larger exponent is zero and the
   other one disappears in its alignment.
   */
  ghost predicate ComparesExactly(a: Dec, b: Dec) {
    var hi, lo := if a.e >= b.e then a else b, if a.e >= b.e then b else a;
    var gap := hi.e - lo.e;
    gap < 9 || hi.v != 0 || lo.v == 0 || (gap < FACTOR_SIZE + 9 && Abs(lo.v) >= Pow10(gap - 9))
  }

  lemma SignOfProduct(x: int, w: nat)
    requires w > 0
    ensures Sign(x * w) == Sign(x)
  {
    if x > 0 {
      MulMonotone(1, x, w);
    } else if x < 0 {
      MulMonotone(x, -1, w);
    }
  }

  /** A non-zero high operand decides the sign of a sum whose low operand is scaled and far below. */
  lemma HighDecides(h: int, l: int, p: nat)
    requires h != 0 && Abs(l) < p
    ensures Sign(h * p + l) == Sign(h)
  {
    if h > 0 {
      MulMonotone(1, h, p);
    } else {
      MulMonotone(h, -1, p);
    }
  }

  lemma ExactSumSign(h: int, l: int, gap: nat, j: nat)
    ensures Sign(h * Pow10(gap + j) + l * Pow10(j)) == Sign(h * Pow10(gap) + l)
  {
    NearAlign(h, l, gap, j);
    SignOfProduct(h * Pow10(gap) + l, Pow10(j));
  }

  /** Alignment keeps the sign unless it loses the only operand that is not zero. */
  lemma RawSumSign(hi: Dec, lo: Dec)
    requires IsScaled(hi) && IsScaled(lo) && hi.e >= lo.e
    ensures Sign(RawSum(hi, lo).v) == Sign(hi.v * Pow10(hi.e - lo.e) + lo.v) <==> ComparesExactly(hi, lo)
  {
    hide Pow10;
    var gap := hi.e - lo.e;
    if gap >= 9 {
      Pow10Monotone(9, gap);
      Pow10Values();
      if hi.v != 0 {
        HighDecides(hi.v, lo.v, Pow10(gap));
      }
      if gap < FACTOR_SIZE + 9 {
        MidSign(hi.v, lo.v, Pow10(gap - 9));
      }
    }
  }

  lemma SumSign(a: Dec, b: Dec, base: int)
    requires IsScaled(a) && IsScaled(b) && base <= a.e && base <= b.e
    ensures Sign(Sum(a, b).v) == Sign(Units(a, base) + Units(b, base)) <==> ComparesExactly(a, b)
  {
    hide Pow10, RawSum, Scaled;
    var hi, lo := if a.e >= b.e then a else b, if a.e >= b.e then b else a;
    ScaledTruncates(RawSum(hi, lo));
    ExactSumSign(hi.v, lo.v, hi.e - lo.e, lo.e - base);
    RawSumSign(hi, lo);
  }

  lemma MidSign(h: int, l: int, p: nat)
    requires p > 0 && Abs(l) < MANTISSA_LIMIT
    ensures h != 0 ==> Sign(h * SCALE9 + TruncDiv(l, p)) == Sign(h)
    ensures h == 0 ==> (Sign(h * SCALE9 + TruncDiv(l, p)) == Sign(l) <==> l == 0 || Abs(l) >= p)
  {
    TruncDivRemainder(l, p);
    QuotientShrinks(Abs(l), p);
    if h != 0 {
      HighDecides(h, TruncDiv(l, p), SCALE9);
    } else if Abs(l) < p {
      DivUnique(Abs(l), p, 0);
    } else {
      DivBounds(Abs(l), p);
      MulCancel(0, Abs(l) / p + 1, p);
      assert Abs(l) / p != 0;
    }
  }

  /** The sign pd_lt and pd_gt test is that of the exact difference exactly when ComparesExactly holds. */
  lemma DifferenceSign(a: Dec, b: Dec, base: int)
    requires IsScaled(a) && IsScaled(b) && base <= a.e && base <= b.e
    ensures Sign(Difference(a, b).v) == Sign(Units(a, base) - Units(b, base)) <==> ComparesExactly(a, b)
  {
    SumSign(a, Neg(b), base);
    NegUnits(b, base);
  }

  /** An operand that disappears beside a zero leaves no difference. */
  lemma HiddenSum(hi: Dec, lo: Dec)
    requires hi.e >= lo.e && !ComparesExactly(hi, lo)
    ensures RawSum(hi, lo).v == 0
  {
    hide Pow10;
    var gap := hi.e - lo.e;
    if gap < FACTOR_SIZE + 9 {
      TruncDivRemainder(lo.v, Pow10(gap - 9));
    }
  }

  /** The exact order, in units of the smaller exponent. */
  ghost predicate Before(a: Dec, b: Dec) {
    Units(a, Min(a.e, b.e)) < Units(b, Min(a.e, b.e))
  }

  /** pd_lt and pd_gt hold exactly when the exact order does and they see it. */
  lemma DifferenceOrder(a: Dec, b: Dec)
    requires IsScaled(a) && IsScaled(b)
    ensures Difference(a, b).v < 0 <==> ComparesExactly(a, b) && Before(a, b)
    ensures Difference(a, b).v > 0 <==> ComparesExactly(a, b) && Before(b, a)
  {
    hide Pow10, RawSum, Scaled, Units;
    DifferenceSign(a, b, Min(a.e, b.e));
    if !ComparesExactly(a, b) {
      var n := Neg(b);
      var hi, lo := if a.e >= n.e then a else n, if a.e >= n.e then n else a;
      HiddenSum(hi, lo);
      ScaledTruncates(RawSum(hi, lo));
    }
  }

  /** Zero at exponent 9 and one at exponent -1 compare as equal. */
  lemma ZeroHidesOperand()
    ensures var a, b := Dec(0, 9), Dec(1, -1);
            Difference(a, b).v == 0 && Units(a, -1) < Units(b, -1)
  {
    Pow10Values();
  }

  /**
   pd_add drops no digit it could keep: the sum is exact at the smaller exponent while it fits a mantissa and the
   exponents are less than 9 apart, and cut to a full mantissa otherwise.  Further apart, digits are dropped from
   9 below the larger exponent on, or the other operand is dropped.
   */
  lemma SumKeepsDigits(a: Dec, b: Dec)
    requires IsScaled(a) && IsScaled(b)
    ensures var r, low, gap := Sum(a, b), Min(a.e, b.e), Max(a.e, b.e) - Min(a.e, b.e);
            var exact := Units(a, low) + Units(b, low);
            && (gap < 9 ==>
                  && r.e >= low && r.v == TruncDiv(exact, Pow10(r.e - low))
                  && (r.e > low ==> Abs(r.v) >= MANTISSA_LIMIT / 10)
                  && (Abs(exact) < 0x1000_0000 ==> r == Dec(exact, low)))
            && (9 <= gap < 27 ==> r.e >= low + gap - 9 && (r.e > low + gap - 9 ==> Abs(r.v) >= MANTISSA_LIMIT / 10))
            && (27 <= gap ==> r == if a.e >= b.e then a else b)
  {
    hide Pow10, Scaled, TruncDiv, RawSum;
    var hi, lo := if a.e >= b.e then a else b, if a.e >= b.e then b else a;
    ScaledTruncates(RawSum(hi, lo));
    ScaledIsSame(RawSum(hi, lo));
    RawSumDigits(hi, lo);
  }

  /** pd_sub likewise. */
  lemma DifferenceKeepsDigits(a: Dec, b: Dec)
    requires IsScaled(a) && IsScaled(b)
    ensures var r, low, gap := Difference(a, b), Min(a.e, b.e), Max(a.e, b.e) - Min(a.e, b.e);
            var exact := Units(a, low) - Units(b, low);
            && (gap < 9 ==>
                  && r.e >= low && r.v == TruncDiv(exact, Pow10(r.e - low))
                  && (r.e > low ==> Abs(r.v) >= MANTISSA_LIMIT / 10)
                  && (Abs(exact) < 0x1000_0000 ==> r == Dec(exact, low)))
            && (9 <= gap < 27 ==> r.e >= low + gap - 9 && (r.e > low + gap - 9 ==> Abs(r.v) >= MANTISSA_LIMIT / 10))
            && (27 <= gap ==> r == if a.e >= b.e then a else Dec(-b.v, b.e))
  {
    hide Sum, Units, TruncDiv;
    SumKeepsDigits(a, Neg(b));
    NegUnits(b, Min(a.e, b.e));
  }

  lemma RawSumDigits(hi: Dec, lo: Dec)
    requires hi.e >= lo.e
    ensures var raw, gap := RawSum(hi, lo), hi.e - lo.e;
            && (gap < 9 ==> raw == Dec(Units(hi, lo.e) + Units(lo, lo.e), lo.e))
            && (9 <= gap < 27 ==> raw.e == hi.e - 9)
            && (27 <= gap ==> raw == hi)
  {
    assert lo.v * Pow10(0) == lo.v;
  }

  lemma ScaledIsSame(d: Dec)
    ensures Abs(d.v) < 0x1000_0000 ==> Scaled(d) == d
  {
  }

  // ----- Product -----

  ghost function Product(a: Dec, b: Dec): Dec {
    Scaled(Dec(a.v * b.v, a.e + b.e))
  }

  lemma ProductFits(a: Dec, b: Dec)
    requires IsScaled(a) && IsScaled(b)
    ensures IsInt64(a.v * b.v) && Abs(a.v * b.v) == Abs(a.v) * Abs(b.v) < MANTISSA_LIMIT * MANTISSA_LIMIT
  {
    NegateProduct(a.v, Abs(b.v));
    NegateProduct(b.v, a.v);
    MulMonotone(Abs(a.v), MANTISSA_LIMIT - 1, Abs(b.v));
    MulMonotone(Abs(b.v), MANTISSA_LIMIT - 1, MANTISSA_LIMIT - 1);
    MulMonotone(0, Abs(a.v), Abs(b.v));
  }

  /** pd_mul: scaled, off by less than one unit of its own exponent, at most 9 digits dropped. */
  lemma ProductError(a: Dec, b: Dec, base: int)
    requires IsScaled(a) && IsScaled(b) && base <= a.e + b.e
    ensures var r := Product(a, b);
            && IsScaled(r) && a.e + b.e <= r.e <= a.e + b.e + 9
            && Abs(Units(r, base) - a.v * b.v * Pow10(a.e + b.e - base)) < Pow10(r.e - base)
  {
    var d := Dec(a.v * b.v, a.e + b.e);
    ProductFits(a, b);
    Pow10Values();
    ScaledSteps(d, 9);
    ScaledTruncates(d);
    ScaledError(d, base);
  }

  /**
   pd_mul drops no digit it could keep: the mantissa is the exact product truncated toward zero at the exponent the
   result ends on, and if that is not the exponent of the exact product, the mantissa is full.
   */
  lemma ProductKeepsDigits(a: Dec, b: Dec)
    requires IsScaled(a) && IsScaled(b)
    ensures var r, exact := Product(a, b), a.v * b.v;
            && r.e >= a.e + b.e && r.v == TruncDiv(exact, Pow10(r.e - a.e - b.e))
            && (r.e > a.e + b.e ==> Abs(r.v) >= MANTISSA_LIMIT / 10)
            && (Abs(exact) < 0x1000_0000 ==> r == Dec(exact, a.e + b.e))
            && (r.v == 0 <==> a.v == 0 || b.v == 0)
  {
    ScaledTruncates(Dec(a.v * b.v, a.e + b.e));
    ZeroProduct(a.v, b.v);
  }

  lemma ZeroProduct(x: int, y: int)
    ensures x * y == 0 <==> x == 0 || y == 0
  {
    if y > 0 {
      SignOfProduct(x, y);
    } else if y < 0 {
      SignOfProduct(x, -y);
      assert x * y == -(x * -y);
    }
  }

  // ----- Quotient -----

  /** How often the dividend is multiplied by ten until it has 28 bits. */
  ghost function LiftSteps(v: int): nat
    requires v > 0
    decreases MANTISSA_LIMIT - v
  {
    if v >= MANTISSA_LIMIT then 0 else 1 + LiftSteps(10 * v)
  }

  lemma {:induction false} LiftBounds(v: int)
    requires 0 < v < MANTISSA_LIMIT
    ensures MANTISSA_LIMIT <= v * Pow10(LiftSteps(v)) < 10 * MANTISSA_LIMIT
    decreases MANTISSA_LIMIT - v
  {
    if 10 * v < MANTISSA_LIMIT {
      LiftBounds(10 * v);
      assert v * (10 * Pow10(LiftSteps(10 * v))) == (10 * v) * Pow10(LiftSteps(10 * v));
    } else {
      Pow10Values();
      assert LiftSteps(v) == 1;
    }
  }

  lemma LiftStepsBound(v: int)
    requires 0 < v < MANTISSA_LIMIT
    ensures LiftSteps(v) <= 9
  {
    LiftBounds(v);
    Pow10Values();
    if LiftSteps(v) > 9 {
      Pow10Monotone(10, LiftSteps(v));
      MulMonotone(1, v, Pow10(LiftSteps(v)));
    }
  }

  ghost function RawQuotient(a: Dec, b: Dec): Dec
    requires a.v != 0 && b.v != 0
  {
    var m := LiftSteps(Abs(a.v));
    var q := Abs(a.v) * Pow10(m) * SCALE9 / Abs(b.v);
    Dec(if (a.v < 0) == (b.v < 0) then q else -q, a.e - b.e - m - 9)
  }

  ghost function Quotient(a: Dec, b: Dec): Dec
    requires a.v != 0 ==> b.v != 0
  {
    if a.v == 0 then a else Scaled(RawQuotient(a, b))
  }

  /** The raw quotient has more digits than a mantissa holds, and everything fits 64 bits on the way. */
  lemma RawQuotientBounds(a: Dec, b: Dec)
    requires IsScaled(a) && IsScaled(b) && a.v != 0 && b.v != 0
    ensures var lifted := Abs(a.v) * Pow10(LiftSteps(Abs(a.v)));
            && MANTISSA_LIMIT <= lifted < 10 * MANTISSA_LIMIT && IsInt64(lifted * SCALE9)
            && MANTISSA_LIMIT <= lifted * SCALE9 / Abs(b.v) <= INT64_MAX
  {
    LiftBounds(Abs(a.v));
    LargeQuotient(Abs(a.v) * Pow10(LiftSteps(Abs(a.v))), Abs(b.v));
  }

  lemma LargeQuotient(lifted: nat, b: nat)
    requires MANTISSA_LIMIT <= lifted < 10 * MANTISSA_LIMIT && 0 < b < MANTISSA_LIMIT
    ensures MANTISSA_LIMIT <= lifted * SCALE9 / b <= lifted * SCALE9 <= INT64_MAX
  {
    var n := lifted * SCALE9;
    DivBounds(n, b);
    QuotientShrinks(n, b);
    MulMonotone(b, MANTISSA_LIMIT, SCALE9);
    MulCancel(SCALE9, n / b + 1, b);
  }

  /** pd_div fills the mantissa: the result is scaled and has at least 26843545 units. */
  lemma QuotientMantissa(a: Dec, b: Dec)
    requires IsScaled(a) && IsScaled(b) && a.v != 0 && b.v != 0
    ensures 26_843_545 <= Abs(Quotient(a, b).v) < MANTISSA_LIMIT
  {
    RawQuotientBounds(a, b);
    ScaledTruncates(RawQuotient(a, b));
  }

  /**
   The error of pd_div is less than one unit r.e of the result, multiplied out by the divisor:
   |r * b - a| < 10^r.e * |b|, and r never exceeds the true quotient in magnitude.
   */
  lemma QuotientError(a: Dec, b: Dec, base: int)
    requires IsScaled(a) && IsScaled(b) && a.v != 0 && b.v != 0 && base <= a.e - 18
    ensures var r := Quotient(a, b);
            && base <= r.e + b.e
            && Sign(r.v) == Sign(a.v) * Sign(b.v)
            && Abs(r.v) * Abs(b.v) * Pow10(r.e + b.e - base) <= Abs(Units(a, base))
            && Abs(Units(a, base)) < (Abs(r.v) + 1) * Abs(b.v) * Pow10(r.e + b.e - base)
  {
    RawQuotientBounds(a, b);
    LiftStepsBound(Abs(a.v));
    var raw, m := RawQuotient(a, b), LiftSteps(Abs(a.v));
    ScaledTruncates(raw);
    var r := Quotient(a, b);
    var k := r.e - raw.e;
    TruncDivRemainder(raw.v, Pow10(k));
    var lifted := Abs(a.v) * Pow10(m) * SCALE9;
    DivDiv(lifted, Abs(b.v), Pow10(k));
    assert Abs(r.v) == lifted / (Abs(b.v) * Pow10(k));
    DivBounds(lifted, Abs(b.v) * Pow10(k));
    var j := a.e - m - 9 - base;
    assert r.e + b.e - base == k + j;
    QuotientUnits(Abs(a.v), Abs(b.v), Abs(r.v), m, k, j);
    NegateProduct(a.v, Pow10(a.e - base));
    MulMonotone(0, Abs(a.v), Pow10(a.e - base));
  }

  lemma QuotientUnits(a: nat, b: nat, r: nat, m: nat, k: nat, j: nat)
    requires r * (b * Pow10(k)) <= a * Pow10(m) * SCALE9 < r * (b * Pow10(k)) + b * Pow10(k)
    ensures r * b * Pow10(k + j) <= a * Pow10(m + 9 + j) < (r + 1) * b * Pow10(k + j)
  {
    var d, n := b * Pow10(k), a * Pow10(m) * SCALE9;
    assert Pow10(m + 9 + j) == Pow10(m) * SCALE9 * Pow10(j) by {
      Pow10Values();
      Pow10Add(m, 9);
      Pow10Add(m + 9, j);
    }
    assert a * (Pow10(m) * SCALE9 * Pow10(j)) == n * Pow10(j) by {
      Regroup(1, a, Pow10(m) * SCALE9, Pow10(j));
      Regroup(1, a, Pow10(m), SCALE9);
    }
    Pow10Add(k, j);
    Regroup(r, b, Pow10(k), Pow10(j));
    Regroup(r + 1, b, Pow10(k), Pow10(j));
    MulMonotone(r * d, n, Pow10(j));
    assert (r + 1) * d == r * d + d;
    MulMonotone(n + 1, (r + 1) * d, Pow10(j));
    assert (n + 1) * Pow10(j) == n * Pow10(j) + Pow10(j);
  }

  lemma Regroup(r: int, b: int, p: int, w: int)
    ensures r * b * (p * w) == (r * (b * p)) * w
  {
    assert r * b * (p * w) == ((r * b) * p) * w;
    assert (r * b) * p == r * (b * p);
  }
}
