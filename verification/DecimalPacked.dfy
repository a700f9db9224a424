/** The 64-bit packed form of a decimal: a 59-bit mantissa above a 5-bit exponent. */
module DecimalPacked {
  import opened MachineInts
  import opened Decimal
  import opened Wrappers
  import opened Multiplication

  const EXP_MIN: int := -16
  const EXP_MAX: int := 15
  const MANTISSA59: int := 0x400_0000_0000_0000

  predicate Fits59(v: int) {
    -MANTISSA59 <= v < MANTISSA59
  }

  /** ( v << 5 ) | ( e & 31 ) */
  function Pack(d: Dec): int {
    d.v * 32 + d.e % 32
  }

  /** n >> 5, and the low five bits sign-extended. */
  function Unpack(n: int): Dec {
    var low := n % 32;
    Dec(n / 32, if low < 16 then low else low - 32)
  }

  lemma PackRoundTrip(d: Dec)
    requires Fits59(d.v) && EXP_MIN <= d.e <= EXP_MAX
    ensures IsInt64(Pack(d)) && Unpack(Pack(d)) == d
    ensures Pack(d) / 32 == d.v && (Pack(d) - d.e) % 32 == 0
  {
  }

  lemma UnpackRoundTrip(n: int)
    requires IsInt64(n)
    ensures var d := Unpack(n); Fits59(d.v) && EXP_MIN <= d.e <= EXP_MAX && Pack(d) == n
  {
  }

  /** The first two loops of pd_store: drop digits until the mantissa has 59 bits. */
  ghost function Trimmed(d: Dec): Dec
    decreases Abs(d.v)
  {
    if Fits59(d.v) then d else Trimmed(Dec(TruncDiv(d.v, 10), d.e + 1))
  }

  /** The last two: bring the exponent into range, or give up. */
  ghost function Ranged(d: Dec): Option<Dec> {
    if d.e < EXP_MIN then Some(Dec(TruncDiv(d.v, Pow10(EXP_MIN - d.e)), EXP_MIN))
    else if d.e <= EXP_MAX then Some(d)
    else
      var v := d.v * Pow10(d.e - EXP_MAX);
      if Fits59(v) then Some(Dec(v, EXP_MAX)) else None
  }

  /** pd_store before packing. */
  ghost function Stored(d: Dec): Option<Dec> {
    Ranged(Trimmed(d))
  }

  ghost function Loaded(n: int): Dec {
    Scaled(Unpack(n))
  }

  lemma {:induction false} TrimmedFits(d: Dec)
    ensures Fits59(Trimmed(d).v) && (Fits59(d.v) ==> Trimmed(d) == d)
    decreases Abs(d.v)
  {
    if !Fits59(d.v) {
      TrimmedFits(Dec(TruncDiv(d.v, 10), d.e + 1));
    }
  }

  /** A mantissa beyond 59 bits is cut once, toward zero, and keeps every digit that fits. */
  lemma {:induction false} TrimmedTruncates(d: Dec)
    ensures var t := Trimmed(d);
            && Fits59(t.v) && t.e >= d.e && t.v == TruncDiv(d.v, Pow10(t.e - d.e))
            && (t.e > d.e ==> Abs(t.v) >= MANTISSA59 / 10)
    decreases Abs(d.v)
  {
    if !Fits59(d.v) {
      var n := Dec(TruncDiv(d.v, 10), d.e + 1);
      TrimmedTruncates(n);
      TruncDivTwice(d.v, 10, Pow10(Trimmed(n).e - n.e));
    }
  }

  /** Whatever pd_store accepts, its packed word unpacks to. */
  lemma StoredUnpacks(d: Dec)
    requires Stored(d).Some?
    ensures var s := Stored(d).value;
            Fits59(s.v) && EXP_MIN <= s.e <= EXP_MAX && IsInt64(Pack(s)) && Unpack(Pack(s)) == s
  {
    TrimmedFits(d);
    var t := Trimmed(d);
    if t.e < EXP_MIN {
      TruncDivRemainder(t.v, Pow10(EXP_MIN - t.e));
      QuotientShrinks(Abs(t.v), Pow10(EXP_MIN - t.e));
    }
    PackRoundTrip(Stored(d).value);
  }

  /** Storing and loading a scaled value with an exponent in range changes nothing. */
  lemma StoreLoadIdentity(d: Dec)
    requires IsScaled(d) && EXP_MIN <= d.e <= EXP_MAX
    ensures Stored(d).Some? && Loaded(Pack(Stored(d).value)) == d
  {
    TrimmedFits(d);
    StoredUnpacks(d);
  }

  /** Below the range, the value is truncated toward zero at 10^-16. */
  lemma StoreLoadSmall(d: Dec)
    requires IsScaled(d) && d.e < EXP_MIN
    ensures Stored(d).Some?
    ensures Loaded(Pack(Stored(d).value)) == Dec(TruncDiv(d.v, Pow10(EXP_MIN - d.e)), EXP_MIN)
  {
    TrimmedFits(d);
    StoredUnpacks(d);
    TruncDivRemainder(d.v, Pow10(EXP_MIN - d.e));
    QuotientShrinks(Abs(d.v), Pow10(EXP_MIN - d.e));
  }

  /**
   Above the range, the store succeeds exactly when the value fits 59 signed bits at exponent 15, and
   then loading gives the same value back, possibly at a smaller exponent.
   */
  lemma StoreLoadLarge(d: Dec)
    requires IsScaled(d) && d.e > EXP_MAX
    ensures Stored(d).Some? <==> Fits59(Units(d, EXP_MAX))
    ensures Stored(d).Some? ==>
              var l := Loaded(Pack(Stored(d).value));
              IsScaled(l) && l.e >= EXP_MAX && Units(l, EXP_MAX) == Units(d, EXP_MAX)
  {
    TrimmedFits(d);
    if Stored(d).Some? {
      StoredUnpacks(d);
      ScaledExactly(d.v, d.e - EXP_MAX, EXP_MAX);
      ScaledTruncates(Stored(d).value);
    }
  }

  /** Scaling only takes back the zeros that raising the mantissa put there. */
  lemma ScaledExactly(v: int, j: nat, e: int)
    requires Abs(v) < MANTISSA_LIMIT
    ensures var s := Scaled(Dec(v * Pow10(j), e)); s.e >= e && s.v * Pow10(s.e - e) == v * Pow10(j)
  {
    var d := Dec(v * Pow10(j), e);
    ScaleBelow(v, Pow10(j));
    ScaledSteps(d, j);
    ScaledTruncates(d);
    var k := Scaled(d).e - e;
    SplitPower(v, j - k, k);
    TruncDivExact(v * Pow10(j - k), Pow10(k));
  }

  lemma SplitPower(v: int, i: nat, k: nat)
    ensures v * Pow10(i + k) == (v * Pow10(i)) * Pow10(k)
  {
    Pow10Add(i, k);
    assert v * (Pow10(i) * Pow10(k)) == (v * Pow10(i)) * Pow10(k);
  }

  lemma ScaleBelow(v: int, w: nat)
    requires Abs(v) < MANTISSA_LIMIT && w > 0
    ensures Abs(v * w) < MANTISSA_LIMIT * w
  {
    ScaleBound(v, MANTISSA_LIMIT - 1, w);
  }

  lemma TruncDivExact(q: int, b: nat)
    requires b > 0
    ensures TruncDiv(q * b, b) == q
  {
    NegateProduct(q, b);
    MulMonotone(0, Abs(q), b);
    DivUnique(Abs(q) * b, b, Abs(q));
  }
}
