/** Positional numbers: what a string of digits stands for, and that the digits are determined by it. */
module Positional {
  import opened Multiplication

  ghost function Power(base: nat, n: nat): (p: nat)
    requires base > 0
    ensures p > 0
  {
    if n == 0 then 1 else base * Power(base, n - 1)
  }

  ghost predicate Digits(base: nat, s: seq<int>) {
    forall i :: 0 <= i < |s| ==> 0 <= s[i] < base
  }

  /** Most significant digit first. */
  ghost function Value(base: nat, s: seq<int>): int
    requires base > 0
  {
    if s == [] then 0 else s[0] * Power(base, |s| - 1) + Value(base, s[1..])
  }

  ghost function Reversed<T>(s: seq<T>): (r: seq<T>)
    ensures |r| == |s| && forall i :: 0 <= i < |s| ==> r[i] == s[|s| - 1 - i]
  {
    if s == [] then [] else Reversed(s[1..]) + [s[0]]
  }

  ghost function Zeros(n: nat): (z: seq<int>)
    ensures |z| == n && forall i :: 0 <= i < n ==> z[i] == 0
  {
    seq(n, i => 0)
  }

  lemma {:induction false} ValueAppend(base: nat, s: seq<int>, d: int)
    requires base > 0
    ensures Value(base, s + [d]) == Value(base, s) * base + d
  {
    if s == [] {
      assert ([] + [d])[1..] == [];
      assert Power(base, 0) == 1;
    } else {
      ValueAppend(base, s[1..], d);
      assert (s + [d])[1..] == s[1..] + [d];
      Shift(s[0], base, Power(base, |s| - 1), Value(base, s[1..]));
    }
  }

  lemma Shift(d: int, base: nat, p: nat, v: int)
    ensures d * (base * p) + (v * base) == (d * p + v) * base
  {
    assert d * (base * p) == (d * p) * base;
  }

  lemma {:induction false} ValueBounds(base: nat, s: seq<int>)
    requires base > 0 && Digits(base, s)
    ensures 0 <= Value(base, s) < Power(base, |s|)
    ensures s != [] && s[0] != 0 ==> Value(base, s) >= Power(base, |s| - 1)
  {
    if s != [] {
      ValueBounds(base, s[1..]);
      DigitTimes(s[0], base, Power(base, |s| - 1));
    }
  }

  lemma DigitTimes(d: int, base: nat, p: nat)
    requires 0 <= d < base
    ensures 0 <= d * p && d * p + p <= base * p && (d != 0 ==> d * p >= p)
  {
    MulMonotone(d + 1, base, p);
    MulStep(d, p);
    MulMonotone(d, d, p);
    MulMonotone(0, d, p);
    if d != 0 {
      MulMonotone(1, d, p);
    }
  }

  lemma {:induction false} LeadingZeros(base: nat, n: nat, s: seq<int>)
    requires base > 0
    ensures Value(base, Zeros(n) + s) == Value(base, s)
  {
    if n == 0 {
      assert Zeros(0) + s == s;
    } else {
      LeadingZeros(base, n - 1, s);
      assert (Zeros(n) + s)[1..] == Zeros(n - 1) + s;
    }
  }

  lemma DivMod(base: nat, q: int, d: int)
    requires base > 0 && 0 <= d < base
    ensures (q * base + d) / base == q && (q * base + d) % base == d
  {
    var n := q * base + d;
    assert n == base * (n / base) + n % base;
    Cancel(base, q - n / base, n % base - d);
  }

  lemma Cancel(base: nat, k: int, r: int)
    requires base > 0 && k * base == r && -r < base && r < base
    ensures k == 0
  {
    if k > 0 {
      MulMonotone(1, k, base);
    } else if k < 0 {
      MulMonotone(k, -1, base);
    }
  }

  /** Digit strings without a leading zero are equal when their values are. */
  lemma {:induction false} ValueInjective(base: nat, a: seq<int>, b: seq<int>)
    requires base > 1 && Digits(base, a) && Digits(base, b)
    requires a != [] ==> a[0] != 0
    requires b != [] ==> b[0] != 0
    requires Value(base, a) == Value(base, b)
    ensures a == b
    decreases |a|
  {
    ValueBounds(base, a);
    ValueBounds(base, b);
    if a != [] && b != [] {
      LastDigit(base, a);
      LastDigit(base, b);
      ValueInjective(base, a[..|a| - 1], b[..|b| - 1]);
      assert a == a[..|a| - 1] + [a[|a| - 1]] && b == b[..|b| - 1] + [b[|b| - 1]];
    }
  }

  lemma LastDigit(base: nat, a: seq<int>)
    requires base > 1 && Digits(base, a) && a != []
    ensures Value(base, a) / base == Value(base, a[..|a| - 1]) && Value(base, a) % base == a[|a| - 1]
  {
    assert a == a[..|a| - 1] + [a[|a| - 1]];
    ValueAppend(base, a[..|a| - 1], a[|a| - 1]);
    DivMod(base, Value(base, a[..|a| - 1]), a[|a| - 1]);
  }

  lemma {:induction false} PowerMonotone(base: nat, m: nat, n: nat)
    requires base > 0 && m <= n
    ensures Power(base, m) <= Power(base, n)
  {
    if m < n {
      PowerMonotone(base, m, n - 1);
      MulMonotone(1, base, Power(base, n - 1));
    }
  }

  lemma {:induction false} PowerBase(a: nat, b: nat, n: nat)
    requires 0 < a <= b
    ensures Power(a, n) <= Power(b, n)
  {
    if n > 0 {
      PowerBase(a, b, n - 1);
      MulMonotone(a, b, Power(a, n - 1));
      MulMonotone(Power(a, n - 1), Power(b, n - 1), b);
    }
  }

  // ----- Least significant digit first -----

  ghost function Little(base: nat, s: seq<int>): int
    requires base > 0
  {
    Value(base, Reversed(s))
  }

  lemma LittlePush(base: nat, s: seq<int>, d: int)
    requires base > 0
    ensures Little(base, s + [d]) == d * Power(base, |s|) + Little(base, s)
  {
    assert Reversed(s + [d]) == [d] + Reversed(s);
    assert ([d] + Reversed(s))[1..] == Reversed(s);
  }
}
