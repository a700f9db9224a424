/** Base58 text for byte strings: what it is, and that decoding undoes encoding. */
module Base58 {
  import opened Positional
  import opened Multiplication

  const ALPHABET: string := "123456789" + "ABCDEFGH" + "JKLMN" + "PQRSTUVWXYZ" + "abcdefghijk" + "mnopqrstuvwxyz"

  /** ALPHABET_MAP: the digit of a character, or -1. */
  function DigitOf(c: char): int {
    var n := c as int;
    if 49 <= n <= 57 then n - 49          // 1-9
    else if 65 <= n <= 72 then n - 56     // A-H
    else if 74 <= n <= 78 then n - 57     // J-N
    else if 80 <= n <= 90 then n - 58     // P-Z
    else if 97 <= n <= 107 then n - 64    // a-k
    else if 109 <= n <= 122 then n - 65   // m-z
    else -1
  }

  predicate Consecutive(s: string, first: int) {
    forall i :: 0 <= i < |s| ==> s[i] as int == first + i
  }

  /** The six runs the alphabet is made of. */
  lemma Runs()
    ensures Consecutive("123456789", 49) && Consecutive("ABCDEFGH", 65) && Consecutive("JKLMN", 74)
    ensures Consecutive("PQRSTUVWXYZ", 80) && Consecutive("abcdefghijk", 97) && Consecutive("mnopqrstuvwxyz", 109)
  {
  }

  lemma AlphabetDigit(d: int)
    requires 0 <= d < 58
    ensures |ALPHABET| == 58 && DigitOf(ALPHABET[d]) == d
  {
    Runs();
    RunDigit("123456789", "ABCDEFGH", "JKLMN", "PQRSTUVWXYZ", "abcdefghijk", "mnopqrstuvwxyz", d);
  }

  lemma RunDigit(a: string, b: string, c: string, e: string, f: string, g: string, d: int)
    requires |a| == 9 && |b| == 8 && |c| == 5 && |e| == 11 && |f| == 11 && |g| == 14 && 0 <= d < 58
    requires Consecutive(a, 49) && Consecutive(b, 65) && Consecutive(c, 74)
    requires Consecutive(e, 80) && Consecutive(f, 97) && Consecutive(g, 109)
    ensures var s := a + b + c + e + f + g; |s| == 58 && DigitOf(s[d]) == d
  {
    var s := a + b + c + e + f + g;
    if d < 9 {
      assert s[d] == a[d];
    } else if d < 17 {
      assert s[d] == b[d - 9];
    } else if d < 22 {
      assert s[d] == c[d - 17];
    } else if d < 33 {
      assert s[d] == e[d - 22];
    } else if d < 44 {
      assert s[d] == f[d - 33];
    } else {
      assert s[d] == g[d - 44];
    }
  }

  predicate Alphanumeric(c: char) {
    '0' <= c <= '9' || 'A' <= c <= 'Z' || 'a' <= c <= 'z'
  }

  /** The digits are all letters and figures but 0, O, I and l, in character order. */
  lemma AlphabetInOrder(c: char)
    ensures c in ALPHABET <==> Alphanumeric(c) && c != '0' && c != 'O' && c != 'I' && c != 'l'
    ensures forall i, j :: 0 <= i < j < |ALPHABET| ==> ALPHABET[i] < ALPHABET[j]
  {
    AlphabetDigit(0);
    forall d | 0 <= d < 58 ensures DigitOf(ALPHABET[d]) == d {
      AlphabetDigit(d);
    }
    if DigitOf(c) >= 0 {
      DigitRange(c);
    }
    forall i, j | 0 <= i < j < |ALPHABET| ensures ALPHABET[i] < ALPHABET[j] {
      assert DigitOf(ALPHABET[i]) < DigitOf(ALPHABET[j]);
    }
  }

  lemma DigitRange(c: char)
    ensures -1 <= DigitOf(c) < 58
    ensures DigitOf(c) >= 0 ==> |ALPHABET| == 58 && ALPHABET[DigitOf(c)] == c
  {
    if DigitOf(c) >= 0 {
      AlphabetDigit(DigitOf(c));
      SameDigit(c, ALPHABET[DigitOf(c)]);
    }
  }

  /** The map is injective on the alphabet. */
  lemma SameDigit(a: char, b: char)
    requires DigitOf(a) == DigitOf(b) >= 0
    ensures a == b
  {
    assert a as int == b as int;
  }

  // ----- What the two functions compute -----

  /** The digits of v, without leading zeros. */
  ghost function Minimal(base: nat, v: int): (s: seq<int>)
    requires base > 1 && v >= 0
    ensures Digits(base, s)
    decreases v
  {
    if v == 0 then [] else
      assert v / base < v by { Shrinks(base, v); }
      Minimal(base, v / base) + [v % base]
  }

  lemma Shrinks(base: nat, v: int)
    requires base > 1 && v > 0
    ensures 0 <= v / base < v
  {
    MulMonotone(2, base, v / base);
    assert v == base * (v / base) + v % base;
  }

  lemma QuotientRemainder(base: nat, v: int)
    requires base > 0
    ensures v / base * base + v % base == v
  {
  }

  lemma {:induction false} MinimalValue(base: nat, v: int)
    requires base > 1 && v >= 0
    ensures Value(base, Minimal(base, v)) == v
    ensures Minimal(base, v) != [] ==> Minimal(base, v)[0] != 0
    ensures v > 0 ==> Minimal(base, v) != []
    decreases v
  {
    if v > 0 {
      Shrinks(base, v);
      MinimalValue(base, v / base);
      var front := Minimal(base, v / base);
      ValueAppend(base, front, v % base);
      QuotientRemainder(base, v);
      if front == [] {
        assert v / base == 0;
      }
    }
  }

  /** A digit string without a leading zero is the minimal one of its value. */
  lemma MinimalUnique(base: nat, s: seq<int>)
    requires base > 1 && Digits(base, s) && (s != [] ==> s[0] != 0)
    ensures 0 <= Value(base, s) && s == Minimal(base, Value(base, s))
  {
    ValueBounds(base, s);
    MinimalValue(base, Value(base, s));
    ValueInjective(base, s, Minimal(base, Value(base, s)));
  }

  ghost function LeadingZeroBytes(s: seq<int>): (n: nat)
    ensures n <= |s|
  {
    if s == [] || s[0] != 0 then 0 else 1 + LeadingZeroBytes(s[1..])
  }

  ghost function Text(digits: seq<int>): (t: string)
    requires Digits(58, digits)
    ensures |t| == |digits|
  {
    seq(|digits|, i requires 0 <= i < |digits| => AlphabetDigit(digits[i]); ALPHABET[digits[i]])
  }

  ghost function Ones(n: nat): (t: string)
    ensures |t| == n && forall i :: 0 <= i < n ==> t[i] == '1'
  {
    seq(n, i => '1')
  }

  /** The Base58 text: a '1' for each leading zero byte, then the value in base 58. */
  ghost function Encoded(s: seq<int>): string
    requires Digits(256, s)
  {
    ValueBounds(256, s);
    Ones(LeadingZeroBytes(s)) + Text(Minimal(58, Value(256, s)))
  }

  /** The digits of the longest prefix in the alphabet. */
  ghost function Prefix(t: string): (d: seq<int>)
    ensures |d| <= |t| && Digits(58, d)
  {
    if t == [] || DigitOf(t[0]) < 0 then [] else
      DigitRange(t[0]);
      [DigitOf(t[0])] + Prefix(t[1..])
  }

  ghost function LeadingOnes(t: string): (n: nat)
    ensures n <= |t| && forall i :: 0 <= i < n ==> t[i] == '1'
    ensures n < |t| ==> t[n] != '1'
  {
    if t == [] || t[0] != '1' then 0 else 1 + LeadingOnes(t[1..])
  }

  /** What decoding yields: a zero byte for each leading '1', then the value in base 256, at least one digit. */
  ghost function Decoded(t: string): seq<int> {
    ValueBounds(58, Prefix(t));
    var v := Value(58, Prefix(t));
    Zeros(LeadingOnes(t)) + if v == 0 then [0] else Minimal(256, v)
  }

  // ----- Round trips -----

  lemma {:induction false} SplitZeros(s: seq<int>)
    ensures var z := LeadingZeroBytes(s);
            s == Zeros(z) + s[z..] && (z < |s| ==> s[z] != 0)
  {
    if s != [] && s[0] == 0 {
      SplitZeros(s[1..]);
      ZerosFront(LeadingZeroBytes(s[1..]), s[1..]);
      assert s == [0] + s[1..];
    }
  }

  lemma ZerosFront(z: nat, t: seq<int>)
    requires z <= |t| && t == Zeros(z) + t[z..]
    ensures [0] + t == Zeros(z + 1) + ([0] + t)[z + 1..] && ([0] + t)[z + 1..] == t[z..]
  {
  }

  lemma {:induction false} PrefixOfText(digits: seq<int>)
    requires Digits(58, digits)
    ensures Prefix(Text(digits)) == digits
  {
    if digits != [] {
      AlphabetDigit(digits[0]);
      PrefixOfText(digits[1..]);
      assert Text(digits)[1..] == Text(digits[1..]);
    }
  }

  lemma OnesFront(n: nat, t: string)
    requires n > 0
    ensures Ones(n) + t == "1" + (Ones(n - 1) + t)
  {
  }

  lemma ZerosCons(n: nat, d: seq<int>)
    requires n > 0
    ensures Zeros(n) + d == [0] + (Zeros(n - 1) + d)
  {
  }

  lemma {:induction false} PrefixOfOnes(n: nat, t: string)
    ensures Prefix(Ones(n) + t) == Zeros(n) + Prefix(t)
  {
    if n == 0 {
      assert Ones(0) + t == t;
    } else {
      hide Prefix, Ones, Zeros;
      PrefixOfOnes(n - 1, t);
      PrefixOfOne(Ones(n - 1) + t);
      OnesFront(n, t);
      ZerosCons(n, Prefix(t));
    }
  }

  lemma PrefixOfOne(t: string)
    ensures Prefix("1" + t) == [0] + Prefix(t)
  {
    assert ("1" + t)[1..] == t;
  }

  lemma {:induction false} LeadingOnesOf(n: nat, t: string)
    requires t == [] || t[0] != '1'
    ensures LeadingOnes(Ones(n) + t) == n
  {
    if n == 0 {
      assert Ones(0) + t == t;
    } else {
      LeadingOnesOf(n - 1, t);
      assert (Ones(n) + t)[1..] == Ones(n - 1) + t;
    }
  }

  /**
   The text has a '1' for each leading zero byte, and read as digits, the most significant first, it is the number that
   the bytes are.
   */
  lemma EncodedNumber(s: seq<int>)
    requires Digits(256, s)
    ensures var t := Encoded(s);
            && |Prefix(t)| == |t| && Value(58, Prefix(t)) == Value(256, s)
            && LeadingOnes(t) == LeadingZeroBytes(s)
  {
    var z, v := LeadingZeroBytes(s), Value(256, s);
    ValueBounds(256, s);
    var digits := Minimal(58, v);
    MinimalValue(58, v);
    assert DigitOf('1') == 0;
    if digits != [] {
      AlphabetDigit(digits[0]);
      assert Text(digits)[0] == ALPHABET[digits[0]];
    }
    LeadingOnesOf(z, Text(digits));
    PrefixOfOnes(z, Text(digits));
    PrefixOfText(digits);
    LeadingZeros(58, z, digits);
  }

  lemma DecodeEncodeNonZero(s: seq<int>)
    requires Digits(256, s) && LeadingZeroBytes(s) < |s|
    ensures Decoded(Encoded(s)) == s
  {
    var z := LeadingZeroBytes(s);
    SplitZeros(s);
    var d, v := s[z..], Value(256, s);
    LeadingZeros(256, z, d);
    ValueBounds(256, d);
    ValueBounds(256, s);
    assert v == Value(256, d) > 0;
    var digits := Minimal(58, v);
    MinimalValue(58, v);
    AlphabetDigit(digits[0]);
    assert Text(digits)[0] == ALPHABET[digits[0]];
    assert DigitOf('1') == 0;
    LeadingOnesOf(z, Text(digits));
    PrefixOfOnes(z, Text(digits));
    PrefixOfText(digits);
    LeadingZeros(58, z, digits);
    MinimalUnique(256, d);
  }

  /** A text of n ones decodes to n + 1 zero bytes. */
  lemma DecodedOnes(n: nat)
    ensures Decoded(Ones(n)) == Zeros(n + 1)
  {
    LeadingOnesOf(n, "");
    PrefixOfOnes(n, "");
    assert Ones(n) + "" == Ones(n);
    LeadingZeros(58, n, []);
    assert Zeros(n) + Prefix("") == Zeros(n) + [];
    assert Zeros(n) + [0] == Zeros(n + 1);
  }

  /** Decoding the encoding of a byte string gives the string back exactly when it has a non-zero byte. */
  lemma DecodeEncode(s: seq<int>)
    requires Digits(256, s)
    ensures Decoded(Encoded(s)) == s <==> exists i :: 0 <= i < |s| && s[i] != 0
  {
    var z := LeadingZeroBytes(s);
    SplitZeros(s);
    if z < |s| {
      DecodeEncodeNonZero(s);
    } else {
      assert s == Zeros(z) + [] == Zeros(z);
      LeadingZeros(256, z, []);
      assert Encoded(s) == Ones(z) + "" == Ones(z);
      DecodedOnes(z);
    }
  }

  lemma {:induction false} PrefixIsAll(t: string)
    requires forall i :: 0 <= i < |t| ==> DigitOf(t[i]) >= 0
    ensures |Prefix(t)| == |t| && Text(Prefix(t)) == t
  {
    if t != [] {
      DigitRange(t[0]);
      PrefixIsAll(t[1..]);
      var d := Prefix(t);
      assert d[1..] == Prefix(t[1..]);
      assert forall i :: 0 < i < |t| ==> Text(d)[i] == Text(d[1..])[i - 1] == t[1..][i - 1];
    }
  }

  predicate OverAlphabet(t: string) {
    forall i :: 0 <= i < |t| ==> DigitOf(t[i]) >= 0
  }

  lemma EncodeDecodeNonZero(t: string)
    requires OverAlphabet(t) && LeadingOnes(t) < |t|
    ensures Digits(256, Decoded(t)) && Encoded(Decoded(t)) == t
  {
    hide Value, Power, Minimal, DigitOf, LeadingOnes, Prefix, Encoded, Decoded;
    var n := LeadingOnes(t);
    var u := t[n..];
    assert t == Ones(n) + u;
    DecodedZeros(n, u);
    EncodedZeros(n, Value(58, Prefix(u)));
    PrefixIsAll(u);
    FirstDigit(u);
    MinimalUnique(58, Prefix(u));
  }

  /** Ones and a text of digits are decoded to zero bytes and the number. */
  lemma DecodedZeros(n: nat, u: string)
    requires OverAlphabet(u) && u != "" && u[0] != '1'
    ensures Value(58, Prefix(u)) > 0
    ensures Decoded(Ones(n) + u) == Zeros(n) + Minimal(256, Value(58, Prefix(u)))
  {
    hide Value, Power, Minimal, DigitOf, LeadingOnes, Prefix;
    LeadingOnesOf(n, u);
    PrefixOfOnes(n, u);
    LeadingZeros(58, n, Prefix(u));
    FirstDigit(u);
    ValueBounds(58, Prefix(u));
  }

  /** Zero bytes and a number are encoded as ones and the number. */
  lemma EncodedZeros(n: nat, v: int)
    requires v > 0
    ensures var s := Zeros(n) + Minimal(256, v);
            Digits(256, s) && Encoded(s) == Ones(n) + Text(Minimal(58, v))
  {
    hide Value, Power, Minimal, LeadingZeroBytes, Text;
    MinimalValue(256, v);
    LeadingZeroBytesOf(n, Minimal(256, v));
    LeadingZeros(256, n, Minimal(256, v));
  }

  lemma FirstDigit(u: string)
    requires OverAlphabet(u) && u != "" && u[0] != '1'
    ensures Prefix(u) != [] && Prefix(u)[0] != 0
  {
    assert DigitOf('1') == 0;
    if DigitOf(u[0]) == 0 {
      SameDigit(u[0], '1');
    }
  }

  lemma {:induction false} LeadingZeroBytesOf(n: nat, s: seq<int>)
    requires s == [] || s[0] != 0
    ensures LeadingZeroBytes(Zeros(n) + s) == n
  {
    if n == 0 {
      assert Zeros(0) + s == s;
    } else {
      LeadingZeroBytesOf(n - 1, s);
      assert (Zeros(n) + s)[1..] == Zeros(n - 1) + s;
    }
  }

  lemma EncodedOverAlphabet(s: seq<int>)
    requires Digits(256, s)
    ensures OverAlphabet(Encoded(s))
  {
    ValueBounds(256, s);
    var digits := Minimal(58, Value(256, s));
    forall i | 0 <= i < |digits| ensures DigitOf(Text(digits)[i]) >= 0 {
      AlphabetDigit(digits[i]);
    }
    assert DigitOf('1') == 0;
  }

  lemma DecodedBytes(t: string)
    ensures Digits(256, Decoded(t))
  {
    ValueBounds(58, Prefix(t));
  }

  /** Encoding the decoding of a text gives the text back exactly when it is over the alphabet and not all ones. */
  lemma EncodeDecode(t: string)
    ensures Digits(256, Decoded(t))
    ensures Encoded(Decoded(t)) == t <==> OverAlphabet(t) && exists i :: 0 <= i < |t| && t[i] != '1'
  {
    DecodedBytes(t);
    EncodedOverAlphabet(Decoded(t));
    var n := LeadingOnes(t);
    if n < |t| {
      if OverAlphabet(t) {
        EncodeDecodeNonZero(t);
      }
    } else {
      assert t == Ones(n);
      DecodedOnes(n);
      LeadingZeroBytesOf(n + 1, []);
      assert Zeros(n + 1) + [] == Zeros(n + 1);
    }
  }
}
