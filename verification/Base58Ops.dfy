/** The two conversions over their digit buffers, against the text and the bytes they stand for. */
module Base58Ops {
  import opened Positional
  import opened Base58
  import opened Multiplication

  // ----- Encoding: one byte at a time into a base 58 number held most significant digit first -----

  lemma DigitStep(base: nat, d: int, carry: int, n: nat, t: seq<int>, u: seq<int>, m: int, w: int)
    requires base > 0 && |t| == |u| == n
    requires Value(base, t) + carry * Power(base, n) == Value(base, u) * m + w
    ensures var c := carry + m * d;
            Value(base, [c % base] + t) + c / base * Power(base, n + 1) == Value(base, [d] + u) * m + w
  {
    var c, p := carry + m * d, Power(base, n);
    assert ([c % base] + t)[1..] == t && ([d] + u)[1..] == u;
    DigitAlgebra(base, d, carry, p, m, Value(base, u));
  }

  lemma DigitAlgebra(base: nat, d: int, carry: int, p: int, m: int, v: int)
    requires base > 0
    ensures var c := carry + m * d;
            c % base * p + c / base * (base * p) == carry * p + d * p * m
    ensures (d * p + v) * m == d * p * m + v * m
  {
    var c := carry + m * d;
    assert c == base * (c / base) + c % base;
    assert c / base * (base * p) == (base * (c / base)) * p;
    assert c * p == c % base * p + (base * (c / base)) * p;
    assert (carry + m * d) * p == carry * p + d * p * m;
  }

  lemma DigitCarry(d: int, base: nat, carry: int)
    requires 0 <= d < 58 && 0 <= carry < 256
    ensures 0 <= (carry + 256 * d) / 58 < 256 && 0 <= (carry + 256 * d) % 58 < 58
  {
  }

  /** The number after the digits before p are zero is the number of the rest. */
  lemma ZeroFront(b: seq<int>, p: nat)
    requires p <= |b| && forall i :: 0 <= i < p ==> b[i] == 0
    ensures Value(58, b) == Value(58, b[p..])
  {
    assert b == Zeros(p) + b[p..];
    LeadingZeros(58, p, b[p..]);
  }

  /** The carry that leaves the buffer is zero exactly when the new value fits it. */
  lemma CarryOut(v: int, carry: int, p: nat, q: nat, w: int)
    requires 0 <= v < p && carry >= 0 && v + carry * q == w && (carry == 0 || p == q)
    ensures carry == 0 <==> w < p
    ensures carry == 0 ==> v == w
  {
    if carry > 0 {
      MulMonotone(1, carry, p);
    }
  }

  lemma NothingRead(was: seq<int>, byte: int)
    ensures Value(58, []) + byte * Power(58, 0) == Value(58, []) * 256 + byte
    ensures was[|was|..] == []
  {
    assert byte * 1 == byte;
  }

  /** The inner loop of the encoder: the number becomes 256 times itself plus the byte, unless it does not fit. */
  method AddByte(b58: array<int>, length: nat, byte: int) returns (carry: int, newLength: nat)
    requires length <= b58.Length && Digits(58, b58[..]) && 0 <= byte < 256
    requires forall i :: 0 <= i < b58.Length - length ==> b58[i] == 0
    modifies b58
    ensures Digits(58, b58[..]) && carry >= 0 && newLength <= b58.Length
    ensures carry == 0 <==> Value(58, old(b58[..])) * 256 + byte < Power(58, b58.Length)
    ensures carry == 0 ==> Value(58, b58[..]) == Value(58, old(b58[..])) * 256 + byte
    ensures carry == 0 ==> forall i :: 0 <= i < b58.Length - newLength ==> b58[i] == 0
  {
    hide Power, Value;
    ghost var was := b58[..];
    var size := b58.Length;
    NothingRead(was, byte);
    carry := byte;
    var i, it := 0, size - 1;
    while (carry != 0 || i < length) && it != -1
      invariant 0 <= i <= size && it == size - 1 - i && 0 <= carry < 256
      invariant b58[..it + 1] == was[..it + 1]
      invariant Digits(58, b58[it + 1..])
      invariant Value(58, b58[it + 1..]) + carry * Power(58, i) == Value(58, was[it + 1..]) * 256 + byte
      decreases it
    {
      ghost var t, u := b58[it + 1..], was[it + 1..];
      assert b58[it] == was[it];
      DigitCarry(was[it], 58, carry);
      DigitStep(58, was[it], carry, i, t, u, 256, byte);
      carry := carry + 256 * b58[it];
      b58[it] := carry % 58;
      carry := carry / 58;
      assert b58[it..] == [b58[it]] + t && was[it..] == [was[it]] + u;
      it, i := it - 1, i + 1;
    }
    newLength := i;
    Widened(b58[..], was, length, carry, i, byte);
  }

  /** What the inner loop leaves, over the whole buffer. */
  lemma Widened(b: seq<int>, was: seq<int>, length: nat, carry: int, i: nat, byte: int)
    requires length <= |b| == |was| && i <= |b| && 0 <= carry && 0 <= byte < 256
    requires Digits(58, was) && forall k :: 0 <= k < |was| - length ==> was[k] == 0
    requires b[..|b| - i] == was[..|b| - i] && Digits(58, b[|b| - i..])
    requires (carry == 0 && i >= length) || i == |b|
    requires Value(58, b[|b| - i..]) + carry * Power(58, i) == Value(58, was[|b| - i..]) * 256 + byte
    ensures Digits(58, b)
    ensures carry == 0 <==> Value(58, was) * 256 + byte < Power(58, |b|)
    ensures carry == 0 ==> Value(58, b) == Value(58, was) * 256 + byte
    ensures forall k :: 0 <= k < |b| - i ==> b[k] == 0
  {
    hide Power, Value;
    var p := |b| - i;
    var v, w := Value(58, b), Value(58, was) * 256 + byte;
    FrontZero(b, was, p);
    ZeroFront(b, p);
    ZeroFront(was, p);
    assert v + carry * Power(58, i) == w;
    ValueBounds(58, b);
    CarryOut(v, carry, Power(58, |b|), Power(58, i), w);
  }

  lemma FrontZero(b: seq<int>, was: seq<int>, p: nat)
    requires p <= |b| == |was| && b[..p] == was[..p]
    requires Digits(58, b[p..]) && forall k :: 0 <= k < p ==> was[k] == 0
    ensures (forall k :: 0 <= k < p ==> b[k] == 0) && Digits(58, b)
  {
    assert forall k :: 0 <= k < p ==> b[k] == b[..p][k] == was[..p][k];
    assert forall k :: p <= k < |b| ==> b[k] == b[p..][k - p];
  }

  /** Encoding writes the Base58 text and its terminator when the digits and the text have room, and nothing otherwise. */
  method EncBase58(source: array<int>, size: nat, result: array<char>) returns (n: nat)
    requires Digits(256, source[..]) && size > 0
    modifies result
    ensures var text := Encoded(source[..]);
            && n == (if Value(256, source[..]) < Power(58, size) && |text| + 1 <= result.Length then |text| else 0)
            && (n > 0 ==> result[..n] == text && result[n] == '\0')
    ensures n == 0 ==> result[..] == old(result[..])
  {
    hide Value, Power, Minimal, LeadingZeroBytes, Text, Ones;
    ghost var s := source[..];
    ghost var text := Encoded(s);
    EmptyText(s);
    if source.Length == 0 {
      return 0;
    }
    var zeros := 0;
    while zeros != source.Length && source[zeros] == 0
      invariant zeros <= source.Length && forall i :: 0 <= i < zeros ==> s[i] == 0
    {
      zeros := zeros + 1;
    }
    LeadingZeroCount(s, zeros);
    var b58 := new int[size](i => 0);
    var length: nat := 0;
    var pbegin := zeros;
    AllZero(b58[..]);
    NoValue(s, zeros);
    while pbegin != source.Length
      invariant zeros <= pbegin <= source.Length && 0 <= length <= size && source[..] == s
      invariant Digits(58, b58[..]) && Value(58, b58[..]) == Value(256, s[..pbegin])
      invariant forall i :: 0 <= i < size - length ==> b58[i] == 0
      modifies b58
    {
      ghost var v := Value(256, s[..pbegin]);
      NextByte(s, pbegin);
      var carry;
      carry, length := AddByte(b58, length, source[pbegin]);
      if carry != 0 {
        PrefixFits(s, pbegin + 1, Power(58, size));
        return 0;
      }
      pbegin := pbegin + 1;
    }
    assert s[..pbegin] == s;
    ghost var digits := b58[..];
    ValueBounds(58, digits);
    var it := size - length;
    while it != size && b58[it] == 0
      invariant size - length <= it <= size && forall i :: 0 <= i < it ==> digits[i] == 0
    {
      it := it + 1;
    }
    DigitsLeft(digits, it);
    assert text == Ones(zeros) + Text(digits[it..]);
    if zeros + size - it + 1 > result.Length {
      return 0;
    }
    PutText(result, zeros, b58, it, text);
    n := zeros + size - it;
  }

  method PutText(result: array<char>, zeros: nat, b58: array<int>, first: nat, ghost text: string)
    requires first <= b58.Length && Digits(58, b58[first..]) && zeros + b58.Length - first + 1 <= result.Length
    requires text == Ones(zeros) + Text(b58[first..])
    modifies result
    ensures result[..|text|] == text && result[|text|] == '\0'
  {
    ghost var digits := b58[first..];
    var ri := 0;
    while ri < zeros
      invariant ri <= zeros && result[..ri] == text[..ri]
    {
      result[ri] := '1';
      ri := ri + 1;
    }
    var it := first;
    while it < b58.Length
      invariant first <= it <= b58.Length && ri == zeros + it - first && result[..ri] == text[..ri]
    {
      assert b58[it] == digits[it - first];
      AlphabetDigit(b58[it]);
      result[ri] := ALPHABET[b58[it]];
      it, ri := it + 1, ri + 1;
    }
    assert text[..ri] == text;
    result[ri] := '\0';
  }

  lemma EmptyText(s: seq<int>)
    requires Digits(256, s)
    ensures s == [] <==> Encoded(s) == ""
  {
    ValueBounds(256, s);
    MinimalValue(58, Value(256, s));
  }

  lemma {:induction false} LeadingZeroCount(s: seq<int>, z: nat)
    requires z <= |s| && (forall i :: 0 <= i < z ==> s[i] == 0) && (z < |s| ==> s[z] != 0)
    ensures LeadingZeroBytes(s) == z
  {
    if z > 0 {
      LeadingZeroCount(s[1..], z - 1);
    }
  }

  lemma AllZero(b: seq<int>)
    requires forall i :: 0 <= i < |b| ==> b[i] == 0
    ensures Value(58, b) == 0
  {
    ZeroFront(b, |b|);
  }

  lemma NoValue(s: seq<int>, z: nat)
    requires z <= |s| && forall i :: 0 <= i < z ==> s[i] == 0
    ensures Value(256, s[..z]) == 0
  {
    assert s[..z] == Zeros(z) + [];
    LeadingZeros(256, z, []);
  }

  lemma NextByte(s: seq<int>, p: nat)
    requires p < |s|
    ensures Value(256, s[..p + 1]) == Value(256, s[..p]) * 256 + s[p]
  {
    assert s[..p + 1] == s[..p] + [s[p]];
    ValueAppend(256, s[..p], s[p]);
  }

  /** A prefix that does not fit the buffer means the whole does not. */
  lemma {:induction false} PrefixFits(s: seq<int>, p: nat, bound: int)
    requires p <= |s| && Digits(256, s) && Value(256, s[..p]) >= bound > 0
    ensures Value(256, s) >= bound
    decreases |s| - p
  {
    if p == |s| {
      assert s[..p] == s;
    } else {
      NextByte(s, p);
      PrefixFits(s, p + 1, bound);
    }
  }

  /** The digits after the leading zeros are the minimal ones. */
  lemma DigitsLeft(b: seq<int>, it: nat)
    requires it <= |b| && Digits(58, b) && (forall i :: 0 <= i < it ==> b[i] == 0) && (it < |b| ==> b[it] != 0)
    ensures 0 <= Value(58, b) && b[it..] == Minimal(58, Value(58, b))
  {
    ZeroFront(b, it);
    MinimalUnique(58, b[it..]);
  }

  /** The digit buffer the encoder sizes is large enough when 58^size is at least 256 to the number of significant bytes. */
  lemma BufferSuffices(s: seq<int>, size: nat)
    requires Digits(256, s) && Power(58, size) >= Power(256, |s| - LeadingZeroBytes(s))
    ensures Value(256, s) < Power(58, size)
  {
    var z := LeadingZeroBytes(s);
    SplitZeros(s);
    LeadingZeros(256, z, s[z..]);
    ValueBounds(256, s[z..]);
  }

  // ----- Decoding: one character at a time into a base 256 number held least significant digit first -----

  /** The bytes of the number so far, and no more of them than needed. */
  ghost predicate Accumulated(r: seq<int>, v: int) {
    r != [] && Digits(256, r) && Little(256, r) == v && (|r| > 1 ==> r[|r| - 1] != 0)
  }

  lemma Started()
    ensures Accumulated([0], 0)
  {
    assert Reversed([0]) == [0] && [0][1..] == [];
  }

  lemma ReversedDigits(r: seq<int>)
    requires Digits(256, r)
    ensures |Reversed(r)| == |r| && Digits(256, Reversed(r))
  {
  }

  lemma LittleBounds(r: seq<int>)
    requires Digits(256, r)
    ensures 0 <= Little(256, r) < Power(256, |r|)
    ensures r != [] && r[|r| - 1] != 0 ==> Little(256, r) >= Power(256, |r| - 1)
  {
    hide Value, Power, Reversed;
    var s := Reversed(r);
    ReversedDigits(r);
    ValueBounds(256, s);
    assert r != [] ==> s[0] == r[|r| - 1];
  }

  /** The buffer read backwards is the minimal base 256 form, or the one zero it started from. */
  lemma AccumulatedDigits(r: seq<int>, v: int)
    requires Accumulated(r, v)
    ensures v >= 0 && Reversed(r) == if v == 0 then [0] else Minimal(256, v)
  {
    LittleBounds(r);
    if |r| == 1 {
      LittleOne(r[0]);
      assert r == [r[0]] && Reversed(r) == r;
    }
    if v != 0 {
      MinimalUnique(256, Reversed(r));
    }
  }

  lemma LittleOne(d: int)
    ensures Little(256, [d]) == d && Reversed([d]) == [d]
  {
    assert Reversed([d]) == [d];
    ValueAppend(256, [], d);
    assert [] + [d] == [d];
  }

  lemma LittleStep(was: seq<int>, r: seq<int>, j: nat, carry: int, d: int)
    requires j < |was| && |r| == j
    requires Little(256, r) + carry * Power(256, j) == Little(256, was[..j]) * 58 + d
    ensures var c := carry + 58 * was[j];
            Little(256, r + [c % 256]) + c / 256 * Power(256, j + 1) == Little(256, was[..j + 1]) * 58 + d
  {
    var c, p := carry + 58 * was[j], Power(256, j);
    assert was[..j + 1] == was[..j] + [was[j]];
    LittlePush(256, was[..j], was[j]);
    LittlePush(256, r, c % 256);
    DigitAlgebra(256, was[j], carry, p, 58, Little(256, was[..j]));
  }

  /** After the pass over the digits, the one carry left, if any, becomes a new top byte. */
  lemma Carried(was: seq<int>, v: int, r: seq<int>, carry: int, d: int)
    requires Accumulated(was, v) && |r| == |was| && Digits(256, r) && 0 <= carry < 58 && 0 <= d < 58
    requires Little(256, r) + carry * Power(256, |r|) == Little(256, was) * 58 + d
    ensures carry > 0 ==> Accumulated(r + [carry], v * 58 + d)
    ensures carry == 0 ==> Accumulated(r, v * 58 + d)
  {
    hide Power, Value, Little;
    LittleBounds(was);
    if carry > 0 {
      LittlePush(256, r, carry);
    } else {
      assert |r| > 1 ==> Little(256, r) >= Power(256, |r| - 1);
      TopByte(r);
    }
  }

  /** A number of full length has a top byte. */
  lemma TopByte(r: seq<int>)
    requires Digits(256, r) && (|r| > 1 ==> Little(256, r) >= Power(256, |r| - 1))
    ensures |r| > 1 ==> r[|r| - 1] != 0
  {
    hide Power, Value, Little;
    if |r| > 1 && r[|r| - 1] == 0 {
      var front := r[..|r| - 1];
      assert r == front + [0];
      LittlePush(256, front, 0);
      LittleBounds(front);
      assert false;
    }
  }

  lemma AccumulatedBytes(r: seq<int>, v: int)
    requires Accumulated(r, v)
    ensures Digits(256, r)
  {
  }

  lemma ByteCarry(b: int, carry: int)
    requires 0 <= b < 256 && 0 <= carry < 58
    ensures 0 <= (carry + b * 58) / 256 < 58 && 0 <= (carry + b * 58) % 256 < 256
  {
  }

  lemma Untouched(was: seq<int>, digit: int)
    ensures Little(256, []) + digit * Power(256, 0) == Little(256, was[..0]) * 58 + digit
  {
    assert Reversed(was[..0]) == [];
    assert digit * 1 == digit;
  }

  /** The body of the decoder's loop for one digit. */
  method AddDigit(result: array<int>, resultlen: nat, digit: int, ghost v: int) returns (newlen: nat)
    requires 0 < resultlen < result.Length && Accumulated(result[..resultlen], v) && 0 <= digit < 58
    modifies result
    ensures resultlen <= newlen <= result.Length && newlen <= resultlen + 1
    ensures Accumulated(result[..newlen], v * 58 + digit)
  {
    hide Power, Value, Accumulated;
    ghost var was := result[..resultlen];
    var carry := digit;
    var j := 0;
    Untouched(was, digit);
    AccumulatedBytes(was, v);
    while j < resultlen
      invariant 0 <= j <= resultlen && 0 <= carry < 58
      invariant forall k :: j <= k < resultlen ==> result[k] == was[k]
      invariant Digits(256, result[..j])
      invariant Little(256, result[..j]) + carry * Power(256, j) == Little(256, was[..j]) * 58 + digit
    {
      ghost var r := result[..j];
      LittleStep(was, r, j, carry, digit);
      ByteCarry(was[j], carry);
      carry := carry + result[j] * 58;
      result[j] := carry % 256;
      carry := carry / 256;
      j := j + 1;
      assert result[..j] == r + [result[j - 1]];
    }
    newlen := resultlen;
    assert was[..resultlen] == was;
    ghost var r := result[..resultlen];
    Carried(was, v, r, carry, digit);
    while carry > 0
      invariant 0 <= carry < 58 && resultlen <= newlen <= resultlen + 1
      invariant carry > 0 ==> newlen == resultlen && result[..resultlen] == r && Accumulated(r + [carry], v * 58 + digit)
      invariant carry == 0 ==> Accumulated(result[..newlen], v * 58 + digit)
      decreases carry
    {
      ghost var top := carry;
      result[newlen] := carry % 256;
      carry := carry / 256;
      newlen := newlen + 1;
      assert result[..newlen] == r + [top];
    }
  }

  /** A number below 58^m needs at most m bytes. */
  lemma BytesNeeded(r: seq<int>, v: int, m: nat)
    requires Accumulated(r, v) && v < Power(58, m)
    ensures |r| <= 1 || |r| <= m
  {
    hide Power, Value, Little;
    LittleBounds(r);
    if |r| > 1 && |r| > m {
      PowerBase(58, 256, m);
      PowerMonotone(256, m, |r| - 1);
      assert false;
    }
  }

  lemma {:induction false} PrefixChars(t: string)
    ensures var d := Prefix(t);
            && (forall i :: 0 <= i < |d| ==> d[i] == DigitOf(t[i]) >= 0)
            && (|d| < |t| ==> DigitOf(t[|d|]) < 0)
  {
    if t != [] && DigitOf(t[0]) >= 0 {
      var d, e := Prefix(t), Prefix(t[1..]);
      PrefixChars(t[1..]);
      assert d == [DigitOf(t[0])] + e;
      assert forall i :: 0 < i < |d| ==> d[i] == e[i - 1] == DigitOf(t[1..][i - 1]);
    }
  }

  lemma NextDigit(d: seq<int>, i: nat)
    requires i < |d| && Digits(58, d)
    ensures Value(58, d[..i + 1]) == Value(58, d[..i]) * 58 + d[i]
    ensures 0 <= Value(58, d[..i]) < Power(58, i)
  {
    assert d[..i + 1] == d[..i] + [d[i]];
    ValueAppend(58, d[..i], d[i]);
    ValueBounds(58, d[..i]);
  }

  lemma DecodedFrom(t: string, r: seq<int>, ones: nat)
    requires Accumulated(r, Value(58, Prefix(t))) && ones == LeadingOnes(t)
    ensures Reversed(r + Zeros(ones)) == Decoded(t)
  {
    hide Value, Power, Minimal, Prefix, Zeros, LeadingOnes, Accumulated, Reversed;
    ValueBounds(58, Prefix(t));
    AccumulatedDigits(r, Value(58, Prefix(t)));
    ReversedZeros(r, ones);
  }

  lemma ReversedZeros(r: seq<int>, n: nat)
    ensures Reversed(r + Zeros(n)) == Zeros(n) + Reversed(r)
  {
    var u := r + Zeros(n);
    assert forall i :: n <= i < |u| ==> Reversed(u)[i] == r[|r| - 1 - (i - n)];
  }

  /** The last loop of the decoder, from the top down to the middle. */
  method ReverseInPlace(result: array<int>, n: nat)
    requires 0 < n <= result.Length
    modifies result
    ensures result[..n] == Reversed(old(result[..n]))
  {
    ghost var was := result[..n];
    var i, z := n - 1, n / 2 + n % 2;
    while i >= z
      invariant z - 1 <= i < n
      invariant forall k :: i < k < n ==> result[k] == was[n - 1 - k] && result[n - 1 - k] == was[k]
      invariant forall k :: n - 1 - i <= k <= i ==> result[k] == was[k]
      decreases i
    {
      var k := result[i];
      result[i] := result[n - i - 1];
      result[n - i - 1] := k;
      i := i - 1;
    }
  }

  /** Decoding fills a buffer of twice the text's length, as its caller must give it, with the decoded bytes. */
  method DecBase58(str: string, result: array<int>) returns (resultlen: nat)
    requires result.Length >= 2 * |str| && result.Length > 0
    modifies result
    ensures resultlen <= result.Length && result[..resultlen] == Decoded(str)
  {
    hide Power, Value, Accumulated, Prefix, Decoded;
    ghost var d := Prefix(str);
    PrefixChars(str);
    result[0] := 0;
    resultlen := 1;
    assert result[..1] == [0] && d[..0] == [];
    Started();
    NoDigits();
    var i := 0;
    while i < |str|
      invariant 0 <= i <= |d| && 0 < resultlen <= result.Length
      invariant Accumulated(result[..resultlen], Value(58, d[..i]))
      invariant resultlen <= 1 || resultlen <= i
    {
      var carry := DigitOf(str[i]);
      if carry == -1 {
        break;
      }
      DigitRange(str[i]);
      NextDigit(d, i);
      resultlen := AddDigit(result, resultlen, carry, Value(58, d[..i]));
      i := i + 1;
      PrefixBounds(d, i);
      BytesNeeded(result[..resultlen], Value(58, d[..i]), i);
    }
    assert d[..i] == d by {
      DigitRange(if i < |str| then str[i] else '1');
    }
    ghost var r := result[..resultlen];
    var ones := 0;
    while ones < |str| && str[ones] == '1'
      invariant 0 <= ones <= |str| && resultlen == |r| + ones <= result.Length
      invariant forall k :: 0 <= k < ones ==> str[k] == '1'
      invariant result[..resultlen] == r + Zeros(ones)
    {
      result[resultlen] := 0;
      resultlen := resultlen + 1;
      ones := ones + 1;
    }
    DecodedFrom(str, r, ones);
    ReverseInPlace(result, resultlen);
  }

  lemma NoDigits()
    ensures Value(58, []) == 0
  {
  }

  lemma PrefixBounds(d: seq<int>, i: nat)
    requires i <= |d| && Digits(58, d)
    ensures Value(58, d[..i]) < Power(58, i)
  {
    ValueBounds(58, d[..i]);
  }
}
