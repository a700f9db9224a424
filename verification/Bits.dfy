/** Bytes, their bit fields and exclusive or, as arithmetic. */
module Bits {
  import opened Multiplication

  type Byte = x: int | 0 <= x < 256

  predicate TopBit(b: Byte) {
    b >= 128
  }

  function LowBits(b: Byte): (n: Byte)
    ensures n < 128
  {
    b % 128
  }

  function LowNibble(b: Byte): (n: Byte)
    ensures n < 16
  {
    b % 16
  }

  /** The byte whose top bit is given and whose low bits are a number below 128. */
  function WithTop(top: bool, low: Byte): Byte
    requires low < 128
  {
    if top then 128 + low else low
  }

  lemma Fields(top: bool, low: Byte)
    requires low < 128
    ensures TopBit(WithTop(top, low)) == top && LowBits(WithTop(top, low)) == low
    ensures low < 16 ==> LowNibble(WithTop(top, low)) == low
  {
  }

  ghost function Two(width: nat): (p: nat)
    ensures p > 0
  {
    if width == 0 then 1 else 2 * Two(width - 1)
  }

  /** Exclusive or, bit by bit from the lowest. */
  function XorBits(a: nat, b: nat, width: nat): (r: nat)
    ensures r < Two(width)
  {
    if width == 0 then 0 else 2 * XorBits(a / 2, b / 2, width - 1) + if a % 2 != b % 2 then 1 else 0
  }

  lemma Halves(q: nat, r: nat)
    requires r < 2
    ensures (2 * q + r) / 2 == q && (2 * q + r) % 2 == r
  {
  }

  lemma {:induction false} XorBitsTwice(a: nat, k: nat, width: nat)
    requires a < Two(width)
    ensures XorBits(XorBits(a, k, width), k, width) == a
  {
    if width > 0 {
      XorBitsTwice(a / 2, k / 2, width - 1);
      Halves(XorBits(a / 2, k / 2, width - 1), if a % 2 != k % 2 then 1 else 0);
    }
  }

  lemma EightBits()
    ensures Two(8) == 256
  {
    assert Two(1) == 2 && Two(2) == 4 && Two(3) == 8 && Two(4) == 16 && Two(5) == 32 && Two(6) == 64 && Two(7) == 128;
  }

  function Xor(a: Byte, b: Byte): Byte {
    EightBits();
    XorBits(a, b, 8)
  }

  /** Each bit of the result says whether the operands differ there. */
  lemma {:induction false} XorBitsDiffer(a: nat, b: nat, width: nat, i: nat)
    requires i < width
    ensures XorBits(a, b, width) / Two(i) % 2 == 1 <==> a / Two(i) % 2 != b / Two(i) % 2
  {
    Halves(XorBits(a / 2, b / 2, width - 1), if a % 2 != b % 2 then 1 else 0);
    if i > 0 {
      XorBitsDiffer(a / 2, b / 2, width - 1, i - 1);
      HalfTwice(a, Two(i - 1));
      HalfTwice(b, Two(i - 1));
      HalfTwice(XorBits(a, b, width), Two(i - 1));
    }
  }

  lemma HalfTwice(n: nat, p: nat)
    requires p > 0
    ensures n / 2 / p == n / (2 * p)
  {
    var q, r := n / 2 / p, n / 2 % p;
    assert n / 2 == q * p + r;
    assert n == q * (2 * p) + (2 * r + n % 2);
    var t := n / (2 * p);
    assert n == t * (2 * p) + n % (2 * p);
    if t < q {
      MulMonotone(t + 1, q, 2 * p);
    } else if t > q {
      MulMonotone(q + 1, t, 2 * p);
    }
  }

  lemma XorDiffers(a: Byte, k: Byte, i: nat)
    requires i < 8
    ensures Xor(a, k) / Two(i) % 2 == 1 <==> a / Two(i) % 2 != k / Two(i) % 2
  {
    XorBitsDiffer(a, k, 8, i);
  }

  /** The same key byte applied twice cancels. */
  lemma XorTwice(a: Byte, k: Byte)
    ensures Xor(Xor(a, k), k) == a
  {
    EightBits();
    XorBitsTwice(a, k, 8);
  }
}
