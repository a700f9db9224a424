/** Machine integers of the on-chain program, written out over unbounded `int`. */
module MachineInts {

  const INT64_MIN: int := -0x8000_0000_0000_0000
  const INT64_MAX: int := 0x7fff_ffff_ffff_ffff
  const UINT64_MAX: int := 0xffff_ffff_ffff_ffff
  const TWO64: int := 0x1_0000_0000_0000_0000
  const TWO63: int := 0x8000_0000_0000_0000

  predicate IsInt64(x: int) {
    INT64_MIN <= x <= INT64_MAX
  }

  predicate IsUint64(x: int) {
    0 <= x <= UINT64_MAX
  }

  /** The C conversion `(uint64_t)x`. */
  function ToUint64(x: int): (u: int)
    ensures IsUint64(u)
    ensures IsUint64(x) ==> u == x
  {
    x % TWO64
  }

  /** The C conversion `(int64_t)x`, in two's complement. */
  function ToInt64(x: int): (i: int)
    ensures IsInt64(i)
    ensures IsInt64(x) ==> i == x
  {
    var u := x % TWO64;
    if u <= INT64_MAX then u else u - TWO64
  }

  const TWO127: int := 0x8000_0000_0000_0000_0000_0000_0000_0000
  const TWO128: int := 0x1_0000_0000_0000_0000_0000_0000_0000_0000

  predicate IsInt128(x: int) {
    -TWO127 <= x < TWO127
  }

  predicate IsUint128(x: int) {
    0 <= x < TWO128
  }

  /** Where an i128 sum lands, in two's complement. */
  function ToInt128(x: int): (i: int)
    ensures IsInt128(i)
    ensures IsInt128(x) ==> i == x
  {
    var u := x % TWO128;
    if u < TWO127 then u else u - TWO128
  }

  function ToUint128(x: int): (u: int)
    ensures IsUint128(u)
    ensures IsUint128(x) ==> u == x
  {
    x % TWO128
  }

  /** Division as C and Rust do it: the quotient is truncated toward zero. */
  function TruncDiv(a: int, b: int): int
    requires b > 0
  {
    if a >= 0 then a / b else -((-a) / b)
  }

  function Abs(x: int): nat {
    if x >= 0 then x else -x
  }

  function Max(x: int, y: int): int {
    if x >= y then x else y
  }

  function Min(x: int, y: int): int {
    if x <= y then x else y
  }
}

/** `avg_2_int64`: the floor average of two 64-bit integers without a wider type. */
module Average {
  import opened MachineInts

  /** The operations of the C function, each reduced modulo 2^64. */
  function Avg2Int64(x: int, y: int): (a: int)
    requires IsInt64(x) && IsInt64(y)
  {
    var t := ToUint64(x);
    var z := ToUint64(t + ToUint64(y));
    var b := if z >= ToUint64(t + TWO63) then 1 else 0;
    ToInt64(ToUint64(z / 2 - b * TWO63))
  }

  /** No pair of 64-bit inputs disturbs the average: it is the exact floor of the real one. */
  lemma Avg2Int64IsFloor(x: int, y: int)
    requires IsInt64(x) && IsInt64(y)
    ensures Avg2Int64(x, y) == (x + y) / 2
    ensures Min(x, y) <= Avg2Int64(x, y) <= Max(x, y)
  {
    var s := x + y;
    var z := if s >= 0 then s else s + TWO64;
    WrappedSum(x, y);
    BiasedOperand(x);
    WrappedHalf(z / 2 - (if s >= 0 then 0 else TWO63));
  }

  lemma WrappedSum(x: int, y: int)
    requires IsInt64(x) && IsInt64(y)
    ensures ToUint64(ToUint64(x) + ToUint64(y)) == if x + y >= 0 then x + y else x + y + TWO64
  {
    var kx, ky := if x >= 0 then 0 else 1, if y >= 0 then 0 else 1;
    Reduce(x, kx);
    Reduce(y, ky);
    var s := x + kx * TWO64 + (y + ky * TWO64);
    Reduce(s, if x + y >= 0 then -kx - ky else 1 - kx - ky);
  }

  lemma BiasedOperand(x: int)
    requires IsInt64(x)
    ensures ToUint64(ToUint64(x) + TWO63) == x + TWO63
  {
    Reduce(x, if x >= 0 then 0 else 1);
    Reduce(ToUint64(x) + TWO63, if x >= 0 then 0 else -1);
  }

  lemma WrappedHalf(h: int)
    requires IsInt64(h)
    ensures ToInt64(ToUint64(h)) == h
  {
    Reduce(h, if h >= 0 then 0 else 1);
    Reduce(ToUint64(h), 0);
  }

  lemma Reduce(x: int, k: int)
    requires 0 <= x + k * TWO64 < TWO64
    ensures ToUint64(x) == x + k * TWO64
  {
    assert x == -k * TWO64 + (x + k * TWO64);
  }
}
