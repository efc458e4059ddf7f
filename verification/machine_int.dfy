/**
 * Fixed-width C integers. Dafny's integers are unbounded, so every place where
 * the C code relies on unsigned wrap-around goes through one of the functions
 * below. Dafny's `%` is Euclidean, which for a positive modulus is exactly the
 * two's-complement reduction C performs when it converts to an unsigned type.
 */
module MachineInt {

  const TWO_16: nat := 0x1_0000
  const TWO_32: nat := 0x1_0000_0000
  const TWO_64: nat := 0x1_0000_0000_0000_0000
  const TWO_128: nat := TWO_64 * TWO_64

  type U16 = x: int | 0 <= x < 0x1_0000
  type U32 = x: int | 0 <= x < 0x1_0000_0000
  type U64 = x: int | 0 <= x < 0x1_0000_0000_0000_0000

  /** Conversion of an arbitrary integer to `unsigned` (32 bits). */
  function Wrap32(x: int): (r: U32)
    ensures x % TWO_32 == r
    ensures 0 <= x < TWO_32 ==> r == x
  {
    x % TWO_32
  }

  /** Conversion of an arbitrary integer to `uint64_t`. */
  function Wrap64(x: int): (r: U64)
    ensures x % TWO_64 == r
    ensures 0 <= x < TWO_64 ==> r == x
  {
    x % TWO_64
  }

  /**
   * C's `/` on `int`: the quotient is truncated toward zero, so the remainder
   * `a - q * b` has the sign of the numerator and is smaller than the divisor
   * in magnitude.
   */
  function CDiv(a: int, b: int): (q: int)
    requires b != 0
    ensures b > 0 && a >= 0 ==> 0 <= a - q * b < b
    ensures b > 0 && a < 0 ==> -b < a - q * b <= 0
    ensures b < 0 && a >= 0 ==> 0 <= a - q * b < -b
    ensures b < 0 && a < 0 ==> b < a - q * b <= 0
  {
    var m := (if a < 0 then -a else a) / (if b < 0 then -b else b);
    if (a < 0) == (b < 0) then m else -m
  }
}
