/** Java's 32-bit `int`: the value range, `Integer.MIN_VALUE` and
    `Integer.MAX_VALUE`, the two's-complement wrap-around of `int` addition and
    the truncating `int` division. */
module JavaInt {

  const Modulus: int := 0x1_0000_0000

  /** A value of Java's primitive type `int`. */
  newtype Int32 = x: int | -0x8000_0000 <= x < 0x8000_0000

  /** `Integer.MIN_VALUE`. */
  const MinValue: Int32 := -0x8000_0000

  /** `Integer.MAX_VALUE`. */
  const MaxValue: Int32 := 0x7FFF_FFFF

  /** `Math.min(x, y)` on two `int`s. */
  function Min(x: Int32, y: Int32): (r: Int32)
    ensures r <= x && r <= y
    ensures r == x || r == y
  {
    if x <= y then x else y
  }

  /** The `int` that Java's `+` produces for two `int`s whose exact sum is `x`:
      the unique value of the `int` range congruent to `x` modulo 2^32. */
  function Wrap(x: int): (r: Int32)
    ensures (x - r as int) % Modulus == 0
    ensures -0x8000_0000 <= x < 0x8000_0000 ==> r as int == x
  {
    (((x + 0x8000_0000) % Modulus) - 0x8000_0000) as Int32
  }

  /** Java's `x / 2` on an `int`: the quotient is truncated toward zero, so
      the remainder has the sign of `x` (Dafny's own `/` rounds toward negative
      infinity for a negative `x`). */
  function Half(x: Int32): (q: Int32)
    ensures 0 <= x ==> 0 <= x as int - 2 * q as int <= 1
    ensures x < 0 ==> -1 <= x as int - 2 * q as int <= 0
  {
    if 0 <= x then x / 2 else -((-(x as int)) / 2) as Int32
  }
}
