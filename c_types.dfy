/** The fixed-width C integer types the driver and the user-space program work with. */
module CTypes {

  /** An 8-bit unsigned value: `u8`, `uint8_t`, or one byte of a `char` buffer. */
  type byte = x: int | 0 <= x < 0x100

  /** A 32-bit unsigned value: `unsigned int`, `u32`, `uint32_t`. */
  type u32 = x: int | 0 <= x < 0x1_0000_0000

  const U8_MAX: byte := 0xFF
  const U32_MOD: int := 0x1_0000_0000

  /**
   * C's conversion of an integer to a 32-bit unsigned type: reduction modulo 2^32. The congruence
   * with `x` is left to the body, which stays visible: as an `ensures` it costs every proof that
   * mentions a conversion a nonlinear modulus fact.
   */
  function ToU32(x: int): (r: u32)
    ensures 0 <= x < 0x1_0000_0000 ==> r == x
  {
    x % 0x1_0000_0000
  }

  /**
   * The same reduction for a value below 2^33, such as the double or the sum of two 32-bit values:
   * at most one 2^32 comes off.
   */
  function WrapOnce(x: int): u32
    requires 0 <= x < 2 * 0x1_0000_0000
  {
    if x < 0x1_0000_0000 then x else x - 0x1_0000_0000
  }

  lemma WrapOnceIsToU32(x: int)
    requires 0 <= x < 2 * 0x1_0000_0000
    ensures WrapOnce(x) == ToU32(x)
  {
  }

  /** C's conversion of an integer to `uint8_t`: only the low 8 bits survive (see `ToU32`). */
  function ToU8(x: int): (r: byte)
    ensures 0 <= x < 0x100 ==> r == x
  {
    x % 0x100
  }

  datatype Option<T> = None | Some(value: T)
}
