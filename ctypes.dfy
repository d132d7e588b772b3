/** The fixed-width C integer types the clock uses, and the conversions and the
    division that C performs on them.  Dafny's `int` is unbounded and its `/`
    is Euclidean, so each of these is written out. */
module CTypes {

  const U32_MODULUS: int := 0x1_0000_0000

  type u32 = x: int | 0 <= x < 0x1_0000_0000
  type i32 = x: int | -0x8000_0000 <= x < 0x8000_0000

  /** `(uint32_t)x` for an `int32_t x`: the two's-complement bit pattern read
      as unsigned. */
  function U32OfI32(x: i32): (r: u32)
    ensures 0 <= x ==> r == x
    ensures x < 0 ==> r == x + U32_MODULUS
    ensures r % U32_MODULUS == x % U32_MODULUS
  {
    if x < 0 then x + 0x1_0000_0000 else x
  }

  /** Storing a `uint32_t` into an `int32_t`, as the compilers the source
      targets do it: modulo 2^32. */
  function I32OfU32(x: u32): (r: i32)
    ensures x < 0x8000_0000 ==> r == x
    ensures 0x8000_0000 <= x ==> r == x - U32_MODULUS
    ensures r % U32_MODULUS == x % U32_MODULUS
  {
    if x < 0x8000_0000 then x else x - 0x1_0000_0000
  }

  /** The two conversions are inverse bijections between the two types. */
  lemma ConversionsInverse(x: i32, y: u32)
    ensures I32OfU32(U32OfI32(x)) == x
    ensures U32OfI32(I32OfU32(y)) == y
  {
  }

  /** C99 integer division (6.5.5 of ISO/IEC 9899:1999): the quotient is
      truncated toward zero, so the remainder takes the sign of the dividend. */
  function CDiv(a: int, d: int): (q: int)
    requires d > 0
    ensures 0 <= a ==> 0 <= a - d * q < d
    ensures a < 0 ==> -d < a - d * q <= 0
  {
    if a >= 0 then a / d else -((-a) / d)
  }
}
