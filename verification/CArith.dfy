/** The integer operators of C that differ from Dafny's: division and remainder
    truncate towards zero, and `unsigned` arithmetic is modulo 2^32. */
module CArith {

  /** `a / b` on signed operands, `b` positive. */
  function TDiv(a: int, b: int): int
    requires b > 0
  {
    if a >= 0 then a / b else -((-a) / b)
  }

  /** `a % b` on signed operands, `b` positive. */
  function TMod(a: int, b: int): int
    requires b > 0
  {
    if a >= 0 then a % b else -((-a) % b)
  }

  /** Conversion to a 32-bit `unsigned`. */
  function U32(a: int): nat {
    a % 0x1_0000_0000
  }

  /** Conversion of a 32-bit `unsigned` to a two's-complement `int`. */
  function S32(a: nat): int
    requires a < 0x1_0000_0000
  {
    if a < 0x8000_0000 then a else a - 0x1_0000_0000
  }
}
