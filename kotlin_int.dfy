/** The parts of Kotlin's 32-bit `Int` arithmetic that the compressor relies on. */
module KotlinInt {

  const INT_MIN: int := -0x8000_0000
  /** `Int.MAX_VALUE`, also the search's initial "best difference". */
  const INT_MAX: int := 0x7fff_ffff

  predicate IsInt(x: int) {
    INT_MIN <= x <= INT_MAX
  }

  /** Two's-complement wrap-around of an exact product or sum into an `Int`. */
  function Wrap(x: int): (r: int)
    ensures IsInt(r)
    ensures (x - r) % 0x1_0000_0000 == 0
    ensures IsInt(x) ==> r == x
  {
    (x - INT_MIN) % 0x1_0000_0000 + INT_MIN
  }

  /** Kotlin's `/` on `Int` for a positive divisor: the quotient is truncated toward zero,
      so the remainder takes the sign of the dividend. */
  function Div(a: int, b: int): (q: int)
    requires b > 0
    ensures a >= 0 ==> q * b <= a < q * b + b
    ensures a < 0 ==> q * b - b < a <= q * b
    ensures a >= 0 ==> q >= 0
  {
    if a >= 0 then a / b else -((-a) / b)
  }
}
