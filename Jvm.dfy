/** The two pieces of Java semantics the precision test depends on: a call that
    either returns a value or throws an AssertionError, and the narrowing cast
    from long to int. */
module Jvm {

  /** The data the AssertionError of isPrecise reports: the time that should
      have elapsed by the failing call and the time that actually did. */
  datatype AssertionError = AssertionError(shouldHaveElapsed: int, elapsedNanoTime: int)

  /** The outcome of a Java call: it returns a value, or an AssertionError
      propagates out of it. */
  datatype Outcome<+T> = Returned(value: T) | Threw(error: AssertionError)

  const INT_MIN: int := -0x8000_0000
  const INT_MAX: int := 0x7fff_ffff
  const INT_MODULUS: int := 0x1_0000_0000

  /** The Java cast (int) of a long: keep the low 32 bits, read as two's complement. */
  function IntCast(x: int): (r: int)
    ensures INT_MIN <= r <= INT_MAX
    ensures (x - r) % INT_MODULUS == 0
    ensures INT_MIN <= x <= INT_MAX ==> r == x
  {
    (x - INT_MIN) % INT_MODULUS + INT_MIN
  }
}
