/** Java's 32-bit `int` and its two's-complement `+`. */
module JavaInt {

  const INT_MIN: int := -0x8000_0000
  const INT_MAX: int := 0x7fff_ffff
  const MODULUS: int := 0x1_0000_0000

  /** The values a Java `int` can hold. */
  type Int32 = x: int | INT_MIN <= x <= INT_MAX

  /** The Java `int` that a mathematical sum wraps around to. */
  function Wrap(x: int): (r: Int32)
    ensures (x - r) % MODULUS == 0
    ensures INT_MIN <= x <= INT_MAX ==> r == x
    ensures INT_MAX < x < INT_MAX + MODULUS ==> r == x - MODULUS
  {
    var r := (x - INT_MIN) % MODULUS + INT_MIN;
    assert x - r == MODULUS * ((x - INT_MIN) / MODULUS);
    r
  }
}
