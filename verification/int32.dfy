/** Java `int` arithmetic, as far as the shortest-path loops need it. */
module Int32 {

  const INT_MIN: int := -0x8000_0000
  const INT_MAX: int := 0x7fff_ffff
  const MODULUS: int := 0x1_0000_0000

  predicate IsInt32(x: int) {
    INT_MIN <= x <= INT_MAX
  }

  /** Java's `a + b` on two ints: the mathematical sum brought back into the
      int range modulo 2^32 (two's-complement wrap-around). */
  function Add(a: int, b: int): (r: int)
    ensures IsInt32(r)
    ensures (a + b - r) % MODULUS == 0
    ensures IsInt32(a + b) ==> r == a + b
  {
    (a + b - INT_MIN) % MODULUS + INT_MIN
  }
}
