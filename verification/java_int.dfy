/**
  Java's 32-bit `int`. Like counts are Java ints, so the model narrows every
  arithmetic result exactly as the JVM does (two's-complement wrap-around).
 */
module JavaInt {

  const MinInt: int := -0x8000_0000
  const MaxInt: int := 0x7fff_ffff
  const Modulus: int := 0x1_0000_0000

  type Int32 = x: int | MinInt <= x <= MaxInt

  /** Narrowing of an exact result to 32 bits, as `int + int` does in Java. */
  function Wrap(x: int): (r: Int32)
    ensures MinInt <= x <= MaxInt ==> r == x
    ensures x == MaxInt + 1 ==> r == MinInt
    ensures x == MinInt - 1 ==> r == MaxInt
  {
    (x - MinInt) % Modulus + MinInt
  }

  /** Java `a + b` on two ints. */
  function Add(a: Int32, b: Int32): (r: Int32)
    ensures MinInt <= a + b <= MaxInt ==> r == a + b
    ensures a + b > MaxInt ==> r == a + b - Modulus
    ensures a + b < MinInt ==> r == a + b + Modulus
  {
    Wrap(a + b)
  }
}
