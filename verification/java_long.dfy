/**
  Java's 64-bit signed `long`, as used for the millisecond clock readings
  returned by `System.currentTimeMillis()` and for the cache timestamp.
  Dafny integers are unbounded, so the two's-complement wrap-around of
  Java's `-` is written out here.
 */
module JavaLong {

  const MinLong: int := -0x8000_0000_0000_0000
  const MaxLong: int := 0x7fff_ffff_ffff_ffff
  /** Number of distinct `long` values, 2^64. */
  const Modulus: int := 0x1_0000_0000_0000_0000

  /** A value a Java `long` can hold. */
  type Long = x: int | MinLong <= x <= MaxLong

  /** Reduces a mathematical integer to the `long` congruent to it modulo 2^64,
      which is what the JVM's 64-bit arithmetic keeps of an exact result. */
  function Wrap(x: int): (r: Long)
    ensures MinLong <= x <= MaxLong ==> r == x
    ensures (x - r) % Modulus == 0
  {
    (x - MinLong) % Modulus + MinLong
  }

  /** Java's `a - b` on two `long` operands (JLS section 15.18.2: the result
      is the low-order 64 bits of the exact difference). */
  function Sub(a: Long, b: Long): (r: Long)
    ensures MinLong <= a - b <= MaxLong ==> r == a - b
    ensures 0 <= a && 0 <= b ==> r == a - b
    ensures a - b > MaxLong ==> r == a - b - Modulus
    ensures a - b < MinLong ==> r == a - b + Modulus
  {
    Wrap(a - b)
  }
}
