/** Java's primitive `int`: a 32-bit two's-complement integer. */
module JavaInt {
  newtype int32 = x: int | -0x8000_0000 <= x < 0x8000_0000

  /** `Integer.MIN_VALUE` */
  const MinValue: int32 := -0x8000_0000
  /** `Integer.MAX_VALUE` */
  const MaxValue: int32 := 0x7fff_ffff

  /** No `int` lies below `Integer.MIN_VALUE` or above `Integer.MAX_VALUE`. */
  lemma SentinelBounds(x: int32)
    ensures MinValue <= x <= MaxValue
  {
  }
}
