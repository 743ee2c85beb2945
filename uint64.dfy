/** Unsigned 64-bit arithmetic: values reduced modulo 2^64, as a uint64_t
    holds them. */
module UInt64 {
  const U64: nat := 0x1_0000_0000_0000_0000

  /** A value reduced as a uint64_t: the conversion of a signed value and
      the result of an unsigned operation both wrap modulo 2^64. */
  function Wrap(x: int): (r: nat)
    ensures r < U64
  {
    x % U64
  }
}
