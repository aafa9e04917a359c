/** C# `long`: the 64-bit two's-complement integers and unchecked arithmetic on them. */
module Longs {

  /** Bounds of a C# `long`. */
  const Min: int := -0x8000_0000_0000_0000
  const Max: int := 0x7FFF_FFFF_FFFF_FFFF

  /** Number of distinct `long` values. */
  const Modulus: int := 0x1_0000_0000_0000_0000

  newtype int64 = x: int | Min <= x <= Max

  /**
   * The `long` that unchecked arithmetic yields for the exact result `x`: the
   * one value in range congruent to `x` modulo 2^64.
   */
  function Wrap(x: int): (r: int64)
    ensures (r as int - x) % Modulus == 0
    ensures Min <= x <= Max ==> r as int == x
  {
    var m := x % Modulus;
    if m <= Max then m as int64 else (m - Modulus) as int64
  }
}
