/** The source's 64-bit integers: unchecked arithmetic wraps around. */
module Integers {
  const I64_MIN: int := -0x8000_0000_0000_0000
  const I64_MAX: int := 0x7FFF_FFFF_FFFF_FFFF
  const ISIZE_MAX: int := I64_MAX

  type I64 = x: int | I64_MIN <= x <= I64_MAX

  /** The one 64-bit integer that differs from `x` by a multiple of 2^64. */
  function Wrap(x: int): (r: I64)
    ensures I64_MIN <= x <= I64_MAX ==> r == x
    ensures (r - x) % 0x1_0000_0000_0000_0000 == 0
  {
    (x - I64_MIN) % 0x1_0000_0000_0000_0000 + I64_MIN
  }

  function Negate(x: I64): I64 {
    Wrap(-(x as int))
  }

  /** The one value whose negation is not its opposite. */
  lemma NegateExact(x: I64)
    ensures Negate(x) as int == -(x as int) <==> x != I64_MIN
    ensures Negate(I64_MIN) == I64_MIN
  {
  }
}
