/** Unsigned 32-bit quantities of the C++ source: tile ids, dimensions and the
    `UINT_MAX` sentinel used both for an invalid hex digit and for a forfeit. */
module Limits {

  /** `std::numeric_limits<unsigned int>::max()` on a 32-bit `unsigned int`. */
  const UINT_MAX: int := 0xFFFF_FFFF

  /** Number of distinct `unsigned int` values. */
  const UINT_RANGE: int := 0x1_0000_0000

  type uint32 = x: int | 0 <= x < 0x1_0000_0000
}
