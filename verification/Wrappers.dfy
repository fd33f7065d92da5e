/**
 Types that every component uses.
 */
module Wrappers {
  datatype Option<+T> = None | Some(value: T)

  type byte = x: int | 0 <= x < 256

  /** One more than the largest 64-bit number. */
  const WORD64: nat := 0x1_0000_0000_0000_0000

  /** Errors of the C library. */
  const EINVAL: int := 22
  const EFBIG: int := 27
}
