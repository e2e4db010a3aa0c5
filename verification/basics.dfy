/** Machine integers and the optional-value wrapper shared by every module. */
module Basics {

  /** Exclusive upper bound of the source's `uint64_t`. */
  const U64_LIMIT: int := 0x1_0000_0000_0000_0000

  /** A value that fits in a `uint64_t`. */
  type U64 = x: nat | x < U64_LIMIT

  /** One byte of a hash, commitment or signature. */
  type byte = b: int | 0 <= b < 256

  /** The source's null pointers and absent JSON members. */
  datatype Option<+T> = None | Some(value: T)

  /** `a - b` on unsigned integers, stopping at zero instead of wrapping. */
  function SaturatingSub(a: nat, b: nat): (r: nat)
    ensures a >= b ==> r + b == a
    ensures a < b ==> r == 0
  {
    if a >= b then a - b else 0
  }

  function Min(a: int, b: int): (r: int) { if a <= b then a else b }

  function Max(a: int, b: int): (r: int) { if a >= b then a else b }
}
