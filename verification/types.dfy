/** Machine integer ranges and the result type shared by the other modules.
    Go's `int` is taken to be 64 bits wide, as on every 64-bit target. */
module Types {

  type byte = x: int | 0 <= x < 0x100
  type uint16 = x: int | 0 <= x < 0x1_0000
  type uint32 = x: int | 0 <= x < 0x1_0000_0000

  const MaxUint64: nat := 0xFFFF_FFFF_FFFF_FFFF
  const TwoTo63: int := 0x8000_0000_0000_0000
  const TwoTo64: int := 0x1_0000_0000_0000_0000

  type uint64 = x: int | 0 <= x < 0x1_0000_0000_0000_0000
  type int64 = x: int | -0x8000_0000_0000_0000 <= x < 0x8000_0000_0000_0000

  /** A value or the error that stands in for Go's non-nil `error`. */
  datatype Result<+T, +E> = Ok(value: T) | Err(error: E)

  /** Go's `int(u)` for a `uint64` u: the same 64 bits read as two's complement. */
  function Int64OfUint64(u: uint64): (r: int64)
    ensures (r - u) % TwoTo64 == 0
    ensures r == u <==> u < TwoTo63
  {
    if u < TwoTo63 then u else u - TwoTo64
  }

  /** Go's `n++` on a 64-bit `int`: wraps from the largest value to the smallest. */
  function Int64Inc(n: int64): (r: int64)
    ensures (r - n - 1) % TwoTo64 == 0
    ensures r == n + 1 <==> n < TwoTo63 - 1
  {
    if n == TwoTo63 - 1 then -TwoTo63 else n + 1
  }
}
