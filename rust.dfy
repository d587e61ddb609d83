/**
 * The Rust primitives that the connection code relies on: fixed-width
 * unsigned integers, `Option`, the debug-build `+` on `u32` (which panics
 * on overflow) and the truncating `as u16` cast.
 */
module Rust {

  const U16_LIMIT: int := 0x1_0000
  const U32_LIMIT: int := 0x1_0000_0000

  type u8 = x: int | 0 <= x < 0x100
  type u16 = x: int | 0 <= x < U16_LIMIT
  type u32 = x: int | 0 <= x < U32_LIMIT

  datatype Option<+T> = None | Some(value: T)

  /**
   * `a + b` on two `u32` values in a debug build, with `None` where the
   * program would panic with "attempt to add with overflow". Against the
   * wrapping sum a release build would compute: the two agree whenever
   * there is no panic, and the panic happens exactly when the wrapping sum
   * falls below `a` (the carry out of bit 31).
   */
  function CheckedAdd(a: u32, b: u32): (r: Option<u32>)
    ensures r.None? <==> (a + b) % U32_LIMIT < a
    ensures r.Some? ==> r.value == (a + b) % U32_LIMIT
  {
    if a + b < U32_LIMIT then Some(a + b) else None
  }

  /**
   * `x as u16` on an unsigned source value: keeps the low sixteen bits, so
   * the result agrees with `x` modulo 2^16 and equals `x` when it fits.
   */
  function AsU16(x: nat): (r: u16)
    ensures x < U16_LIMIT ==> r == x
    ensures (x - r) % U16_LIMIT == 0
  {
    x % U16_LIMIT
  }
}
