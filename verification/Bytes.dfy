/** Machine bytes and the two places where a C integer width matters. */
module Bytes {
  type byte = b: int | 0 <= b < 256

  const U32_RANGE: nat := 0x1_0000_0000
  const I32_MAX: nat := 0x7fff_ffff

  datatype Option<+T> = None | Some(value: T)

  /** Wrap-around of a 32-bit unsigned addition. */
  function U32(v: nat): (r: nat)
    ensures r < U32_RANGE
  {
    v % U32_RANGE
  }

  /** Conversion to a 32-bit int. */
  function I32(v: int): (r: int)
    ensures -1 - I32_MAX <= r <= I32_MAX
    ensures r == v <==> -1 - I32_MAX <= v <= I32_MAX
  {
    (v + I32_MAX + 1) % U32_RANGE - I32_MAX - 1
  }
}
