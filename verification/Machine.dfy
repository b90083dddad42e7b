/** Fixed-width unsigned arithmetic of the gateway, written out on the integers,
    and the two result shapes shared by the other modules. */
module Machine {
  const U16_MAX: int := 0xFFFF
  const U32_MAX: int := 0xFFFF_FFFF
  const U64_MAX: int := 0xFFFF_FFFF_FFFF_FFFF
  const U128_MAX: int := 0xFFFF_FFFF_FFFF_FFFF_FFFF_FFFF_FFFF_FFFF
  const I64_MAX: int := 0x7FFF_FFFF_FFFF_FFFF

  type U16 = x: int | 0 <= x <= U16_MAX
  type U32 = x: int | 0 <= x <= U32_MAX
  type U64 = x: int | 0 <= x <= U64_MAX

  datatype Option<+T> = None | Some(value: T)

  datatype Result<+T, +E> = Ok(value: T) | Err(error: E)

  function Min(a: int, b: int): int {
    if a <= b then a else b
  }

  function Max(a: int, b: int): int {
    if a >= b then a else b
  }

  /** `u64::saturating_add`. */
  function SatAdd(a: U64, b: U64): U64 {
    Min(a + b, U64_MAX)
  }

  /** `u64::saturating_mul`. */
  function SatMul(a: U64, b: U64): (r: U64) {
    assert 0 <= a * b;
    Min(a * b, U64_MAX)
  }

  /** `u64::saturating_sub`. */
  function SatSub(a: U64, b: U64): U64 {
    Max(a - b, 0)
  }
}
