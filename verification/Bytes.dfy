/** Machine integers of the target and a few shared helpers. */
module Bytes {

  const TWO32: int := 0x1_0000_0000

  type byte = x: int | 0 <= x < 256
  type u32 = x: int | 0 <= x < TWO32

  datatype Option<+T> = None | Some(value: T)

  /** The value a U32 variable holds after being assigned x. */
  function U32(x: int): u32 {
    x % TWO32
  }

  /** U32 subtraction, which wraps below zero. */
  function Sub32(a: u32, b: u32): u32 {
    if b <= a then a - b else a + TWO32 - b
  }

  /** U32 addition, which wraps past the top. */
  function Add32(a: u32, b: u32): u32 {
    if a + b < TWO32 then a + b else a + b - TWO32
  }

  function Min(a: int, b: int): int {
    if a < b then a else b
  }

  function Max(a: int, b: int): int {
    if a < b then b else a
  }
}
