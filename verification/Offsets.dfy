/** Byte offsets: unsigned 64-bit words whose largest value stands for "unknown". */
module Offsets {

  const UNKNOWN: int := 0xFFFF_FFFF_FFFF_FFFF

  type Offset = x: int | 0 <= x <= UNKNOWN

  /** Addition saturates at UNKNOWN. */
  function Add(a: Offset, b: Offset): (r: Offset)
    ensures r == UNKNOWN || r == a + b
    ensures a + b < UNKNOWN ==> r == a + b
  {
    if a == UNKNOWN || b == UNKNOWN || a >= UNKNOWN - b then UNKNOWN else a + b
  }

  /** Subtraction below zero, or with an unknown operand, is UNKNOWN. */
  function Sub(a: Offset, b: Offset): (r: Offset)
    ensures a < UNKNOWN && b <= a ==> r == a - b
    ensures a < b || a == UNKNOWN ==> r == UNKNOWN
  {
    if a == UNKNOWN || b == UNKNOWN || a < b then UNKNOWN else a - b
  }
}
