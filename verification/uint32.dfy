/**
 Unsigned 32-bit arithmetic as C performs it on `uint32_t`: every result is
 reduced modulo 2^32. The millisecond clock, the task counters and both id
 counters of the system are values of this type.
 */
module UInt32 {

  const MOD: int := 0x1_0000_0000
  const MAX: int := 0xFFFF_FFFF

  type u32 = x: int | 0 <= x < 0x1_0000_0000

  /** `a + b` on uint32_t. */
  function Add(a: u32, b: u32): (r: u32)
    ensures a + b < MOD ==> r == a + b
    ensures a + b >= MOD ==> r + MOD == a + b
  {
    if a + b < MOD then a + b else a + b - MOD
  }

  /** `x++` on uint32_t: MAX wraps around to 0. */
  function Inc(x: u32): (r: u32)
    ensures r == Add(x, 1)
    ensures x < MAX ==> r == x + 1
  {
    if x == MAX then 0 else x + 1
  }

  /** `x--` on uint32_t: 0 wraps around to MAX. */
  function Dec(x: u32): (r: u32)
    ensures Inc(r) == x
  {
    if x == 0 then MAX else x - 1
  }

  /** `a - b` on uint32_t, the wrap-safe distance from `b` forward to `a`. */
  function Sub(a: u32, b: u32): (r: u32)
    ensures Add(b, r) == a
    ensures b <= a ==> r == a - b
  {
    if b <= a then a - b else a - b + MOD
  }
}
