/**
 * Rust's fixed-width unsigned integers as subsets of `int`, with the
 * wrap-around of `u64`/`u32`/`u16` arithmetic written out where the
 * source relies on it (atomic `fetch_add`, release-mode `+`).
 */
module Widths {

  const U16_MODULUS: nat := 0x1_0000
  const U32_MODULUS: nat := 0x1_0000_0000
  const U64_MODULUS: nat := 0x1_0000_0000_0000_0000

  /** A byte (`u8`). */
  type u8 = x: int | 0 <= x < 0x100
  type u16 = x: int | 0 <= x < 0x1_0000
  type u32 = x: int | 0 <= x < 0x1_0000_0000
  type u64 = x: int | 0 <= x < 0x1_0000_0000_0000_0000

  /** `a.wrapping_add(b)` on `u64` (what `AtomicU64::fetch_add` does). */
  function WrapAdd64(a: u64, b: u64): (r: u64)
    ensures r == (a + b) % U64_MODULUS
  {
    if a + b < U64_MODULUS then a + b else a + b - U64_MODULUS
  }

  /** `a.wrapping_add(b)` on `u32`. */
  function WrapAdd32(a: u32, b: u32): (r: u32)
    ensures r == (a + b) % U32_MODULUS
  {
    if a + b < U32_MODULUS then a + b else a + b - U32_MODULUS
  }

  /** `a.wrapping_add(b)` on `u16`. */
  function WrapAdd16(a: u16, b: u16): (r: u16)
    ensures r == (a + b) % U16_MODULUS
  {
    if a + b < U16_MODULUS then a + b else a + b - U16_MODULUS
  }

  function Min(a: int, b: int): (r: int)
    ensures r <= a && r <= b && (r == a || r == b)
  {
    if a <= b then a else b
  }
}
