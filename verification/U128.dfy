/** Unsigned 128-bit machine integers with Rust's wrapping, checked and overflowing operations.
    A plain `+` or `*` on these values must be shown not to overflow. */
module U128 {
  const LIMB: int := 0x1_0000_0000
  const R: int := 0x1_0000_0000_0000_0000_0000_0000_0000_0000

  type u128 = x: int | 0 <= x < R
  type u64 = x: int | 0 <= x < 0x1_0000_0000_0000_0000

  datatype Checked = Overflow | Value(v: u128)

  function WrappingMul(a: u128, b: u128): u128 {
    (a * b) % R
  }

  function WrappingAdd(a: u128, b: u128): u128 {
    if a + b < R then a + b else a + b - R
  }

  function WrappingSub(a: u128, b: u128): u128 {
    if a < b then a - b + R else a - b
  }

  function WrappingNeg(a: u128): (r: u128)
    ensures a + r == 0 || a + r == R
  {
    if a == 0 then 0 else R - a
  }

  function OverflowingAdd(a: u128, b: u128): (u128, bool) {
    (WrappingAdd(a, b), a + b >= R)
  }

  function CheckedAdd(a: u128, b: u128): Checked {
    if a + b < R then Value(a + b) else Overflow
  }

  function CheckedMul(a: u128, b: u128): Checked {
    var p := a * b;
    if 0 <= p < R then Value(p) else Overflow
  }
}
