/** The part of the 256-bit unsigned integer library that the field code
    relies on, over unbounded naturals. `checked_add`, `checked_mul` and
    `checked_pow` answer `None` exactly when the true result does not fit
    in 256 bits, `checked_div` exactly for a zero divisor; the plain
    operators, which panic instead, are functions whose preconditions
    exclude the panic. */
module Uint {
  import opened ModArith

  const U64_LIMIT: nat := 0x1_0000_0000_0000_0000
  const U256_LIMIT: nat := 0x1_0000_0000_0000_0000_0000_0000_0000_0000_0000_0000_0000_0000_0000_0000_0000_0000

  /** Rust's `u64`; `usize` is taken to be 64 bits wide as well. */
  type U64 = x: nat | x < 0x1_0000_0000_0000_0000
  type Usize = U64

  /** The library's `U256`. */
  type U256 = x: nat | x < 0x1_0000_0000_0000_0000_0000_0000_0000_0000_0000_0000_0000_0000_0000_0000_0000_0000

  datatype Option<T> = None | Some(value: T)

  /** `U256::checked_add`. */
  function CheckedAdd(x: U256, y: U256): Option<U256> {
    if x + y < U256_LIMIT then Some(x + y) else None
  }

  /** `U256::checked_mul`. */
  function CheckedMul(x: U256, y: U256): Option<U256> {
    if x * y < U256_LIMIT then Some(x * y) else None
  }

  /** `U256::checked_div`: `None` for a zero divisor. */
  function CheckedDiv(x: U256, y: U256): Option<U256> {
    if y == 0 then None else Some(x / y)
  }

  /** `U256::checked_pow`. */
  function CheckedPow(x: U256, e: U256): Option<U256> {
    if Power(x, e) < U256_LIMIT then Some(Power(x, e)) else None
  }

  /** The `+` operator on `U256`, which panics on overflow. */
  function AddOrPanic(x: U256, y: U256): U256
    requires x + y < U256_LIMIT
  {
    x + y
  }

  /** The `-` operator on `U256`, which panics on underflow. */
  function SubOrPanic(x: U256, y: U256): U256
    requires y <= x
  {
    x - y
  }

  /** The `%` operator on `U256`, which panics on a zero divisor. */
  function RemOrPanic(x: U256, y: U256): U256
    requires y != 0
  {
    x % y
  }

  /** `U256::pow`, which panics on overflow. */
  function PowOrPanic(x: U256, e: U256): U256
    requires Power(x, e) < U256_LIMIT
  {
    Power(x, e)
  }
}
