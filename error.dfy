/** The error kinds of the library (src/utils/error.rs) and the `Result`
    every fallible `Field` operation returns. */
module Errors {

  /** The flat error enumeration. `NoAdditiveInverse` is declared but no
      operation produces it. `Underflow` is produced both for a product that
      does not fit in 256 bits and for a division by zero. */
  datatype ModCError =
    | ModulusZero
    | InverseZero
    | Overflow
    | Underflow
    | NoAdditiveInverse

  /** Rust's `Result<T, ModCError>`. */
  datatype Result<T> = Ok(value: T) | Err(error: ModCError)
}
