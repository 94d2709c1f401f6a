/** Octets, and the two result types every program here returns. */
module Bytes {
  type byte = b: int | 0 <= b < 256

  datatype Option<+T> = None | Some(value: T)

  /** A value, or a failure whose wording is of no interest here. */
  datatype Result<+T, +E> = Ok(value: T) | Err(error: E)
}
