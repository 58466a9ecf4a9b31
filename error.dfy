/** The crate's error type and its `Result` alias (src/error.rs). */
module Errors {
  import opened Primitives

  /** The only error: a component count outside 1..=9, carrying the offending value. */
  datatype Error = ComponentOutOfBounds(value: u8)

  /** `crate::Result<T>`, i.e. `std::result::Result<T, Error>`. */
  datatype Result<T> = Ok(value: T) | Err(error: Error)
}
