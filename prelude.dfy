/** Small shared vocabulary: optional values, results and bytes. */
module Prelude {

  datatype Option<T> = None | Some(value: T)

  /** Rust's `Result<T, E>`. */
  datatype Result<T, E> = Ok(value: T) | Err(error: E)

  /** A `u8` / `uint8_t`. */
  newtype byte = x: int | 0 <= x < 256
}
