/** Option and Result, the two shapes the Rust source returns. */
module Wrappers {

  datatype Option<+T> = None | Some(value: T)

  /** `Ok` carries the suggested word, `Err` the not-found message. */
  datatype Result<+T, +E> = Ok(value: T) | Err(error: E)
}
