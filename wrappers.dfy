/** Values that may be absent, and outcomes that may have failed. */
module Wrappers {

  /** `None` stands for JavaScript's `null`/`undefined` and Rust's `None`. */
  datatype Option<+T> = None | Some(value: T)

  /** A computation that either produced a value or failed with an error. */
  datatype Result<+R, +E> = Success(value: R) | Failure(error: E)
}
