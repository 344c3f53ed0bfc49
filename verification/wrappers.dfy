/** Failure-carrying values used throughout the model: `Option` for SQL columns
    that may be NULL, `Result` for an operation that either returns or throws. */
module Wrappers {

  datatype Option<+T> = None | Some(value: T)

  /** `Err` stands for a thrown (or rejected) JavaScript error. */
  datatype Result<+T, +E> = Ok(value: T) | Err(error: E)
}
