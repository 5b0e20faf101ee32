/** Small value wrappers shared by the modules of the model. */
module Wrappers {

  /** Rust's `Option<T>`. */
  datatype Option<+T> = None | Some(value: T)

  /** The outcome of an operation that may panic in the source: a value, or
      `Panic` where the source indexes past the end of a vector or fails an
      `assert!`. */
  datatype Result<+T> = Ok(value: T) | Panic
}
