/** Failure-compatible wrappers shared by every module of the model. */
module Wrappers {

  /** A value that may be absent; in the C++ model `None` stands for a thrown exception,
      in the JavaScript model for `undefined`. */
  datatype Option<+T> = None | Some(value: T)

  /** Either a value or the reason the computation stopped. */
  datatype Result<+T, +E> = Ok(value: T) | Err(error: E)
}
