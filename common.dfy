/** Failure-compatible wrappers shared by every module of the model. */
module Common {

  /** A value that may be absent: JavaScript's `undefined` is `None`. */
  datatype Option<+T> = None | Some(value: T)

  /** The result of an operation that may throw: `Err` carries what was thrown. */
  datatype Result<+T, +E> = Ok(value: T) | Err(error: E)
}
