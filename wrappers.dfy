/** Failure-carrying wrappers shared by the model. */
module Wrappers {
  /** A value that may be absent: a URL that failed to parse is `None`. */
  datatype Option<+T> = None | Some(value: T)

  /** Either a value or the error a call raised instead of returning. */
  datatype Result<+T, +E> = Ok(value: T) | Err(error: E)
}
