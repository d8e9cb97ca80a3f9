/** Optional values and success/failure results shared by the model's modules. */
module Wrappers {

  /** A value that may be absent: a missing request field, a row that failed to parse. */
  datatype Option<+T> = None | Some(value: T)

  /** The outcome of an operation that can be refused with an error value. */
  datatype Result<+R, +E> = Ok(value: R) | Err(error: E)
}
