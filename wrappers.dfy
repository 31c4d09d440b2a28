/** Optional values and results with an error, shared by every module. */
module Wrappers {

  /** A value that may be absent: Python's None or a missing dictionary key. */
  datatype Option<+T> = None | Some(value: T)

  /** The outcome of an operation that either returns a value or raises. */
  datatype Result<+T, +E> = Ok(value: T) | Err(error: E)
}
