/** Optional values and the outcome of operations that can throw. */
module Wrappers {

  /** Swift's `T?`. */
  datatype Option<+T> = None | Some(value: T)

  /** A throwing Swift function that returns a value: the value, or the error it throws. */
  datatype Result<+T, +E> = Ok(value: T) | Err(error: E)

  /** A throwing Swift function that returns nothing: it completes, or throws. */
  datatype Outcome<+E> = Pass | Fail(error: E)
}
