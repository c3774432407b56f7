/** Optional values and results that may carry an error, shared by the model. */
module Wrappers {

  /** A value that may be missing; stands for JavaScript's `undefined` result. */
  datatype Option<+T> = None | Some(value: T)

  /** The outcome of an operation that may throw. */
  datatype Result<+T, +E> = Ok(value: T) | Err(error: E)
}
