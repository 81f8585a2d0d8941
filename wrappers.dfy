/** Optional values and results shared by the other modules. */
module Wrappers {

  datatype Option<+T> = None | Some(value: T)

  /** The outcome of an operation that either produces a value or is refused for a reason. */
  datatype Result<+T, +E> = Ok(value: T) | Err(error: E)
}
