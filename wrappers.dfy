/** Optional values and results with an error, as used throughout the model. */
module Wrappers {

  /** std::optional, or a handle that may be VK_NULL_HANDLE. */
  datatype Option<+T> = None | Some(value: T)

  /** The value an operation produces, or the error it throws. */
  datatype Result<+T, +E> = Success(value: T) | Failure(error: E)
}
