/** Optional values and the error outcomes that the source reports by returning
    null or false, or by throwing. */
module Wrappers {
  datatype Option<T> = None | Some(value: T)

  datatype Result<T, E> = Success(value: T) | Failure(error: E)
}
