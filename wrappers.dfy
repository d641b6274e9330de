/** Optional values and results with an error, shared by every module of the model. */
module Wrappers {

  /** A value that may be absent (`undefined` in the upload route). */
  datatype Option<T> = None | Some(value: T)

  /** The outcome of a parse: the parsed value, or the reason it was refused. */
  datatype Result<T, E> = Success(value: T) | Failure(error: E)
}
