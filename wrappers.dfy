/** Optional values and results with an error, shared by the other modules. */
module Wrappers {

  /** A value that may be absent: an unparsable date, a missing property. */
  datatype Option<+T> = None | Some(value: T)

  /** The outcome of an operation that either returns a value or throws an error. */
  datatype Result<+T, +E> = Success(value: T) | Failure(error: E)
}
