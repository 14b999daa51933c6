/** Optional values and results of operations that can fail. */
module Wrappers {

  /** A value that may be absent: a DOM lookup that found nothing is `None`. */
  datatype Option<+T> = None | Some(value: T)

  /** The outcome of an operation that can throw: `Failure` carries the error message. */
  datatype Result<+R, +E> = Success(value: R) | Failure(error: E)
}
