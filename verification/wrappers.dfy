/** Optional values and success-or-failure results used by the tracker model. */
module Wrappers {

  /** A value that may be absent: a lookup that found nothing, a table that was not given. */
  datatype Option<+T> = None | Some(value: T)

  /** Either a value or the reason there is none. */
  datatype Result<+R, +E> = Success(value: R) | Failure(error: E)
}
