/** Optional values and success-or-error results used by the task store model. */
module Wrappers {

  /** An optional value: the counterpart of a nullable field. */
  datatype Option<+T> = None | Some(value: T)

  /** Either a successful value or an error value. */
  datatype Result<+R, +E> = Success(value: R) | Failure(error: E)
}
