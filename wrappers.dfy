/** Option and Result, for values JavaScript leaves undefined and for rejected requests. */
module Wrappers {
  datatype Option<+T> = None | Some(value: T)

  datatype Result<+R, +E> = Success(value: R) | Failure(error: E)
}
