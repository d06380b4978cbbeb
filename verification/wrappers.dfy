/** Optional values and typed failures, used wherever the service either
    finds nothing or answers with an error instead of a value. */
module Wrappers {

  datatype Option<+T> = None | Some(value: T)

  datatype Result<+R, +E> = Success(value: R) | Failure(error: E)
}
