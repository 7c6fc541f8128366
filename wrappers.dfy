/** Option and Result, used for the lookups that can fail and for the one
    fatal error of the extraction stage. */
module Wrappers {

  datatype Option<+T> = None | Some(value: T)

  datatype Result<+R, +E> = Success(value: R) | Failure(error: E)
}
