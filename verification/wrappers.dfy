/** Optional values and success-or-error results: a value that may be
    absent, and an operation that may hand back an error instead. */
module Wrappers {

  datatype Option<+T> = None | Some(value: T)

  datatype Result<+R, +E> = Success(value: R) | Failure(error: E)
}
