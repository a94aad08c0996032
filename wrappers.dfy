/** Failure-carrying values: Go's `(value, error)` returns become a Result, and
    "possibly absent" values become an Option. */
module Wrappers {

  datatype Option<+T> = None | Some(value: T)

  datatype Result<+T, +E> = Success(value: T) | Failure(error: E)
}
