/** Option and Result values, used for "may be None" lookups and for the
    exceptions the subset operations raise. */
module Wrappers {

  datatype Option<+T> = None | Some(value: T)

  datatype Result<+T, +E> = Success(value: T) | Failure(error: E)
}
