/** Failure-compatible wrappers used throughout the model: an optional value
    (a parse that may fail, an attribute that may be missing) and a result that
    carries either a value or the error the program would raise. */
module Wrappers {

  datatype Option<+T> = None | Some(value: T)

  datatype Result<+R, +E> = Success(value: R) | Failure(error: E)
}
