/** Option and Result, the two wrappers the model uses for Python's `None` and
    for the exceptions (`KeyError`, `ValueError`, `AssertionError`) the source raises. */
module Wrappers {

  datatype Option<+T> = None | Some(value: T)

  datatype Result<+T, +E> = Success(value: T) | Failure(error: E)
}
