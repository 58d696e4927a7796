/** The Option and Result types that the model uses for SQL NULL and for the
    exceptions a route handler raises. */
module Wrappers {
  datatype Option<+T> = None | Some(value: T)

  datatype Result<+T, +E> = Success(value: T) | Failure(error: E)
}
