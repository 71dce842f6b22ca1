/** Failure-carrying results shared by every layer of the model. */
module Wrappers {

  /** A value that may be absent. */
  datatype Option<+T> = None | Some(value: T)

  /** Either a computed value or the error the source raises instead. */
  datatype Result<+T, +E> = Success(value: T) | Failure(error: E) {
    predicate IsFailure() { Failure? }

    function PropagateFailure<U>(): Result<U, E>
      requires Failure?
    {
      Failure(error)
    }

    function Extract(): T
      requires Success?
    {
      value
    }
  }

  /** The C++ exceptions thrown by the collections, matrices and reducers.
      `NoSpaceToInsert` is the `invalid_argument("No space to insert")` of a
      full fixed-capacity array, kept apart from the other invalid arguments
      because callers depend on it. */
  datatype CppError = OutOfRange | InvalidArgument | NoSpaceToInsert
}
