/** Failure-carrying results shared by the other modules: an operation of the
    source that raises is modelled as returning one of these. */
module Wrappers {

  datatype Option<+T> = None | Some(value: T)

  /** A value, or the error the source raises instead of producing it. */
  datatype Result<+T, +E> = Success(value: T) | Failure(error: E)

  /** The outcome of an operation that returns nothing unless it raises. */
  datatype Outcome<+E> = Pass | Fail(error: E)
}
