/** Absent values and error results shared by the other modules. */
module Wrappers {

  /** A value that may be missing: JavaScript's `null` or NaN, or an unset variable. */
  datatype Option<+T> = None | Some(value: T)

  /** Either a value or the error the source raises instead of returning one. */
  datatype Result<+T, +E> = Success(value: T) | Failure(error: E)
}
