/** Outcome types for the operations of the model that can fail. */
module Wrappers {

  /** A value that may be missing (pandas' NaN / NaT in a column). */
  datatype Option<+T> = None | Some(value: T)

  /** Either a computed value or the error the script would raise. */
  datatype Result<+R, +E> = Success(value: R) | Failure(error: E)
}
