/** Small failure-carrying datatypes shared by the models. */
module Wrappers {

  /** An optional value; JavaScript `undefined` / Python `None`. */
  datatype Maybe<+T> = None | Some(value: T)

  /** A value or the error that the source raises instead of returning one. */
  datatype Result<+R, +E> = Success(value: R) | Failure(error: E)
}
