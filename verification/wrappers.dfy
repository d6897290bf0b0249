/** Failure-carrying result types shared by every module of the model.
    Java's checked and unchecked exceptions become the `Failure` side of a `Result`. */
module Wrappers {

  /** A value that may be absent. */
  datatype Option<+T> = None | Some(value: T)

  /** Either a value or the error that stopped its computation. */
  datatype Result<+R, +E> = Success(value: R) | Failure(error: E)
}
