/** Failure-carrying datatypes shared by the recommender modules. */
module Wrappers {

  /** A value that may be missing, like a dictionary key that is absent. */
  datatype Option<+T> = None | Some(value: T)

  /** The outcome of an operation that may raise. */
  datatype Result<+R, +E> = Success(value: R) | Failure(error: E)
}
