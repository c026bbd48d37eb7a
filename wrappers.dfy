/** Option and Result wrappers shared by the modules of the recommender model. */
module Wrappers {

  /** A value that may be absent. In score positions `None` stands for a
      floating-point NaN ("score undefined for this pair"). */
  datatype Option<+T> = None | Some(value: T)

  /** The outcome of an operation that may raise: `Failure` carries the
      exception the Python code would raise. */
  datatype Result<+R, +E> = Success(value: R) | Failure(error: E)
}
