/** Failure-carrying wrappers shared by the other modules. */
module Wrappers {

  /** An optional value: `None` stands for an absent entry or an aborted call. */
  datatype Option<+T> = None | Some(value: T)

  /** The outcome of a call that can fail with an error of type `E`. */
  datatype Result<+T, +E> = Success(value: T) | Failure(error: E)
}
