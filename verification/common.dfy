/** Failure-carrying wrappers shared by the catalog modules. */
module Wrappers {

  datatype Option<+T> = None | Some(value: T)

  /** The outcome of a lookup or a write that the store may refuse. */
  datatype Result<+R, +E> = Success(value: R) | Failure(error: E)
}
