/** Failure-carrying values: the nil strategy and the dictionary-load error of the library. */
module Wrappers {

  datatype Option<+T> = None | Some(value: T)

  datatype Result<+R, +E> = Success(value: R) | Failure(error: E)
}
