/** Small failure-carrying datatypes shared by the modules of the quiz model. */
module Wrappers {

  /** A value that may be absent: JavaScript's `undefined` result of `Map.get`. */
  datatype Option<+T> = None | Some(value: T)

  /** The outcome of a validation step: the accepted value or the reason it was refused. */
  datatype Result<+T, +E> = Ok(value: T) | Err(error: E)
}
