/** Small failure-carrying datatypes shared by every module of the model. */
module Prelude {

  /** A value that may be missing: an absent route or query parameter, a search without a hit. */
  datatype Option<+T> = None | Some(value: T)

  /** The outcome of an operation that can be refused with an error value. */
  datatype Result<+R, +E> = Ok(value: R) | Err(error: E)
}
