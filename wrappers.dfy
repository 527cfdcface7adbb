/** Failure-carrying values used where the scraper returns "nothing" or throws. */
module Wrappers {

  datatype Option<+T> = None | Some(value: T)

  /** The outcome of a JavaScript call that may throw: the value or what was thrown. */
  datatype Result<+T, +E> = Ok(value: T) | Err(error: E)
}
