/** Option, Result and Outcome: the value and error shapes the operations return. */
module Wrappers {

  datatype Option<+T> = None | Some(value: T)

  /** A success value or the error that the source throws instead. */
  datatype Result<+R, +E> = Ok(value: R) | Err(error: E)

  /** The outcome of an operation that returns nothing on success. */
  datatype Outcome<+E> = Pass | Fail(error: E)
}
