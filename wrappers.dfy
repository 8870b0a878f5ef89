/** Option, Result and Outcome, shared by the model: a value that may be absent (a Java null or an empty
    Optional) and a computation that may end in an exception. */
module Wrappers {

  datatype Option<+T> = None | Some(value: T)

  datatype Result<+R, +E> = Success(value: R) | Failure(error: E)

  /** The outcome of a statement that returns nothing but may fail. */
  datatype Outcome<+E> = Pass | Fail(error: E)
}
