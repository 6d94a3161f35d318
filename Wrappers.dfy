/** Small failure-carrying datatypes shared by the model. */
module Wrappers {

  datatype Option<+T> = None | Some(value: T)

  /** A computation that either produced a value or raised an error. */
  datatype Result<+T, +E> = Ok(value: T) | Err(error: E)

  /** A computation that produces no value and either succeeded or raised an error. */
  datatype Outcome<+E> = Pass | Fail(error: E)
}
