/** Option and Result values standing for Java's null returns and thrown exceptions. */
module Wrappers {

  datatype Option<+T> = None | Some(value: T)

  datatype Result<+T, +E> = Ok(value: T) | Err(error: E)

  /** Pass/Fail for operations that return nothing but may throw. */
  datatype Outcome<+E> = Pass | Fail(error: E)
}
