/** Option and Result values, used where the source returns None or raises. */
module Wrappers {

  datatype Option<+T> = None | Some(value: T)

  /** The outcome of an operation that raises an exception with a message on failure. */
  datatype Result<+T> = Ok(value: T) | Err(error: string)
}
