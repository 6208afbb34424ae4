/** Failure-compatible result types shared by the modules of the model. */
module Wrappers {

  datatype Option<+T> = None | Some(value: T)

  /** The outcome of an operation that may abort with a message. */
  datatype Result<+T> = Ok(value: T) | Err(message: string)
}
