/** The two failure-carrying wrappers the model uses. */
module Wrappers {

  /** An optional value: a dictionary lookup that may find nothing. */
  datatype Option<+T> = None | Some(value: T)

  /** A value or an error: a step of the conversion that may abort. */
  datatype Result<+R, +E> = Ok(value: R) | Err(error: E)
}
