/** Small wrappers shared by every module of the model. */
module Basics {

  /** A value that may be missing (an undefined field, a lookup that found nothing). */
  datatype Option<T> = None | Some(value: T)

  /** The outcome of an operation that can fail with an error value. */
  datatype Result<T, E> = Ok(value: T) | Err(error: E)
}
