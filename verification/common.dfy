/** Failure-carrying values shared by the other modules. */
module Common {

  /** A value that may be absent. */
  datatype Option<T> = None | Some(value: T)

  /** The outcome of a step that may raise: either a value or the error it raised. */
  datatype Result<T, E> = Ok(value: T) | Err(error: E)
}
