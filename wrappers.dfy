/** Small wrapper datatypes shared by the other modules. */
module Wrappers {

  datatype Option<T> = None | Some(value: T)

  /** How a Python call ends: it returns a value, or an exception escapes it
      (the exception's message is kept only for the log). */
  datatype Result<T> = Ok(value: T) | Raised(message: string)
}
