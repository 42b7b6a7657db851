/** An optional value, shared by every module: Python's `None` or a value,
    JavaScript's falsy absence or a value. A result: a value, or the
    message of the error a JavaScript function throws. */
module Wrappers {
  datatype Option<T> = None | Some(value: T)

  datatype Result<T> = Ok(value: T) | Throws(message: string)
}
