/** Option, result and outcome types shared by every module of the model. */
module Common {

  /** An optional value, for lookups that may find nothing (a Go nil). */
  datatype Option<T> = None | Some(value: T)

  /** A value or an error: the model of a Go `(T, error)` return pair. */
  datatype Result<T, E> = Ok(value: T) | Err(error: E)

  /** Success or an error: the model of a Go function that returns only `error`. */
  datatype Outcome<E> = Pass | Fail(error: E)

  /** An octet, the element of a Go `[]byte`. */
  type Byte = b: int | 0 <= b < 256
}
