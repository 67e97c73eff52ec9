/** Go's two error idioms as values: a bare `error` that is nil or carries a
    message, and a `(T, error)` pair in which exactly one half is meaningful. */
module GoErrors {

  /** A Go `error`: `Nil` is the nil interface, `Error(m)` is `errors.New(m)`. */
  datatype GoError = Nil | Error(message: string)

  /** A Go `(value, error)` return: `Ok(v)` when the error is nil. */
  datatype Result<+T> = Ok(value: T) | Err(message: string)
}
