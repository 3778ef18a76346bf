/** Error reporting shared by the whole engine: the runtime exceptions the
    engine throws become explicit error values. */
module Results {

  /** The two kinds of failure the engine raises. */
  datatype Error = InvalidArgument | DivisionByZero

  /** The outcome of an operation that yields a value or throws. */
  datatype Result<T> = Ok(value: T) | Err(error: Error)

  /** The outcome of an operation that returns nothing or throws. */
  datatype Status = Done | Failed(error: Error)

  datatype Option<T> = None | Some(value: T)
}
