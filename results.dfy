/** Result wrappers for the exceptions the core throws. Only the kind of an
    exception is modelled, never its message text. */
module Results {

  /** std::invalid_argument and std::out_of_range. */
  datatype ErrorKind = InvalidArgument | OutOfRange

  datatype Option<T> = None | Some(value: T)

  /** The value an operation returns, or the exception it throws. */
  datatype Result<T> = Ok(value: T) | Err(error: ErrorKind)

  /** Outcome of an operation that returns void: it completes or throws. */
  datatype Outcome = Pass | Fail(error: ErrorKind)
}
