/** Failure-carrying values: a Java method that returns or throws becomes a function or
    method returning one of these. */
module Results {

  /** A value that may be missing (a failed parse, a null reference). */
  datatype Option<+T> = None | Some(value: T)

  /** Either the normal result of an operation or the exception it raised. */
  datatype Result<+T, +E> = Ok(value: T) | Err(error: E)
}
