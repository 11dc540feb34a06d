/** Failure-carrying return types used in place of the source's `assert` aborts
    and `undefined` values. */
module Results {

  /** A value that may be absent (the source's `T | undefined`). */
  datatype Option<+T> = None | Some(value: T)

  /** Either a value or a reported failure. */
  datatype Result<+T, +E> = Ok(value: T) | Err(error: E)
}
