/** Failure-carrying values used in place of the harness's exceptions. */
module Results {

  /** A value that may be absent (a missing dictionary key, an undecodable line). */
  datatype Option<+T> = None | Some(value: T)

  /** A computation that returns a value or raises an error. */
  datatype Result<+T, +E> = Ok(value: T) | Err(error: E)

  /** A computation that returns nothing or raises an error. */
  datatype Outcome<+E> = Pass | Fail(error: E)
}
