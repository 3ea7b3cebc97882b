/**
 * The exceptions the containers throw, modelled as the error half of a result,
 * and an optional value for lookups that may find nothing.
 */
module Results {
  /** Ok carries the value an operation returns; Err the exception it throws. */
  datatype Result<T, E> = Ok(value: T) | Err(error: E)

  datatype Option<T> = None | Some(value: T)
}
