/** Failure-carrying wrappers used by every stage of the packer. */
module Results {

  /** A value that may be absent, e.g. the value of a character that is not a hex digit. */
  datatype Option<+T> = None | Some(value: T)

  /** Either the value a stage computed or the error that stopped it. */
  datatype Result<+T, +E> = Success(value: T) | Failure(error: E)
}
