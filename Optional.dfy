/** Missing values and raised errors, as the scripts meet them. */
module Optional {

  /** A table cell that may be missing (pandas NaN / None). */
  datatype Option<+T> = None | Some(value: T)

  /** The value of an operation that may raise an exception. */
  datatype Result<+T> = Ok(value: T) | Err(error: string)
}
