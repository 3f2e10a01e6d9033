/** Failure-carrying return values, used where a C routine signals an error
    through its return value or leaves the error case undefined. */
module Results {

  /** A value that may be absent (a "not found" search, the maximum of an empty array). */
  datatype Option<+T> = None | Some(value: T)

  /** A value or the reason there is none. */
  datatype Result<+T, +E> = Ok(value: T) | Err(error: E)
}
