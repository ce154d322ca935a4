/** Optional values and error results shared by the feature extractor and the
    neighbour index. */
module Results {

  /** A value that may be undefined, like Python's `None`. */
  datatype Option<T> = None | Some(value: T)

  /** The failures the modelled code raises as exceptions. */
  datatype Error =
    | LengthMismatch       // "The two points must have the same length"
    | UndefinedComponent   // a `None` coordinate reached arithmetic (Python TypeError)
    | IndexOutOfRange      // the last entry of an empty list was read (Python IndexError)

  datatype Result<T> = Ok(value: T) | Err(error: Error)
}
