/** Optional values and fallible results shared by the modules of the model. */
module Results {

  /** An optional value: `None` is an absent command-line criterion. */
  datatype Option<+T> = None | Some(value: T)

  /** The outcome of an operation that can fail with an error of type `E`. */
  datatype Result<+T, +E> = Ok(value: T) | Err(error: E)
}
