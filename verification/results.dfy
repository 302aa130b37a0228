/** Failure-carrying values shared by every stage of the downloader model.
    Go returns `(value, error)` pairs; the model returns one of these instead. */
module Results {

  /** A value that may be absent (Go's nil pointer or a missing map entry). */
  datatype Option<+T> = None | Some(value: T)

  /** Either a computed value or the error that stopped the computation. */
  datatype Result<+T, +E> = Ok(value: T) | Err(error: E)
}
