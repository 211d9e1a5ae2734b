/** Optional values and the engine's one failure kind. */
module Results {

  /** A value that may be absent (a Java reference that may be null). */
  datatype Option<+T> = None | Some(value: T)

  /** Either a value or a ResourceNotFoundException carrying its message. */
  datatype Result<+T> = Ok(value: T) | NotFound(message: string)
}
