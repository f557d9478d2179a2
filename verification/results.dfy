/** Optional values and the one failure the entry stage can report. */
module Results {

  /** A value that may be absent: a dropped line, a malformed record. */
  datatype Option<+T> = None | Some(value: T)

  /** The pipeline's fatal outcome once extraction has succeeded. */
  datatype Failure = NoValidVideos

  /** Either the computed value or the failure that stops the run. */
  datatype Result<+T> = Ok(value: T) | Err(failure: Failure)
}
