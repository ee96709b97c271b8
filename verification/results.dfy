/** Outcome datatypes shared by the builders and the orchestrator. */
module Results {

  /** A value that may be absent. */
  datatype Option<+T> = None | Some(value: T)

  /** Either a computed value or the error a driver call reports through `drush_set_error`. */
  datatype Result<+T, +E> = Success(value: T) | Failure(error: E)
}
