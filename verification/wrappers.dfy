/** Failure-carrying values: a lookup that may find nothing, a computation that may fail. */
module Wrappers {

  /** The value of a search over a list of records that may come back empty (a NULL pointer). */
  datatype Option<+T> = None | Some(value: T)

  /** The value of a pass that may stop with an error. */
  datatype Result<+T, +E> = Ok(value: T) | Err(error: E)
}
