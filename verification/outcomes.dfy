/** Failure-carrying values shared by both ends of the bridge protocol. */
module Outcomes {

  /** A value that may be absent (a Go `ok` flag, a C `-1` index, a failed scan). */
  datatype Option<+T> = None | Some(value: T)

  /** A Go `(value, error)` pair: either a value or the text of the error. */
  datatype Result<+T> = Ok(value: T) | Err(message: string)
}
