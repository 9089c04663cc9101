/** Optional values, error values and results shared by the whole model. */
module Outcomes {

  /** A value that may be absent. */
  datatype Option<+T> = None | Some(value: T)

  /**
   * An error value as Go's `error` interface carries it. The model never
   * inspects errors; it only passes them on, so a message is all they hold.
   */
  datatype Error = Error(message: string)

  /** Either a value or the error that prevented producing it. */
  datatype Result<+T> = Ok(value: T) | Err(error: Error)
}
