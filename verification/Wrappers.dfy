/** The result shapes the other modules share. */
module Wrappers {

  datatype Option<+T> = None | Some(value: T)

  /** A value or a failure whose text is not modelled. */
  datatype Result<+T> = Ok(value: T) | Err
}
