/** Failure-carrying results shared by the model: the source signals absence with
    `None` and failures with exceptions or `False` returns. */
module Wrappers {

  datatype Option<+T> = None | Some(value: T)

  /** An exception the source raises (or reports) instead of returning a value. */
  datatype Result<+T> = Ok(value: T) | Err(reason: string)
}
