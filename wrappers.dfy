/** Option and Result values used where the library returns `None` or raises an OS error. */
module Wrappers {

  datatype Option<+T> = None | Some(value: T)

  /** The OS errors the modelled functions can raise once their assertions hold. */
  datatype OsError = NotADirectory | FileNotFound

  datatype Result<+T> = Ok(value: T) | Err(error: OsError)
}
