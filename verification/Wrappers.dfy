/** Outcomes shared by the modules: an optional value, and a result that may carry an SQLSTATE. */
module Wrappers {
  datatype Option<+T> = None | Some(value: T)

  datatype Result<+T> = Ok(value: T) | Err(sqlstate: string)
}
