/** Option and Result, used for Go's nil pointers and error returns. */
module Wrappers {

  datatype Option<+T> = None | Some(value: T)

  /** A Go `error` return: only success versus failure is modelled, not the message. */
  datatype Result<+T> = Ok(value: T) | Err
}
