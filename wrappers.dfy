/** Option and Result values for the engine's "found / not found" and
    "accepted / rejected" outcomes. */
module Wrappers {
  datatype Option<+T> = None | Some(value: T)

  datatype Result<+T, +E> = Ok(value: T) | Err(error: E)
}
