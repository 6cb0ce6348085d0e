/** The two result shapes of the crate: `Option` (as returned by the
    queries of `WriteTo`) and `Result` with the unit error of
    `core::fmt::Error`, which carries no information. */
module Wrappers {

  datatype Option<+T> = None | Some(value: T)

  /** `Result<T, fmt::Error>`; `fmt::Error` is a unit struct, so `Err` has no payload. */
  datatype Result<+T> = Ok(value: T) | Err
}
