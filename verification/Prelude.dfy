/** Result types shared by the modules. */
module Prelude {
  datatype Option<+T> = None | Some(value: T)

  datatype Result<+T, +E> = Ok(value: T) | Err(error: E)

  /** What a call does when the original can also abort with a panic. */
  datatype Outcome<+T> = Returned(value: T) | Panicked
}
