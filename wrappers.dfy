/** `Option` and `Result`, shared by the other modules. */
module Wrappers {

  /** An optional value: Python's `None` or a present value. */
  datatype Option<+T> = None | Some(value: T)

  /** Either a value or the error the source would have raised. */
  datatype Result<+T, +E> = Ok(value: T) | Err(error: E)
}
