/** Types shared by several components. */
module Basics {
  type Byte = b: int | 0 <= b < 256

  datatype Option<T> = None | Some(value: T)

  /** A call that returns a value or raises ValueError. */
  datatype Outcome<T> = Ok(value: T) | ValueError
}
