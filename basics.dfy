/** Small shared vocabulary: bytes and the Option / Result wrappers. */
module Basics {

  /** A Python `bytes` element. */
  type Byte = b: int | 0 <= b < 0x100

  datatype Option<+T> = None | Some(value: T)

  /** The outcome of a library call that either returns a value or raises. */
  datatype Result<+T, +E> = Ok(value: T) | Err(error: E)
}
