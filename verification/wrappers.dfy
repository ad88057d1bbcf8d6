/** Failure-carrying values shared by the modules of this model. */
module Wrappers {

  datatype Option<+T> = None | Some(value: T)

  datatype Result<+R, +E> = Success(value: R) | Failure(error: E)

  /** An unsigned 8-bit value, the element type of a `Uint8Array`. */
  type Byte = b: int | 0 <= b < 256
}
