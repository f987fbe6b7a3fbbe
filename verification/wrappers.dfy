/** Small failure-carrying datatypes shared by the codecs and the hash entity. */
module Wrappers {

  datatype Option<+T> = None | Some(value: T)

  datatype Result<+R, +E> = Success(value: R) | Failure(error: E)

  /** An unsigned 8-bit value, the element type of every buffer in the model. */
  newtype byte = b: int | 0 <= b < 256
}
