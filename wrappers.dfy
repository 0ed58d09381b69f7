/** Failure-carrying values shared by every module of the model. */
module Wrappers {

  /** A value that may be absent: Python's `None` or a present value. */
  datatype Option<+T> = None | Some(value: T)

  /** The outcome of an operation that the source ends by raising an exception. */
  datatype Result<+T, +E> = Ok(value: T) | Err(error: E)

  /** Raw bytes as the source handles them (`bytes`, `bytearray`). */
  type byte = b: int | 0 <= b < 0x100
  type Bytes = seq<byte>
}
