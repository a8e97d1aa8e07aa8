/** Value types shared by every part of the model. */
module Common {

  /** A value that may be absent (Python's `None` or a falsy "not found" return). */
  datatype Option<+T> = None | Some(value: T)

  /** The outcome of an operation that either yields a value or fails with an error. */
  datatype Result<+T, +E> = Ok(value: T) | Err(error: E)

  /** One octet of a Python `bytes` object. */
  newtype Byte = b: int | 0 <= b < 256

  type Bytes = seq<Byte>
}
