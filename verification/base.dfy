/** Shared building blocks: bytes and the Option/Result wrappers used for the
    Rust `Option<_>` and `Result<_, _>` values of the cached client. */
module Base {

  /** One byte of a serialized payload or envelope. */
  newtype byte = x: int | 0 <= x < 256

  type Bytes = seq<byte>

  datatype Option<+T> = None | Some(value: T)

  datatype Result<+T, +E> = Ok(value: T) | Err(error: E)
}
