/** Shared value types: optional values, results and bytes. */
module Common {

  datatype Option<+T> = None | Some(value: T)

  /** The outcome of an operation that the source ends either by returning a value or by raising. */
  datatype Result<+T, +E> = Ok(value: T) | Err(error: E)

  /** An octet, as produced by `str.encode()` and consumed by `base64.b64encode`. */
  type byte = x: int | 0 <= x < 256
}
