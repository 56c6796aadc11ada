/** Shared vocabulary: the byte strings the codec reads and writes. */
module Bytes {
  /** A Python `bytes`/`bytearray` element: an unsigned 8-bit value. */
  type byte = bv8

  /** Either a value or the point at which the script would raise. */
  datatype Result<T, E> = Ok(value: T) | Err(error: E)
}
