/** Small shared vocabulary: an optional value and raw byte content. */
module Common {

  /** A value that may be absent (JavaScript's `null`/`undefined`). */
  datatype Option<+T> = None | Some(value: T)

  /** One byte of an uploaded or generated file. */
  newtype uint8 = x: int | 0 <= x < 256

  /** The content of a file: opaque to every part of this model. */
  type Bytes = seq<uint8>
}
