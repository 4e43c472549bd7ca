/** Go strings indexed byte by byte. */
module Bytes {
  /** One byte of a Go string. */
  type Byte = b: int | 0 <= b < 256

  /** The ASCII space, the only word separator of the word extractor. */
  const Space: Byte := 32
}
