/** The byte type shared by file contents, digests and their hex
    rendering. */
module Bytes {
  type byte = b: int | 0 <= b < 256
}
