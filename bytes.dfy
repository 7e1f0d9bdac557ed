/** Octets, as the `Uint8Array` elements the codec works on. */
module Bytes {

  type byte = x: int | 0 <= x < 256
}
