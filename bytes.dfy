/** Octets, as the firmware's `uint8_t` and the browser's `Uint8Array` hold them. */
module Bytes {
  type byte = x: int | 0 <= x < 256
}
