/** Octets, as held by a Node.js Buffer. */
module Bytes {

  newtype byte = x: int | 0 <= x < 256
}
