// Octets, shared by every module that handles raw data.

module Bytes {

  /** An octet: the values of C++'s unsigned char. */
  newtype byte = x: int | 0 <= x < 0x100
}
