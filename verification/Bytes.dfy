/** Bytes, and the smaller of two lengths. */
module Bytes {
  type Byte = x: int | 0 <= x < 256

  function Min(a: nat, b: nat): nat {
    if a <= b then a else b
  }
}
