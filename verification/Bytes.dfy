/** Bytes as the C code handles them: numbers below 256, and strings without their terminator. */
module Bytes {

  type byte = x: int | 0 <= x < 256

  type bytes = seq<byte>

  lemma {:induction false} Assoc(a: bytes, b: bytes, c: bytes)
    ensures a + (b + c) == a + b + c
  {
  }
}
