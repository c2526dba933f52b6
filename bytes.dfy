/** Basic value types shared by the Huffman model. */
module Bytes {
  /** An `unsigned char`: one symbol of the input text and one byte of a packed frame. */
  type byte = x: int | 0 <= x < 256

  /** A `uint32_t`, the width of the bit count the reader takes from the frame header. */
  type uint32 = x: int | 0 <= x < 0x1_0000_0000

  /** A possibly-null pointer result (`nullptr` is `None`). */
  datatype Option<T> = None | Some(value: T)

  function Min(a: int, b: int): int { if a <= b then a else b }

  /** The two characters a textual bit stream is made of. */
  predicate IsBit(c: char) { c == '0' || c == '1' }

  predicate IsBitString(s: string) { forall i :: 0 <= i < |s| ==> IsBit(s[i]) }
}
