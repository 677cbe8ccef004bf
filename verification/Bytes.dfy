/** Bytes, as C stores characters. */
module Bytes {
  type Byte = x: int | 0 <= x < 256

  const NUL: Byte := 0
  const TAB: Byte := 9
  const NEWLINE: Byte := 10
  const CARRIAGE_RETURN: Byte := 13
  const SPACE: Byte := 32
  const QUOTE: Byte := 34
  const APOSTROPHE: Byte := 39
  const DIGIT_0: Byte := 48
  const DIGIT_7: Byte := 55
  const BACKSLASH: Byte := 92
  const LETTER_N: Byte := 110
  const LETTER_R: Byte := 114
  const LETTER_T: Byte := 116
  const DELETE: Byte := 127

  ghost predicate NulFree(s: seq<Byte>) {
    forall i :: 0 <= i < |s| ==> s[i] != NUL
  }

  /** The array holds the string s, and its terminator. */
  ghost predicate HoldsString(z: array<Byte>, s: seq<Byte>)
    reads z
  {
    |s| < z.Length && z[..|s|] == s && z[|s|] == NUL && NulFree(s)
  }
}
