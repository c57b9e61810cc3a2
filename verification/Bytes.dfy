/** Bytes, C strings and the <ctype.h> classes of the C locale. */
module Bytes {

  type byte = x: int | 0 <= x < 256

  const NUL: byte := 0
  const TAB: byte := 9
  const LF: byte := 10
  const CR: byte := 13
  const SPACE: byte := 32
  const DQUOTE: byte := 34
  const PERCENT: byte := 37
  const SQUOTE: byte := 39
  const MINUS: byte := 45
  const SLASH: byte := 47
  const BACKSLASH: byte := 92

  predicate IsSpace(c: byte) {
    c == SPACE || 9 <= c <= 13
  }

  /** Bytes from 128 on are not printable in the C locale. */
  predicate IsPrint(c: byte) {
    32 <= c <= 126
  }

  predicate IsDigit(c: byte) {
    48 <= c <= 57
  }

  predicate IsAlnum(c: byte) {
    IsDigit(c) || 65 <= c <= 90 || 97 <= c <= 122
  }

  predicate IsHexDigit(c: byte) {
    IsDigit(c) || 97 <= c <= 102 || 65 <= c <= 70
  }

  /** The digits in the order of their values, from `0` to `9` and from `a` to `f`. */
  const HexDigits: seq<byte> := [48, 49, 50, 51, 52, 53, 54, 55, 56, 57, 97, 98, 99, 100, 101, 102]

  /** The value of a hexadecimal digit of either case, 0 for any other byte. */
  function HexValue(c: byte): (v: int)
    ensures 0 <= v < 16
    ensures if IsHexDigit(c) then HexDigits[v] == ToLower(c) else v == 0
  {
    if IsDigit(c) then c - 48
    else if 97 <= c <= 102 then c - 87
    else if 65 <= c <= 70 then c - 55
    else 0
  }

  /** The digit that `%x` prints for a nibble. */
  function LowerHex(n: int): (c: byte)
    requires 0 <= n < 16
    ensures IsHexDigit(c) && HexValue(c) == n && c == HexDigits[n]
  {
    if n < 10 then 48 + n else 87 + n
  }

  /** What `%02x` prints for a byte. */
  function Hex2(b: byte): (h: seq<byte>)
    ensures |h| == 2 && IsHexDigit(h[0]) && IsHexDigit(h[1])
    ensures HexValue(h[0]) * 16 + HexValue(h[1]) == b
    ensures h == [HexDigits[b / 16], HexDigits[b % 16]]
  {
    [LowerHex(b / 16), LowerHex(b % 16)]
  }

  /** The classes as lists of their members. */
  lemma Classes(c: byte)
    ensures IsSpace(c) <==> c in [9, 10, 11, 12, 13, 32]
    ensures IsHexDigit(c) <==> c in HexDigits || c in [65, 66, 67, 68, 69, 70]
    ensures IsAlnum(c) <==> IsDigit(c) || 97 <= ToLower(c) <= 122
  {
    if IsHexDigit(c) && !(65 <= c <= 70) {
      assert HexDigits[HexValue(c)] == c;
    }
  }

  function ToLower(c: byte): byte {
    if 65 <= c <= 90 then c + 32 else c
  }

  /** Reading a C string: beyond its last byte stands the terminator. */
  function At(s: seq<byte>, p: nat): byte {
    if p < |s| then s[p] else NUL
  }

  predicate NulFree(s: seq<byte>) {
    NUL !in s
  }
}
