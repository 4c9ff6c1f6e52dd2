/** 8-bit text: the byte type, the ASCII characters the canonicalizers name, and the
    hexadecimal digit tables that escapes and IP literals share. */
module Bytes {

  type byte = b: int | 0 <= b < 0x100

  const PERCENT: byte := 0x25
  const DOT: byte := 0x2E
  const SLASH: byte := 0x2F
  const COLON: byte := 0x3A
  const OPEN_BRACKET: byte := 0x5B
  const BACKSLASH: byte := 0x5C
  const CLOSE_BRACKET: byte := 0x5D

  // The escaped form of a percent sign is "%25".
  const TWO: byte := 0x32
  const FIVE: byte := 0x35

  predicate IsDecChar(c: byte) {
    0x30 <= c <= 0x39
  }

  predicate IsOctChar(c: byte) {
    0x30 <= c <= 0x37
  }

  predicate IsHexChar(c: byte) {
    IsDecChar(c) || 0x41 <= c <= 0x46 || 0x61 <= c <= 0x66
  }

  // Digits, hexadecimal letters, '.', 'x' and 'X'.
  predicate IsIPv4Char(c: byte) {
    IsHexChar(c) || c == DOT || c == 0x58 || c == 0x78
  }

  // A slash as the parser reads one: '/' or '\'.
  predicate IsURLSlash(c: byte) {
    c == SLASH || c == BACKSLASH
  }

  // The amount to subtract depends only on the block of 0x20 characters the digit is in.
  function HexCharToValue(c: byte): (v: byte)
    requires IsHexChar(c)
    ensures v < 16
  {
    c - (if c / 0x20 == 1 then 0x30 else if c / 0x20 == 2 then 0x41 - 10 else 0x61 - 10)
  }

  // The digit for a value below 16; escapes use upper case, IP literals lower case.
  function HexDigit(v: nat, upper: bool): (c: byte)
    requires v < 16
    ensures IsHexChar(c) && HexCharToValue(c) == v
  {
    if v < 10 then 0x30 + v else if upper then 0x41 + v - 10 else 0x61 + v - 10
  }

  // ---------- sequences ----------

  lemma Assoc<T>(a: seq<T>, b: seq<T>, c: seq<T>)
    ensures (a + b) + c == a + (b + c)
  {
  }

  lemma Around<T>(s: seq<T>, n: nat)
    requires n < |s|
    ensures s == s[..n] + [s[n]] + s[n + 1..]
  {
  }

  lemma Parts<T>(a: seq<T>, b: seq<T>)
    ensures (a + b)[..|a|] == a && (a + b)[|a|..] == b
  {
  }
}
