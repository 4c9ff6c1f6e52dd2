/** Percent escapes: the decoder and the writer of url_canon_internal.h, and the meaning of
    an escaped text. */
module Escapes {
  import opened Bytes

  // Does an escape start at the front of s?  Only the room and the two digits are looked at;
  // that the first character is '%' is left to the caller, as in the source.
  predicate IsEscape(s: seq<byte>) {
    |s| >= 3 && IsHexChar(s[1]) && IsHexChar(s[2])
  }

  function EscapeValue(h1: byte, h2: byte): (v: byte)
    requires IsHexChar(h1) && IsHexChar(h2)
  {
    16 * HexCharToValue(h1) + HexCharToValue(h2)
  }

  // What AppendEscapedChar writes.
  function Escaped(c: byte): (s: seq<byte>)
    ensures |s| == 3 && s[0] == PERCENT && IsEscape(s) && EscapeValue(s[1], s[2]) == c
  {
    [PERCENT, HexDigit(c / 16, true), HexDigit(c % 16, true)]
  }

  // The bytes a text stands for: an escape is its value, every other character itself, and
  // a '%' that starts no escape is a literal.
  function PercentDecode(s: seq<byte>): seq<byte> {
    if s == [] then []
    else if s[0] == PERCENT && IsEscape(s) then [EscapeValue(s[1], s[2])] + PercentDecode(s[3..])
    else [s[0]] + PercentDecode(s[1..])
  }

  function EscapeAll(s: seq<byte>): seq<byte> {
    if s == [] then [] else Escaped(s[0]) + EscapeAll(s[1..])
  }

  lemma {:induction false} DecodeEscapeAll(s: seq<byte>)
    ensures PercentDecode(EscapeAll(s)) == s
  {
    if s != [] {
      assert EscapeAll(s)[3..] == EscapeAll(s[1..]);
      DecodeEscapeAll(s[1..]);
    }
  }
}
