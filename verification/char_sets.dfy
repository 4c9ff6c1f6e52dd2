/** The characters that URL texts treat alike, listed by their codes.  The lists repeat no
    lookup table: they are what the canonicalizers' results are measured against. */
module CharSets {
  import opened Bytes

  predicate IsUpper(c: byte) {
    0x41 <= c <= 0x5A
  }

  predicate IsLower(c: byte) {
    0x61 <= c <= 0x7A
  }

  predicate IsAlphanumeric(c: byte) {
    IsUpper(c) || IsLower(c) || 0x30 <= c <= 0x39
  }

  // - _ ~ and the dot: with letters and digits, the unreserved characters of RFC 3986.
  predicate IsUnreserved(c: byte) {
    IsAlphanumeric(c) || c in {0x2D, 0x5F, 0x7E, 0x2E}
  }

  // Unreserved characters and ! $ & ' ( ) * + , : ; = @ [ ]
  predicate IsPathPlain(c: byte) {
    IsUnreserved(c)
    || c in {0x21, 0x24, 0x26, 0x27, 0x28, 0x29, 0x2A, 0x2B, 0x2C, 0x3A, 0x3B, 0x3D, 0x40, 0x5B, 0x5D}
  }

  // Control characters, % / ; ? \ ^ ~ and DEL.
  predicate IsHostForbidden(c: byte) {
    c < 0x20 || c in {0x25, 0x2F, 0x3B, 0x3F, 0x5C, 0x5E, 0x7E, 0x7F}
  }

  // Letters, digits and + - . : [ ] _
  predicate IsHostPlain(c: byte) {
    IsAlphanumeric(c) || c in {0x2B, 0x2D, 0x2E, 0x3A, 0x5B, 0x5D, 0x5F}
  }

  function ToLower(c: byte): byte {
    if IsUpper(c) then c + 0x20 else c
  }

  // '%' and the two upper-case hexadecimal digits of c.
  function PercentForm(c: byte): (s: seq<byte>)
    ensures |s| == 3
  {
    var high, low := c / 16, c % 16;
    [0x25, if high < 10 then 0x30 + high else 0x37 + high, if low < 10 then 0x30 + low else 0x37 + low]
  }

  // Texts that differ in nothing but the case of letters.
  predicate SameButCase(a: seq<byte>, b: seq<byte>) {
    |a| == |b| && forall i :: 0 <= i < |a| ==> ToLower(a[i]) == ToLower(b[i])
  }
}
