/** The Base64 tables and groups, measured against the printed alphabets and whole numbers. */
module Base64Text {
  import opened Base64

  // The alphabets of sections 4 and 5 of RFC 4648, value by value.
  lemma CapitalLetters(a: Alphabet)
    ensures "ABCDEFGHIJKLMNOPQRSTUVWXYZ" == [
      Char(a, 0) as char, Char(a, 1) as char, Char(a, 2) as char, Char(a, 3) as char, Char(a, 4) as char, Char(a, 5) as char,
      Char(a, 6) as char, Char(a, 7) as char, Char(a, 8) as char, Char(a, 9) as char, Char(a, 10) as char, Char(a, 11) as char,
      Char(a, 12) as char, Char(a, 13) as char, Char(a, 14) as char, Char(a, 15) as char, Char(a, 16) as char, Char(a, 17) as char,
      Char(a, 18) as char, Char(a, 19) as char, Char(a, 20) as char, Char(a, 21) as char, Char(a, 22) as char, Char(a, 23) as char,
      Char(a, 24) as char, Char(a, 25) as char
    ]
  {
  }

  lemma SmallLetters(a: Alphabet)
    ensures "abcdefghijklmnopqrstuvwxyz" == [
      Char(a, 26) as char, Char(a, 27) as char, Char(a, 28) as char, Char(a, 29) as char, Char(a, 30) as char, Char(a, 31) as char,
      Char(a, 32) as char, Char(a, 33) as char, Char(a, 34) as char, Char(a, 35) as char, Char(a, 36) as char, Char(a, 37) as char,
      Char(a, 38) as char, Char(a, 39) as char, Char(a, 40) as char, Char(a, 41) as char, Char(a, 42) as char, Char(a, 43) as char,
      Char(a, 44) as char, Char(a, 45) as char, Char(a, 46) as char, Char(a, 47) as char, Char(a, 48) as char, Char(a, 49) as char,
      Char(a, 50) as char, Char(a, 51) as char
    ]
  {
  }

  lemma DecimalDigits(a: Alphabet)
    ensures "0123456789" == [
      Char(a, 52) as char, Char(a, 53) as char, Char(a, 54) as char, Char(a, 55) as char, Char(a, 56) as char, Char(a, 57) as char,
      Char(a, 58) as char, Char(a, 59) as char, Char(a, 60) as char, Char(a, 61) as char
    ]
  {
  }

  lemma LastTwo(a: Alphabet)
    ensures (if a == Standard then "+/" else "-_") == [Char(a, 62) as char, Char(a, 63) as char]
  {
  }

  // The decoding table is the inverse of the encoding table, and 64 marks every other character.
  lemma {:induction false} ReverseIff(a: Alphabet, c: bv8)
    ensures forall v: bv8 :: v < 64 ==> (Reverse(a, c) == v <==> Char(a, v) == c)
    ensures Reverse(a, c) == INVALID <==> forall v: bv8 :: v < 64 ==> Char(a, v) != c
  {
    ReverseChar(a, c);
    forall v: bv8 | v < 64 ensures Reverse(a, c) == v <==> Char(a, v) == c {
      CharReverse(a, v);
    }
  }

  // Three bytes and their four values are the same twenty-four bits, most significant first.
  lemma SameBits(x: bv8, y: bv8, z: bv8)
    ensures var g := Sextets(x, y, z);
      ((x as bv24) << 16) | ((y as bv24) << 8) | (z as bv24) ==
      ((g.0 as bv24) << 18) | ((g.1 as bv24) << 12) | ((g.2 as bv24) << 6) | (g.3 as bv24)
  {
  }
}
