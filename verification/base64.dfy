/**
 The Base64 and Base64Url codecs.  Bytes and characters are 8-bit vectors, as in the source,
 where they are shifted, masked and joined bit by bit.
 */
module Base64 {
  import opened Bytes
  import opened Options

  datatype Alphabet = Standard | Url

  const PAD: bv8 := 61
  const INVALID: bv8 := 64
  const UINT64_MAX := 0xFFFF_FFFF_FFFF_FFFF

  // ---------- the tables ----------

  function Char(a: Alphabet, v: bv8): bv8
    requires v < 64
  {
    if v < 26 then v + 65
    else if v < 52 then v + 71
    else if v < 62 then v - 4
    else if v == 62 then (if a == Standard then 43 else 45)
    else (if a == Standard then 47 else 95)
  }

  function Reverse(a: Alphabet, c: bv8): bv8 {
    if 65 <= c <= 90 then c - 65
    else if 97 <= c <= 122 then c - 71
    else if 48 <= c <= 57 then c + 4
    else if c == (if a == Standard then 43 else 45) then 62
    else if c == (if a == Standard then 47 else 95) then 63
    else INVALID
  }

  lemma CharReverse(a: Alphabet, v: bv8)
    requires v < 64
    ensures Reverse(a, Char(a, v)) == v && Char(a, v) != PAD
  {
  }

  lemma ReverseChar(a: Alphabet, c: bv8)
    ensures Reverse(a, c) != INVALID ==> Reverse(a, c) < 64 && Char(a, Reverse(a, c)) == c
  {
  }

  // ---------- whole groups: sections 3.5, 4 and 5 of RFC 4648 ----------

  function Pads(pad: bool, k: nat): seq<bv8> {
    if pad then seq(k, _ => PAD) else []
  }

  // The four 6-bit values of three bytes.
  function Sextets(x: bv8, y: bv8, z: bv8): (r: (bv8, bv8, bv8, bv8))
    ensures r.0 < 64 && r.1 < 64 && r.2 < 64 && r.3 < 64
  {
    (x >> 2, ((x & 0x03) << 4) | (y >> 4), ((y & 0x0f) << 2) | (z >> 6), z & 0x3f)
  }

  // The three bytes of four 6-bit values.
  function Octets(u: bv8, v: bv8, w: bv8, t: bv8): (bv8, bv8, bv8) {
    ((u << 2) | (v >> 4), (v << 4) | (w >> 2), (w << 6) | t)
  }

  // One to three bytes; missing ones count as zero.
  function EncodedGroup(a: Alphabet, s: seq<bv8>): (t: seq<bv8>)
    requires 1 <= |s| <= 3
    ensures |t| == |s| + 1
  {
    var g := Sextets(s[0], if |s| > 1 then s[1] else 0, if |s| > 2 then s[2] else 0);
    [Char(a, g.0), Char(a, g.1), Char(a, g.2), Char(a, g.3)][..|s| + 1]
  }

  function Encoded(a: Alphabet, s: seq<bv8>, pad: bool): seq<bv8> {
    if s == [] then []
    else if |s| <= 3 then EncodedGroup(a, s) + Pads(pad, 3 - |s|)
    else EncodedGroup(a, s[..3]) + Encoded(a, s[3..], pad)
  }

  // Two to four characters.  The bits that belong to no byte have to be zero.
  function DecodedGroup(a: Alphabet, t: seq<bv8>): (r: Option<seq<bv8>>)
    requires 1 <= |t| <= 4
    ensures r.Some? ==> |r.value| == |t| - 1 && r.value != []
  {
    if |t| == 1 || exists i :: 0 <= i < |t| && Reverse(a, t[i]) == INVALID then None
    else
      var o := Octets(Reverse(a, t[0]), Reverse(a, t[1]),
                      if |t| > 2 then Reverse(a, t[2]) else 0, if |t| > 3 then Reverse(a, t[3]) else 0);
      if (|t| == 2 && o.1 != 0) || (|t| == 3 && o.2 != 0) then None else Some([o.0, o.1, o.2][..|t| - 1])
  }

  function Prepend(p: seq<bv8>, r: Option<seq<bv8>>): Option<seq<bv8>> {
    if r.Some? then Some(p + r.value) else None
  }

  // Text without padding.
  function Decoded(a: Alphabet, t: seq<bv8>): Option<seq<bv8>> {
    if t == [] then Some([])
    else if |t| <= 4 then DecodedGroup(a, t)
    else
      var group := DecodedGroup(a, t[..4]);
      if group.Some? then Prepend(group.value, Decoded(a, t[4..])) else None
  }

  lemma OctetsOfSextets(x: bv8, y: bv8, z: bv8)
    ensures var g := Sextets(x, y, z); Octets(g.0, g.1, g.2, g.3) == (x, y, z)
  {
  }

  lemma SextetsOfOctets(u: bv8, v: bv8, w: bv8, t: bv8)
    requires u < 64 && v < 64 && w < 64 && t < 64
    ensures var o := Octets(u, v, w, t); Sextets(o.0, o.1, o.2) == (u, v, w, t)
  {
  }

  // ---------- decoding undoes encoding, and accepts nothing else ----------

  lemma CharReverses(a: Alphabet, x: bv8, y: bv8, z: bv8)
    ensures var g := Sextets(x, y, z);
      && Reverse(a, Char(a, g.0)) == g.0 && Reverse(a, Char(a, g.1)) == g.1
      && Reverse(a, Char(a, g.2)) == g.2 && Reverse(a, Char(a, g.3)) == g.3
  {
    hide Char, Reverse;
    var g := Sextets(x, y, z);
    CharReverse(a, g.0);
    CharReverse(a, g.1);
    CharReverse(a, g.2);
    CharReverse(a, g.3);
  }

  lemma GroupDecodes(a: Alphabet, s: seq<bv8>)
    requires 1 <= |s| <= 3
    ensures DecodedGroup(a, EncodedGroup(a, s)) == Some(s)
  {
    hide Char, Reverse, Octets, Sextets;
    var x, y, z := s[0], if |s| > 1 then s[1] else 0, if |s| > 2 then s[2] else 0;
    var g := Sextets(x, y, z);
    CharReverses(a, x, y, z);
    OctetsOfSextets(x, y, z);
    UnusedBits(x, y);
    var t := EncodedGroup(a, s);
    assert t[0] == Char(a, g.0) && t[1] == Char(a, g.1);
    assert |s| > 1 ==> t[2] == Char(a, g.2);
    assert |s| > 2 ==> t[3] == Char(a, g.3);
    assert s == [x, y, z][..|s|];
  }

  // Zero bytes behind the last one leave zero bits.
  lemma UnusedBits(x: bv8, y: bv8)
    ensures Sextets(x, y, 0).3 == 0
    ensures Sextets(x, 0, 0).2 == 0
  {
  }

  lemma GroupEncodes(a: Alphabet, t: seq<bv8>)
    requires 1 <= |t| <= 4 && DecodedGroup(a, t).Some?
    ensures EncodedGroup(a, DecodedGroup(a, t).value) == t
  {
    hide Char, Reverse, Octets, Sextets;
    var u, v := Reverse(a, t[0]), Reverse(a, t[1]);
    var w, x := if |t| > 2 then Reverse(a, t[2]) else 0, if |t| > 3 then Reverse(a, t[3]) else 0;
    ReverseChar(a, t[0]);
    ReverseChar(a, t[1]);
    if |t| > 2 { ReverseChar(a, t[2]); }
    if |t| > 3 { ReverseChar(a, t[3]); }
    SextetsOfOctets(u, v, w, x);
    LastOctet(u, v);
    var o, d := Octets(u, v, w, x), DecodedGroup(a, t).value;
    assert d == [o.0, o.1, o.2][..|t| - 1];
    assert Sextets(d[0], if |d| > 1 then d[1] else 0, if |d| > 2 then d[2] else 0) == (u, v, w, x);
    assert EncodedGroup(a, d) == [Char(a, u), Char(a, v), Char(a, w), Char(a, x)][..|t|];
  }

  lemma LastOctet(u: bv8, v: bv8)
    ensures Octets(u, v, 0, 0).2 == 0
  {
  }

  lemma {:induction false} DecodedEncoded(a: Alphabet, s: seq<bv8>)
    ensures Decoded(a, Encoded(a, s, false)) == Some(s)
    decreases |s|
  {
    hide EncodedGroup, DecodedGroup;
    if 1 <= |s| <= 3 {
      GroupDecodes(a, s);
      assert EncodedGroup(a, s) + [] == EncodedGroup(a, s);
    } else if |s| > 3 {
      GroupDecodes(a, s[..3]);
      DecodedEncoded(a, s[3..]);
      var g, e := EncodedGroup(a, s[..3]), Encoded(a, s[3..], false);
      EncodedNonempty(a, s[3..]);
      assert (g + e)[..4] == g && (g + e)[4..] == e;
      assert s == s[..3] + s[3..];
    }
  }

  lemma EncodedNonempty(a: Alphabet, s: seq<bv8>)
    requires s != []
    ensures Encoded(a, s, false) != []
  {
    hide EncodedGroup;
  }

  lemma {:induction false} EncodedDecoded(a: Alphabet, t: seq<bv8>)
    requires Decoded(a, t).Some?
    ensures Encoded(a, Decoded(a, t).value, false) == t
    ensures t != [] ==> Decoded(a, t).value != []
    decreases |t|
  {
    hide EncodedGroup, DecodedGroup;
    if 1 <= |t| <= 4 {
      GroupEncodes(a, t);
      assert EncodedGroup(a, Decoded(a, t).value) + [] == t;
    } else if |t| > 4 {
      GroupEncodes(a, t[..4]);
      EncodedDecoded(a, t[4..]);
      var g, d := DecodedGroup(a, t[..4]).value, Decoded(a, t[4..]).value;
      assert (g + d)[..3] == g && (g + d)[3..] == d;
      assert t == t[..4] + t[4..];
    }
  }

  // ---------- padding ----------

  // At most two padding characters go.
  function Unpadded(t: seq<bv8>): seq<bv8> {
    var n := |t|;
    if n == 0 || t[n - 1] != PAD then t
    else if n == 1 || t[n - 2] != PAD then t[..n - 1]
    else t[..n - 2]
  }

  lemma GroupLacksPad(a: Alphabet, s: seq<bv8>)
    requires 1 <= |s| <= 3
    ensures PAD !in EncodedGroup(a, s)
  {
    hide Char, Sextets;
    var g := Sextets(s[0], if |s| > 1 then s[1] else 0, if |s| > 2 then s[2] else 0);
    CharReverse(a, g.0);
    CharReverse(a, g.1);
    CharReverse(a, g.2);
    CharReverse(a, g.3);
  }

  lemma {:induction false} EncodedLacksPad(a: Alphabet, s: seq<bv8>)
    ensures PAD !in Encoded(a, s, false)
    decreases |s|
  {
    hide EncodedGroup;
    if 1 <= |s| <= 3 {
      GroupLacksPad(a, s);
    } else if |s| > 3 {
      GroupLacksPad(a, s[..3]);
      EncodedLacksPad(a, s[3..]);
    }
  }

  // Padding fills the last group up to four characters.
  lemma {:induction false} EncodedPadded(a: Alphabet, s: seq<bv8>)
    ensures Encoded(a, s, true) == Encoded(a, s, false) + Pads(true, (3 - |s| % 3) % 3)
    ensures |Encoded(a, s, true)| % 4 == 0
    decreases |s|
  {
    hide EncodedGroup;
    if 1 <= |s| <= 3 {
      assert EncodedGroup(a, s) + [] == EncodedGroup(a, s);
    } else if |s| > 3 {
      EncodedPadded(a, s[3..]);
      assert (3 - |s| % 3) % 3 == (3 - |s[3..]| % 3) % 3;
      Assoc(EncodedGroup(a, s[..3]), Encoded(a, s[3..], false), Pads(true, (3 - |s| % 3) % 3));
    }
  }

  lemma UnpaddedOf(e: seq<bv8>, k: nat)
    requires PAD !in e && k <= 2
    ensures Unpadded(e + Pads(true, k)) == e
  {
    var t := e + Pads(true, k);
    assert t[..|e|] == e;
    assert e != [] ==> e[|e| - 1] in e;
    assert k == 0 ==> t == e;
  }

  lemma PaddedBack(t: seq<bv8>)
    ensures |Unpadded(t)| <= |t| <= |Unpadded(t)| + 2
    ensures t == Unpadded(t) + Pads(true, |t| - |Unpadded(t)|)
  {
  }

  // Base64::decode accepts exactly the padded encodings.
  lemma {:induction false} PaddedExactly(a: Alphabet, t: seq<bv8>, d: seq<bv8>)
    ensures |t| % 4 == 0 && Decoded(a, Unpadded(t)) == Some(d) <==> t == Encoded(a, d, true)
  {
    hide Encoded, Decoded, Unpadded, Pads;
    EncodedPadded(a, d);
    EncodedLacksPad(a, d);
    var k := (3 - |d| % 3) % 3;
    UnpaddedOf(Encoded(a, d, false), k);
    DecodedEncoded(a, d);
    if |t| % 4 == 0 && Decoded(a, Unpadded(t)) == Some(d) {
      EncodedDecoded(a, Unpadded(t));
      PaddedBack(t);
      PadsLength(k);
      assert |t| - |Unpadded(t)| == k;
    }
  }

  lemma PadsLength(k: nat)
    ensures |Pads(true, k)| == k
  {
  }

  // Text that is e with at most two padding characters behind it.
  predicate PaddedFreely(e: seq<bv8>, t: seq<bv8>) {
    |e| <= |t| <= |e| + 2 && t == e + Pads(true, |t| - |e|)
  }

  // Base64::decodeWithoutPadding accepts exactly these.
  lemma {:induction false} FreelyPaddedExactly(a: Alphabet, t: seq<bv8>, d: seq<bv8>)
    ensures Decoded(a, Unpadded(t)) == Some(d) <==> PaddedFreely(Encoded(a, d, false), t)
  {
    hide Encoded, Decoded, Unpadded, Pads;
    EncodedLacksPad(a, d);
    DecodedEncoded(a, d);
    if PaddedFreely(Encoded(a, d, false), t) {
      UnpaddedOf(Encoded(a, d, false), |t| - |Encoded(a, d, false)|);
    }
    if Decoded(a, Unpadded(t)) == Some(d) {
      EncodedDecoded(a, Unpadded(t));
      PaddedBack(t);
    }
  }

  // Base64Url::decode accepts exactly the encodings without padding.
  lemma {:induction false} UnpaddedExactly(a: Alphabet, t: seq<bv8>, d: seq<bv8>)
    ensures Decoded(a, t) == Some(d) <==> t == Encoded(a, d, false)
  {
    hide Encoded, Decoded;
    DecodedEncoded(a, d);
    if Decoded(a, t) == Some(d) { EncodedDecoded(a, t); }
  }
}
