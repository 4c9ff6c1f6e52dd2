/**
 The UTF-8 and UTF-16 appenders.  Shifts and masks are written as division and remainder,
 and joining disjoint bit fields as addition.
 */
module Utf {
  import opened Bytes
  import opened Options
  import opened Escapes

  type unit = u: int | 0 <= u < 0x10000

  const MAX_CODE_POINT := 0x10FFFF

  predicate IsScalar(v: int) {
    0 <= v <= MAX_CODE_POINT && !(0xD800 <= v <= 0xDFFF)
  }

  predicate AreScalars(vs: seq<int>) {
    forall i :: 0 <= i < |vs| ==> IsScalar(vs[i])
  }

  // ---------- the appenders ----------

  // The bytes that a code point is written as.
  function Utf8(v: nat): (s: seq<byte>)
    requires v <= MAX_CODE_POINT
    ensures 1 <= |s| <= 4
  {
    if v <= 0x7f then [v]
    else if v <= 0x7ff then [0xC0 + v / 0x40, 0x80 + v % 0x40]
    else if v <= 0xffff then [0xE0 + v / 0x1000, 0x80 + v / 0x40 % 0x40, 0x80 + v % 0x40]
    else [0xF0 + v / 0x40000, 0x80 + v / 0x1000 % 0x40, 0x80 + v / 0x40 % 0x40, 0x80 + v % 0x40]
  }

  function Written(s: seq<byte>, escaped: bool): seq<byte> {
    if escaped then EscapeAll(s) else s
  }

  lemma {:induction false} EscapeAllAppend(s: seq<byte>, t: seq<byte>)
    ensures EscapeAll(s + t) == EscapeAll(s) + EscapeAll(t)
  {
    if s == [] {
      assert s + t == t;
    } else {
      assert (s + t)[1..] == s[1..] + t;
      EscapeAllAppend(s[1..], t);
      Assoc(Escaped(s[0]), EscapeAll(s[1..]), EscapeAll(t));
    }
  }

  method AppendByte(c: byte, output: seq<byte>, escaped: bool, ghost before: seq<byte>, ghost so: seq<byte>)
    returns (out: seq<byte>)
    requires output == before + Written(so, escaped)
    ensures out == before + Written(so + [c], escaped)
  {
    if escaped {
      EscapeAllAppend(so, [c]);
      assert EscapeAll([c]) == Escaped(c);
      out := output + [PERCENT];
      out := out + [HexDigit(c / 16, true)];
      out := out + [HexDigit(c % 16, true)];
      Assoc(before, EscapeAll(so), Escaped(c));
    } else {
      out := output + [c];
    }
  }

  // AppendUTF8Value and, when escaped, AppendUTF8EscapedValue.
  method DoAppendUTF8(v: nat, output: seq<byte>, escaped: bool) returns (out: seq<byte>)
    requires v <= MAX_CODE_POINT
    ensures out == output + Written(Utf8(v), escaped)
  {
    hide Written;
    NothingWritten(escaped);
    assert output == output + [];
    if v <= 0x7f {
      out := AppendByte(v, output, escaped, output, []);
      assert [] + [v] == Utf8(v);
    } else if v <= 0x7ff {
      out := AppendByte(0xC0 + v / 0x40, output, escaped, output, []);
      out := AppendByte(0x80 + v % 0x40, out, escaped, output, [] + [0xC0 + v / 0x40]);
      assert [] + [0xC0 + v / 0x40] + [0x80 + v % 0x40] == Utf8(v);
    } else if v <= 0xffff {
      out := AppendByte(0xE0 + v / 0x1000, output, escaped, output, []);
      out := AppendByte(0x80 + v / 0x40 % 0x40, out, escaped, output, [] + [0xE0 + v / 0x1000]);
      out := AppendByte(0x80 + v % 0x40, out, escaped, output, [] + [0xE0 + v / 0x1000] + [0x80 + v / 0x40 % 0x40]);
      assert [] + [0xE0 + v / 0x1000] + [0x80 + v / 0x40 % 0x40] + [0x80 + v % 0x40] == Utf8(v);
    } else {
      ghost var so := [];
      out := AppendByte(0xF0 + v / 0x40000, output, escaped, output, so);
      so := so + [0xF0 + v / 0x40000];
      out := AppendByte(0x80 + v / 0x1000 % 0x40, out, escaped, output, so);
      so := so + [0x80 + v / 0x1000 % 0x40];
      out := AppendByte(0x80 + v / 0x40 % 0x40, out, escaped, output, so);
      so := so + [0x80 + v / 0x40 % 0x40];
      out := AppendByte(0x80 + v % 0x40, out, escaped, output, so);
      so := so + [0x80 + v % 0x40];
      assert so == Utf8(v);
    }
  }

  lemma NothingWritten(escaped: bool)
    ensures Written([], escaped) == []
  {
  }

  function Utf16(v: nat): (s: seq<unit>)
    requires v <= MAX_CODE_POINT
  {
    if v > 0xffff then [v / 0x400 + 0xD7C0, v % 0x400 + 0xDC00] else [v]
  }

  method AppendUTF16Value(v: nat, output: seq<unit>) returns (out: seq<unit>)
    requires v <= MAX_CODE_POINT
    ensures out == output + Utf16(v)
  {
    if v > 0xffff {
      out := output + [v / 0x400 + 0xD7C0];
      out := out + [v % 0x400 + 0xDC00];
    } else {
      out := output + [v];
    }
  }

  // ---------- the decoders: section 3 of RFC 3629 and section 2.2 of RFC 2781 ----------

  predicate IsTail(s: seq<byte>, i: nat) {
    i < |s| && 0x80 <= s[i] <= 0xBF
  }

  function Join(high: int, low: int): int {
    high * 0x40 + low
  }

  lemma Digits(v: nat)
    ensures v == Join(v / 0x40, v % 0x40)
    ensures v / 0x40 == Join(v / 0x1000, v / 0x40 % 0x40)
    ensures v / 0x1000 == Join(v / 0x40000, v / 0x1000 % 0x40)
  {
  }

  lemma JoinDigits(high: nat, low: nat)
    requires low < 0x40
    ensures var v: nat := Join(high, low); v % 0x40 == low && v / 0x40 == high
    ensures var v: nat := Join(high, low); v / 0x1000 == high / 0x40 && v / 0x40000 == high / 0x1000
  {
  }

  function Low(c: byte): int {
    c - 0x80
  }

  // The first character and the number of bytes it takes.  Only the shortest form of a
  // scalar value is one.
  function Head8(s: seq<byte>): (r: Option<(nat, nat)>)
    requires s != []
    ensures r.Some? ==> 1 <= r.value.1 <= |s|
  {
    var b: int := s[0];
    if b <= 0x7F then Some((b, 1))
    else if 0xC0 <= b <= 0xDF && IsTail(s, 1) then
      var v := Join(b - 0xC0, Low(s[1]));
      if v > 0x7F then Some((v, 2)) else None
    else if 0xE0 <= b <= 0xEF && IsTail(s, 1) && IsTail(s, 2) then
      var v := Join(Join(b - 0xE0, Low(s[1])), Low(s[2]));
      if v > 0x7FF && IsScalar(v) then Some((v, 3)) else None
    else if 0xF0 <= b <= 0xF7 && IsTail(s, 1) && IsTail(s, 2) && IsTail(s, 3) then
      var v := Join(Join(Join(b - 0xF0, Low(s[1])), Low(s[2])), Low(s[3]));
      if v > 0xFFFF && IsScalar(v) then Some((v, 4)) else None
    else None
  }

  function Decode8(s: seq<byte>): Option<seq<int>> {
    if s == [] then Some([])
    else
      var head := Head8(s);
      if head.None? then None
      else
        var rest := Decode8(s[head.value.1..]);
        if rest.None? then None else Some([head.value.0] + rest.value)
  }

  function Head16(s: seq<unit>): (r: Option<(nat, nat)>)
    requires s != []
    ensures r.Some? ==> 1 <= r.value.1 <= |s|
  {
    if IsScalar(s[0]) then Some((s[0], 1))
    else if s[0] <= 0xDBFF && |s| > 1 && 0xDC00 <= s[1] <= 0xDFFF then
      var high: int := s[0];
      var low: int := s[1];
      Some((0x10000 + (high - 0xD800) * 0x400 + (low - 0xDC00), 2))
    else None
  }

  function Decode16(s: seq<unit>): Option<seq<int>> {
    if s == [] then Some([])
    else
      var head := Head16(s);
      if head.None? then None
      else
        var rest := Decode16(s[head.value.1..]);
        if rest.None? then None else Some([head.value.0] + rest.value)
  }

  // ---------- what is written decodes back, and nothing else decodes ----------

  function All8(vs: seq<int>): seq<byte>
    requires AreScalars(vs)
  {
    if vs == [] then [] else Utf8(vs[0]) + All8(vs[1..])
  }

  function All16(vs: seq<int>): seq<unit>
    requires AreScalars(vs)
  {
    if vs == [] then [] else Utf16(vs[0]) + All16(vs[1..])
  }

  lemma {:induction false} Head8Of(v: nat, rest: seq<byte>)
    requires IsScalar(v)
    ensures Head8(Utf8(v) + rest) == Some((v, |Utf8(v)|))
  {
    hide Join;
    Digits(v);
    var s := Utf8(v) + rest;
    assert s[0] == Utf8(v)[0];
    if v > 0x7f { assert s[1] == Utf8(v)[1]; }
    if v > 0x7ff { assert s[2] == Utf8(v)[2]; }
    if v > 0xffff { assert s[3] == Utf8(v)[3]; }
  }

  lemma Utf8OfTwo(b: nat, c: nat)
    requires b < 0x20 && c < 0x40
    ensures var v := Join(b, c); v > 0x7f ==> v <= 0x7ff && Utf8(v) == [0xC0 + b, 0x80 + c]
  {
    JoinDigits(b, c);
  }

  lemma Utf8OfThree(b: nat, c: nat, d: nat)
    requires b < 0x10 && c < 0x40 && d < 0x40
    ensures var v := Join(Join(b, c), d); v > 0x7ff ==> v <= 0xffff && Utf8(v) == [0xE0 + b, 0x80 + c, 0x80 + d]
  {
    JoinDigits(b, c);
    JoinDigits(Join(b, c), d);
  }

  lemma Utf8OfFour(b: nat, c: nat, d: nat, e: nat)
    requires b < 8 && c < 0x40 && d < 0x40 && e < 0x40
    ensures var v := Join(Join(Join(b, c), d), e);
      0xffff < v <= MAX_CODE_POINT ==> Utf8(v) == [0xF0 + b, 0x80 + c, 0x80 + d, 0x80 + e]
  {
    JoinDigits(b, c);
    JoinDigits(Join(b, c), d);
    JoinDigits(Join(Join(b, c), d), e);
  }

  lemma {:induction false} Utf8OfHead(s: seq<byte>)
    requires s != []
    ensures Head8(s).Some? ==>
      var (v, n) := Head8(s).value;
      IsScalar(v) && Utf8(v) == s[..n]
  {
    hide Utf8, Join;
    var b: int := s[0];
    if Head8(s).None? {
    } else if b <= 0x7f {
      AsciiIsItself(b);
    } else if b <= 0xDF {
      Utf8OfTwo(b - 0xC0, Low(s[1]));
      NoSurrogates(Head8(s).value.0);
    } else if b <= 0xEF {
      Utf8OfThree(b - 0xE0, Low(s[1]), Low(s[2]));
    } else {
      Utf8OfFour(b - 0xF0, Low(s[1]), Low(s[2]), Low(s[3]));
    }
  }

  lemma AsciiIsItself(v: nat)
    requires v <= 0x7f
    ensures Utf8(v) == [v]
  {
  }

  lemma NoSurrogates(v: nat)
    requires v <= 0x7ff
    ensures IsScalar(v)
  {
  }

  lemma {:induction false} Decode8Of(vs: seq<int>)
    requires AreScalars(vs)
    ensures Decode8(All8(vs)) == Some(vs)
  {
    hide Head8, Utf8;
    if vs != [] {
      var rest := All8(vs[1..]);
      Head8Of(vs[0], rest);
      Parts(Utf8(vs[0]), rest);
      Decode8Of(vs[1..]);
      assert [vs[0]] + vs[1..] == vs;
    }
  }

  lemma {:induction false} All8OfDecode(s: seq<byte>)
    requires Decode8(s).Some?
    ensures AreScalars(Decode8(s).value) && All8(Decode8(s).value) == s
    decreases |s|
  {
    hide Head8, Utf8;
    if s != [] {
      Utf8OfHead(s);
      var (v, n) := Head8(s).value;
      All8OfDecode(s[n..]);
      var vs := Decode8(s[n..]).value;
      assert ([v] + vs)[1..] == vs;
      assert s[..n] + s[n..] == s;
    }
  }

  lemma Head16Of(v: nat, rest: seq<unit>)
    requires IsScalar(v)
    ensures Head16(Utf16(v) + rest) == Some((v, |Utf16(v)|))
  {
  }

  lemma Utf16OfHead(s: seq<unit>)
    requires s != []
    ensures Head16(s).Some? ==>
      var (v, n) := Head16(s).value;
      IsScalar(v) && Utf16(v) == s[..n]
  {
  }

  lemma {:induction false} Decode16Of(vs: seq<int>)
    requires AreScalars(vs)
    ensures Decode16(All16(vs)) == Some(vs)
  {
    hide Head16, Utf16;
    if vs != [] {
      var rest := All16(vs[1..]);
      Head16Of(vs[0], rest);
      Parts(Utf16(vs[0]), rest);
      Decode16Of(vs[1..]);
      assert [vs[0]] + vs[1..] == vs;
    }
  }

  lemma {:induction false} All16OfDecode(s: seq<unit>)
    requires Decode16(s).Some?
    ensures AreScalars(Decode16(s).value) && All16(Decode16(s).value) == s
    decreases |s|
  {
    hide Head16, Utf16;
    if s != [] {
      Utf16OfHead(s);
      var (v, n) := Head16(s).value;
      All16OfDecode(s[n..]);
      var vs := Decode16(s[n..]).value;
      assert ([v] + vs)[1..] == vs;
      assert s[..n] + s[n..] == s;
    }
  }

  // The percent-escaped form stands for the raw one.
  lemma {:induction false} EscapedDecodes(vs: seq<int>)
    requires AreScalars(vs)
    ensures Decode8(PercentDecode(Written(All8(vs), true))) == Some(vs)
  {
    DecodeEscapeAll(All8(vs));
    Decode8Of(vs);
  }
}
