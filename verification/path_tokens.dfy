/** The characters of a path as the canonicalizer reads them, and the reference rendering.

    A path is read as a sequence of tokens: slashes, dots (plain or escaped), characters to
    copy, escapes to undo, escapes to keep, characters to escape, and percent signs that
    start no escape.  Render is the specification of the canonical text.  It works from the
    right and needs no repair: a stray '%' is written "%25" exactly when leaving it bare in
    front of the text already rendered would make it read as an escape. */
module PathTokens {
  import opened Bytes
  import opened Escapes

  datatype CharClass = Pass | Special | Escape | Unescape | Invalid

  // The lookup table for path characters.
  function Class(c: byte): CharClass {
    if c == 0 then Invalid
    else if c == DOT then Special
    else if IsDecChar(c) || 0x41 <= c <= 0x5A || 0x61 <= c <= 0x7A
            || c == 0x2D || c == 0x5F || c == 0x7E then Unescape
    else if c == 0x21 || c == 0x24 || 0x26 <= c <= 0x2C || c == SLASH
            || c == 0x3A || c == 0x3B || c == 0x3D || c == 0x40
            || c == OPEN_BRACKET || c == CLOSE_BRACKET then Pass
    else Escape
  }

  datatype Token =
    | Slash
    | Dot
    | Raw(c: byte)
    | Unescaped(c: byte)
    | Kept(h1: byte, h2: byte)
    | ToEscape(c: byte)
    | BadPercent
  {
    // What the tokenizer guarantees about a single token.
    predicate Valid() {
      match this
      case Raw(c) => c != SLASH && (Class(c) == Pass || Class(c) == Unescape)
      case Unescaped(c) => Class(c) == Unescape
      case Kept(h1, h2) =>
        IsHexChar(h1) && IsHexChar(h2)
        && Class(EscapeValue(h1, h2)) != Unescape && EscapeValue(h1, h2) != DOT
      case ToEscape(c) => c != PERCENT && c != BACKSLASH && (Class(c) == Escape || Class(c) == Invalid)
      case _ => true
    }

    predicate RawHex() {
      Raw? && IsHexChar(c)
    }

    // The byte the token stands for.
    function Value(): byte
      requires Valid()
    {
      match this
      case Slash => SLASH
      case Dot => DOT
      case Raw(c) => c
      case Unescaped(c) => c
      case Kept(h1, h2) => EscapeValue(h1, h2)
      case ToEscape(c) => c
      case BadPercent => PERCENT
    }
  }

  // The length of a dot at the front of s: 1 for ".", 3 for "%2e" or "%2E", 0 otherwise.
  function DotLength(s: seq<byte>): nat
    requires s != []
  {
    if s[0] == DOT then 1
    else if s[0] == PERCENT && |s| >= 3 && s[1] == TWO && (s[2] == 0x65 || s[2] == 0x45) then 3
    else 0
  }

  // The first token of s and the number of characters it takes.
  function Lex(s: seq<byte>): (r: (Token, nat))
    requires s != []
    ensures 1 <= r.1 <= |s| && r.0.Valid()
  {
    if DotLength(s) > 0 then (Dot, DotLength(s))
    else if IsURLSlash(s[0]) then (Slash, 1)
    else if s[0] == PERCENT then
      if IsEscape(s) then
        var v := EscapeValue(s[1], s[2]);
        (if Class(v) == Unescape then Unescaped(v) else Kept(s[1], s[2]), 3)
      else (BadPercent, 1)
    else if Class(s[0]) == Escape || Class(s[0]) == Invalid then (ToEscape(s[0]), 1)
    else (Raw(s[0]), 1)
  }

  function Tokenize(s: seq<byte>): seq<Token> {
    if s == [] then []
    else var (t, n) := Lex(s); [t] + Tokenize(s[n..])
  }

  // A stray '%' is never followed by two plain hexadecimal digits.
  predicate StrayOk(rest: seq<Token>) {
    !(|rest| >= 2 && rest[0].RawHex() && rest[1].RawHex())
  }

  predicate WellLexed(ts: seq<Token>) {
    ts == [] || (ts[0].Valid() && (ts[0].BadPercent? ==> StrayOk(ts[1..])) && WellLexed(ts[1..]))
  }

  function Values(ts: seq<Token>): seq<byte>
    requires WellLexed(ts)
  {
    if ts == [] then [] else [ts[0].Value()] + Values(ts[1..])
  }

  // A NUL, plain or escaped, makes the canonicalizer report failure.
  predicate IsNul(t: Token) {
    t == ToEscape(0) || (t.Kept? && IsHexChar(t.h1) && IsHexChar(t.h2) && EscapeValue(t.h1, t.h2) == 0)
  }

  predicate NoNul(ts: seq<Token>) {
    ts == [] || (!IsNul(ts[0]) && NoNul(ts[1..]))
  }

  function Nuls(ts: seq<Token>): nat {
    if ts == [] then 0 else (if IsNul(ts[0]) then 1 else 0) + Nuls(ts[1..])
  }

  // A '%' in front of text r: escaped if it would otherwise start an escape.
  function StrayPercent(r: seq<byte>): seq<byte> {
    if |r| >= 2 && IsHexChar(r[0]) && IsHexChar(r[1]) then [PERCENT, TWO, FIVE] + r else [PERCENT] + r
  }

  function RenderToken(t: Token): seq<byte>
    requires !t.BadPercent?
  {
    match t
    case Slash => [SLASH]
    case Dot => [DOT]
    case Raw(c) => [c]
    case Unescaped(c) => [c]
    case Kept(h1, h2) => [PERCENT, h1, h2]
    case ToEscape(c) => Escaped(c)
  }

  function Render(ts: seq<Token>): seq<byte> {
    if ts == [] then []
    else if ts[0].BadPercent? then StrayPercent(Render(ts[1..]))
    else RenderToken(ts[0]) + Render(ts[1..])
  }

  // What a rendered token is read back as; r is the text rendered behind it.
  function RereadToken(t: Token, r: seq<byte>): Token {
    match t
    case Unescaped(c) => Raw(c)
    case ToEscape(c) => Kept(Escaped(c)[1], Escaped(c)[2])
    case BadPercent => if |r| >= 2 && IsHexChar(r[0]) && IsHexChar(r[1]) then Kept(TWO, FIVE) else BadPercent
    case t => t
  }

  // The tokens the rendered text is read back as.
  function Reread(ts: seq<Token>): seq<Token> {
    if ts == [] then []
    else
      [RereadToken(ts[0], Render(ts[1..]))] + Reread(ts[1..])
  }

  // The text with every plain backslash read as a slash.
  function SlashForm(s: seq<byte>): seq<byte> {
    if s == [] then [] else [if s[0] == BACKSLASH then SLASH else s[0]] + SlashForm(s[1..])
  }

  // ---------- tokens of a text ----------

  lemma {:induction false} TokenizeWellLexed(s: seq<byte>)
    ensures WellLexed(Tokenize(s))
  {
    if s != [] {
      var (t, n) := Lex(s);
      TokenizeWellLexed(s[n..]);
      assert Tokenize(s)[1..] == Tokenize(s[n..]);
      if t.BadPercent? && !StrayOk(Tokenize(s[1..])) {
        StrayDigits(s[1..]);
      }
    }
  }

  // Two plain digit tokens come from two digit characters.
  lemma {:induction false} StrayDigits(s: seq<byte>)
    requires !StrayOk(Tokenize(s))
    ensures |s| >= 2 && IsHexChar(s[0]) && IsHexChar(s[1])
  {
    var (t, n) := Lex(s);
    var rest := s[n..];
    assert Tokenize(s) == [t] + Tokenize(rest);
    assert t.RawHex() && Tokenize(rest)[0].RawHex();
    RawHexLex(s);
    assert rest != [];
    assert Tokenize(rest)[0] == Lex(rest).0;
    RawHexLex(rest);
  }

  lemma RawHexLex(s: seq<byte>)
    requires s != [] && Lex(s).0.RawHex()
    ensures IsHexChar(s[0]) && Lex(s).1 == 1
  {
  }

  // Reading a text as tokens keeps the bytes it stands for.
  // The first token stands for the first byte.
  lemma FirstDecoded(s: seq<byte>)
    requires s != []
    ensures var (t, n) := Lex(s);
      PercentDecode(SlashForm(s)) == [t.Value()] + PercentDecode(SlashForm(s[n..]))
  {
    hide SlashForm, HexCharToValue;
    var (t, n) := Lex(s);
    SlashFormAt(s);
    SlashFormDrop(s, n);
    if s[0] == PERCENT && |s| >= 3 {
      assert SlashForm(s)[1] == (if s[1] == BACKSLASH then SLASH else s[1]);
      assert SlashForm(s)[2] == (if s[2] == BACKSLASH then SLASH else s[2]);
      DotEscape();
    }
  }

  lemma DotEscape()
    ensures EscapeValue(TWO, 0x65) == EscapeValue(TWO, 0x45) == DOT
  {
  }

  lemma {:induction false} DecodeIsValues(s: seq<byte>)
    ensures WellLexed(Tokenize(s))
    ensures PercentDecode(SlashForm(s)) == Values(Tokenize(s))
  {
    hide Lex, PercentDecode, SlashForm;
    TokenizeWellLexed(s);
    if s == [] {
      DecodeNothing();
    } else {
      var (t, n) := Lex(s);
      FirstDecoded(s);
      DecodeIsValues(s[n..]);
      assert Tokenize(s) == [t] + Tokenize(s[n..]) && Tokenize(s)[1..] == Tokenize(s[n..]);
    }
  }

  lemma DecodeNothing()
    ensures PercentDecode(SlashForm([])) == []
  {
  }

  lemma {:induction false} SlashFormAt(s: seq<byte>)
    ensures |SlashForm(s)| == |s|
    ensures forall i :: 0 <= i < |s| ==> SlashForm(s)[i] == (if s[i] == BACKSLASH then SLASH else s[i])
  {
    if s != [] { SlashFormAt(s[1..]); }
  }

  lemma SlashFormDrop(s: seq<byte>, n: nat)
    requires n <= |s|
    ensures |SlashForm(s)| == |s| && SlashForm(s)[n..] == SlashForm(s[n..])
  {
    SlashFormAt(s);
    SlashFormAt(s[n..]);
  }

  // ---------- reading back what was rendered ----------

  lemma {:induction false} TokenizeRender(ts: seq<Token>)
    requires WellLexed(ts)
    ensures Tokenize(Render(ts)) == Reread(ts)
  {
    if ts != [] {
      TokenizeRender(ts[1..]);
      var r, rest := Render(ts), Render(ts[1..]);
      if ts[0].BadPercent? { LexStray(rest); } else { LexRender(ts[0], rest); }
      var n := |r| - |rest|;
      assert r[n..] == rest;
      assert Lex(r) == (Reread(ts)[0], n);
      assert Tokenize(r) == [Lex(r).0] + Tokenize(rest);
    }
  }

  lemma LexRender(t: Token, r: seq<byte>)
    requires t.Valid() && !t.BadPercent?
    ensures Lex(RenderToken(t) + r) == (RereadToken(t, r), |RenderToken(t)|)
  {
    var w := RenderToken(t) + r;
    assert w[0] == RenderToken(t)[0];
    if t.Kept? || t.ToEscape? {
      LexKept(w, RenderToken(t)[1], RenderToken(t)[2]);
    }
  }

  lemma LexKept(w: seq<byte>, h1: byte, h2: byte)
    requires |w| >= 3 && w[0] == PERCENT && w[1] == h1 && w[2] == h2
    requires IsHexChar(h1) && IsHexChar(h2)
    requires Class(EscapeValue(h1, h2)) != Unescape && EscapeValue(h1, h2) != DOT
    ensures Lex(w) == (Kept(h1, h2), 3)
  {
  }

  lemma LexStray(r: seq<byte>)
    ensures Lex(StrayPercent(r)) == (RereadToken(BadPercent, r), |StrayPercent(r)| - |r|)
  {
    assert EscapeValue(TWO, FIVE) == PERCENT;
  }

  // The first token, read back from its own text.
  lemma RereadFirst(t: Token, r: seq<byte>)
    requires t.Valid()
    ensures var u := RereadToken(t, r);
      && u.Valid() && u.Value() == t.Value()
      && (if u.BadPercent? then StrayPercent(r) else RenderToken(u) + r)
         == (if t.BadPercent? then StrayPercent(r) else RenderToken(t) + r)
  {
    assert EscapeValue(TWO, FIVE) == PERCENT;
  }

  lemma {:induction false} RenderReread(ts: seq<Token>)
    requires WellLexed(ts)
    ensures WellLexed(Reread(ts)) && Render(Reread(ts)) == Render(ts) && Values(Reread(ts)) == Values(ts)
  {
    hide RereadToken, StrayPercent, RenderToken;
    TokenizeRender(ts);
    TokenizeWellLexed(Render(ts));
    if ts != [] {
      RenderReread(ts[1..]);
      assert Reread(ts)[1..] == Reread(ts[1..]);
      RereadFirst(ts[0], Render(ts[1..]));
    }
  }

  // The rendering is a fixed point of reading and rendering.
  lemma {:induction false} RenderIdempotent(ts: seq<Token>)
    requires WellLexed(ts)
    ensures Render(Tokenize(Render(ts))) == Render(ts)
  {
    TokenizeRender(ts);
    RenderReread(ts);
  }

  lemma TokenHasNoBackslash(t: Token, r: seq<byte>)
    requires t.Valid() && BACKSLASH !in r
    ensures t.BadPercent? ==> BACKSLASH !in StrayPercent(r)
    ensures !t.BadPercent? ==> BACKSLASH !in RenderToken(t) + r
  {
  }

  lemma {:induction false} SlashFormAlone(s: seq<byte>)
    requires BACKSLASH !in s
    ensures SlashForm(s) == s
  {
    if s != [] { SlashFormAlone(s[1..]); }
  }

  lemma {:induction false} RenderHasNoBackslash(ts: seq<Token>)
    requires WellLexed(ts)
    ensures BACKSLASH !in Render(ts) && SlashForm(Render(ts)) == Render(ts)
  {
    hide SlashForm, StrayPercent, RenderToken;
    if ts != [] {
      RenderHasNoBackslash(ts[1..]);
      TokenHasNoBackslash(ts[0], Render(ts[1..]));
    }
    SlashFormAlone(Render(ts));
  }

  // The rendering stands for the same bytes as the tokens: nothing was gained or lost by
  // undoing, keeping, adding or repairing escapes.
  lemma {:induction false} RenderMeaning(ts: seq<Token>)
    requires WellLexed(ts)
    ensures PercentDecode(Render(ts)) == Values(ts)
  {
    RenderHasNoBackslash(ts);
    DecodeIsValues(Render(ts));
    TokenizeRender(ts);
    RenderReread(ts);
  }

  // ---------- concatenation ----------

  lemma {:induction false} WellLexedSlash(a: seq<Token>, b: seq<Token>)
    requires WellLexed(a) && WellLexed(b)
    ensures WellLexed(a + [Slash] + b)
  {
    var w := a + [Slash] + b;
    if a == [] {
      assert w[1..] == b;
    } else {
      WellLexedSlash(a[1..], b);
      assert w[1..] == a[1..] + [Slash] + b;
    }
  }

  lemma {:induction false} RenderSlash(a: seq<Token>, b: seq<Token>)
    ensures Render(a + [Slash] + b) == Render(a) + [SLASH] + Render(b)
  {
    var w := a + [Slash] + b;
    if a == [] {
      assert w[1..] == b;
    } else {
      RenderSlash(a[1..], b);
      assert w[1..] == a[1..] + [Slash] + b;
      if a[0].BadPercent? {
        StraySlash(Render(a[1..]), Render(b));
      }
    }
  }

  lemma StraySlash(r: seq<byte>, s: seq<byte>)
    ensures StrayPercent(r + [SLASH] + s) == StrayPercent(r) + [SLASH] + s
  {
    var w := r + [SLASH] + s;
    if |r| == 0 { assert w[0] == SLASH; }
    else if |r| == 1 { assert w[1] == SLASH; }
    else { assert w[0] == r[0] && w[1] == r[1]; }
  }

  // A slash always ends a token: texts joined at a slash are read separately.
  lemma TokenizeLexed(w: seq<byte>)
    requires w != []
    ensures Tokenize(w) == [Lex(w).0] + Tokenize(w[Lex(w).1..])
  {
  }

  lemma {:induction false} TokenizeSlash(a: seq<byte>, c: byte, b: seq<byte>)
    requires IsURLSlash(c)
    ensures Tokenize(a + [c] + b) == Tokenize(a) + [Slash] + Tokenize(b)
  {
    hide Tokenize, Lex;
    var w := a + [c] + b;
    TokenizeLexed(w);
    if a == [] {
      TokenizeNone();
      SlashFirst(c, b);
      assert w == [c] + b && w[1..] == b;
    } else {
      var (t, n) := Lex(a);
      TokenizeLexed(a);
      LexSlash(a, c, b);
      assert w[n..] == a[n..] + [c] + b;
      TokenizeSlash(a[n..], c, b);
      Assoc([t], Tokenize(a[n..]), [Slash]);
      Assoc([t], Tokenize(a[n..]) + [Slash], Tokenize(b));
    }
  }

  lemma TokenizeNone()
    ensures Tokenize([]) == []
  {
  }

  lemma SlashFirst(c: byte, b: seq<byte>)
    requires IsURLSlash(c)
    ensures Lex([c] + b) == (Slash, 1)
  {
  }

  lemma LexSlash(a: seq<byte>, c: byte, b: seq<byte>)
    requires IsURLSlash(c) && a != []
    ensures Lex(a + [c] + b) == Lex(a)
  {
    var w := a + [c] + b;
    assert w[0] == a[0];
    if |a| >= 2 { assert w[1] == a[1]; } else { assert w[1] == c; }
    if |a| >= 3 { assert w[2] == a[2]; } else if |a| == 2 { assert w[2] == c; }
  }
}
