/** The path canonicalizer of url_canon_path.cc, 8-bit instantiation, as it loops over the
    input and rewrites its output. */
module PathCanon {
  import opened Bytes
  import opened Escapes
  import opened PathTokens
  import opened PathSegment
  import opened PathBuffer

  // ---------- what the loop computes ----------

  predicate NoSlash(s: seq<byte>) {
    SLASH !in s
  }

  function SegmentStart(s: seq<byte>): (k: nat)
    ensures k <= |s| && NoSlash(s[k..]) && (k > 0 ==> s[k - 1] == SLASH)
  {
    if s == [] then 0 else if s[|s| - 1] == SLASH then |s|
    else var k := SegmentStart(s[..|s| - 1]); assert s[k..] == s[..|s| - 1][k..] + [s[|s| - 1]]; k
  }

  predicate EndsInSlash(s: seq<byte>) {
    s != [] ==> s[|s| - 1] == SLASH
  }

  lemma LastDirectory(dirs: seq<Frame>, s: seq<byte>, k: nat)
    requires s != [] && EndsInSlash(s) && k < |s| && Flat(dirs) == s[..k]
    ensures Flat(dirs + [Frame(s[..|s| - 1][k..], 0, false, false)]) == s
  {
    hide Flat;
    FlatAppend(dirs, Frame(s[..|s| - 1][k..], 0, false, false));
  }

  // The directories of a text that ends in a slash.
  function Dirs(s: seq<byte>): (dirs: seq<Frame>)
    requires EndsInSlash(s)
    ensures Flat(dirs) == s && (dirs == [] <==> s == [])
    decreases |s|
  {
    if s == [] then []
    else
      var t := s[..|s| - 1];
      var k := SegmentStart(t);
      LastDirectory(Dirs(s[..k]), s, k);
      Dirs(s[..k]) + [Frame(t[k..], 0, false, false)]
  }

  // The buffer when the path so far is s.
  function Load(s: seq<byte>): Buffer
    requires EndsInSlash(s)
  {
    Buffer(Dirs(s), EMPTY, INT_MIN)
  }

  // Segments hold no slash and the path starts with one.
  ghost predicate Rooted(b: Buffer) {
    (forall i :: 0 <= i < |b.dirs| ==> NoSlash(b.dirs[i].text)) && NoSlash(b.cur.text)
    && (b.dirs != [] ==> b.dirs[0].text == [])
  }

  // ---------- small steps ----------

  datatype DotKind = NotDirectory | DirectoryCur | DirectoryUp

  // s is the input behind a dot.
  function ClassifyAfterDot(s: seq<byte>): (r: (DotKind, nat))
    ensures r.1 <= |s|
  {
    if s == [] then (DirectoryCur, 0)
    else if IsURLSlash(s[0]) then (DirectoryCur, 1)
    else
      var d := DotLength(s);
      if d > 0 && d == |s| then (DirectoryUp, d)
      else if d > 0 && IsURLSlash(s[d]) then (DirectoryUp, d + 1)
      else (NotDirectory, 0)
  }

  lemma TokenizeFirst(s: seq<byte>)
    requires s != []
    ensures Tokenize(s) != [] && Tokenize(s)[0] == Lex(s).0 && Tokenize(s)[1..] == Tokenize(s[Lex(s).1..])
  {
  }

  predicate HexNext(s: seq<byte>) {
    s != [] && IsHexChar(s[0])
  }

  lemma NextHexIsHexNext(s: seq<byte>)
    ensures NextHex(Tokenize(s)) == HexNext(s)
  {
    if s != [] { TokenizeFirst(s); }
  }

  function StepBuffer(s: seq<byte>, b: Buffer): Buffer
    requires s != []
  {
    if Lex(s).0.Slash? then Close(b) else PutToken(b, Lex(s).0, HexNext(s[Lex(s).1..]))
  }

  lemma StepToken(s: seq<byte>, b: Buffer)
    requires s != []
    requires b.dirs != [] && b.cur.text == [] && DotLength(s) > 0 ==> ClassifyAfterDot(s[DotLength(s)..]).0 == NotDirectory
    ensures Go(Tokenize(s), b) == Go(Tokenize(s[Lex(s).1..]), StepBuffer(s, b))
  {
    TokenizeFirst(s);
    NextHexIsHexNext(s[Lex(s).1..]);
    if DotLength(s) > 0 { ClassifyTokens(s); }
  }

  // The characters behind a dot and the tokens they make classify it alike.
  ghost predicate SameClass(a: seq<byte>, ts: seq<Token>)
    requires ts != [] && ts[0].Dot?
  {
    var (kind, n) := ClassifyAfterDot(a);
    var d := Classify(ts);
    && (kind == NotDirectory <==> d.NotADirectory?)
    && (kind == DirectoryUp <==> d.Up?)
    && (kind != NotDirectory ==> ts[d.n..] == Tokenize(a[n..]))
  }

  lemma ClassifyTokens(s: seq<byte>)
    requires s != [] && DotLength(s) > 0
    ensures Tokenize(s) != [] && Tokenize(s)[0] == Dot
    ensures SameClass(s[DotLength(s)..], Tokenize(s))
  {
    TokenizeFirst(s);
    var a, ts := s[DotLength(s)..], Tokenize(s);
    assert ts[1..] == Tokenize(a);
    if a == [] {
    } else {
      TokenizeFirst(a);
      assert ts[1] == Lex(a).0 && ts[2..] == Tokenize(a[Lex(a).1..]);
      if DotLength(a) > 0 { ClassifyDots(a, ts); }
    }
  }

  lemma ClassifyDots(a: seq<byte>, ts: seq<Token>)
    requires a != [] && DotLength(a) > 0
    requires |ts| >= 2 && ts[0] == ts[1] == Dot && ts[2..] == Tokenize(a[DotLength(a)..])
    ensures SameClass(a, ts)
  {
    var n := DotLength(a);
    var c := a[n..];
    if c == [] {
    } else {
      TokenizeFirst(c);
      assert ts[2] == Lex(c).0 && ts[3..] == ts[2..][1..];
      assert c[1..] == a[n + 1..];
    }
  }

  lemma StepDirectory(s: seq<byte>, b: Buffer)
    requires s != [] && DotLength(s) > 0 && b.dirs != [] && b.cur.text == []
    requires ClassifyAfterDot(s[DotLength(s)..]).0 != NotDirectory
    ensures var (kind, n) := ClassifyAfterDot(s[DotLength(s)..]);
            Go(Tokenize(s), b) ==
            Go(Tokenize(s[DotLength(s) + n..]), if kind == DirectoryUp then b.(dirs := Pop(b.dirs)) else b)
  {
    ClassifyTokens(s);
    var n := ClassifyAfterDot(s[DotLength(s)..]).1;
    assert s[DotLength(s)..][n..] == s[DotLength(s) + n..];
  }

  // ---------- the output represents the buffer ----------

  // output holds pre and then the path of b; marker is the index of the last stray '%'.
  ghost predicate Represents(output: seq<byte>, marker: int, pre: seq<byte>, b: Buffer) {
    && output == pre + b.Text() && Rooted(b)
    && (b.dirs == [] ==> b.cur.text == [])
    && (if marker == INT_MIN then b.marker == INT_MIN else |pre| <= marker && b.marker == marker - |pre|)
  }

  lemma FlatEndsInSlash(dirs: seq<Frame>)
    requires dirs != []
    ensures |Flat(dirs)| > 0 && Flat(dirs)[|Flat(dirs)| - 1] == SLASH
  {
  }

  // The test in front of a dot: the path ends in a slash exactly between segments.
  lemma AtSegmentStart(output: seq<byte>, marker: int, pre: seq<byte>, b: Buffer)
    requires Represents(output, marker, pre, b)
    ensures (|output| > |pre| && output[|output| - 1] == SLASH) <==> (b.dirs != [] && b.cur.text == [])
  {
    if b.dirs != [] { FlatEndsInSlash(b.dirs); }
    if b.cur.text == [] {
      assert output == pre + Flat(b.dirs);
    } else {
      assert output[|output| - 1] == b.cur.text[|b.cur.text| - 1];
    }
  }

  lemma AfterSlash(output: seq<byte>, marker: int, pre: seq<byte>, b: Buffer)
    requires Represents(output, marker, pre, b)
    ensures Represents(output + [SLASH], marker, pre, Close(b))
  {
    FlatAppend(b.dirs, b.cur);
  }

  lemma AfterPlain(output: seq<byte>, marker: int, pre: seq<byte>, b: Buffer, t: Token, nextHex: bool)
    requires Represents(output, marker, pre, b) && b.dirs != []
    requires t.Valid() && !t.Slash? && !t.Unescaped? && !t.BadPercent?
    ensures Represents(output + RenderToken(t), marker, pre, PutToken(b, t, nextHex))
  {
    assert NoSlash(RenderToken(t));
  }

  lemma AfterStray(output: seq<byte>, marker: int, pre: seq<byte>, b: Buffer, nextHex: bool)
    requires Represents(output, marker, pre, b) && b.dirs != []
    ensures Represents(output + [PERCENT], |output|, pre, PutToken(b, BadPercent, nextHex))
  {
  }

  // The repair, on the whole output: m names an index in it.
  predicate Nested(output: seq<byte>, m: int, nextHex: bool)
    requires output != []
  {
    m >= 0 && IsHexChar(output[|output| - 1])
    && ((m == |output| - 2 && nextHex) || (m == |output| - 3 && IsHexChar(output[m + 1])))
  }

  // Whole output and segment agree on the repair: the slash in front is no digit.
  lemma NestedIsFires(p: seq<byte>, s: seq<byte>, r: int, nextHex: bool)
    requires s != [] && p != [] && p[|p| - 1] == SLASH
    ensures Nested(p + s, |p| + r, nextHex) <==> Fires(s, r, nextHex)
    ensures Fires(s, r, nextHex) ==> Repaired(p + s, |p| + r) == p + Repaired(s, r)
  {
    var w := p + s;
    assert w[|w| - 1] == s[|s| - 1];
    if r == -2 && |s| == 1 { assert w[|p| + r + 1] == SLASH; }
    if -1 <= r == |s| - 3 { assert w[|p| + r + 1] == s[r + 1]; }
    if -1 <= r < |s| {
      assert w[..|p| + r + 1] == p + s[..r + 1] && w[|p| + r + 1..] == s[r + 1..];
    }
  }

  lemma AfterUnescaped(output: seq<byte>, marker: int, pre: seq<byte>, b: Buffer, c: byte, nextHex: bool)
    requires Represents(output, marker, pre, b) && b.dirs != [] && Class(c) == Unescape
    ensures var pushed := output + [c];
            Represents(if Nested(pushed, marker, nextHex) then Repaired(pushed, marker) else pushed,
                       marker, pre, PutToken(b, Unescaped(c), nextHex))
  {
    hide Put, Repaired, PutToken, Flat;
    var p, s, r := pre + Flat(b.dirs), b.cur.text + [c], marker - |pre| - |Flat(b.dirs)|;
    assert output + [c] == p + s;
    FlatEndsInSlash(b.dirs);
    NestedIsFires(p, s, r, nextHex);
    PutUnescaped(b, c, nextHex, r, marker == INT_MIN);
    var d := PutToken(b, Unescaped(c), nextHex);
    assert NoSlash(s);
    if Fires(s, r, nextHex) { RepairedKeepsOut(s, r, SLASH); }
    SameDirs(output, marker, pre, b, p + d.cur.text, d);
  }

  lemma SameDirs(output: seq<byte>, marker: int, pre: seq<byte>, b: Buffer, out: seq<byte>, d: Buffer)
    requires Represents(output, marker, pre, b) && b.dirs != []
    requires d.dirs == b.dirs && d.marker == b.marker && NoSlash(d.cur.text)
    requires out == pre + Flat(b.dirs) + d.cur.text
    ensures Represents(out, marker, pre, d)
  {
  }

  // The text written for an unescaped character.  Without a stray '%' any index below the
  // segment will do for the remembered one.
  lemma PutText(f: Frame, r: int, c: byte, nextHex: bool)
    ensures var p, s := Put(f, r, Unescaped(c), nextHex), f.text + [c];
            p.1 == r && p.0.text == if Fires(s, r, nextHex) then Repaired(s, r) else s
  {
  }

  lemma PutUnescaped(b: Buffer, c: byte, nextHex: bool, r: int, none: bool)
    requires if none then b.marker == INT_MIN && r < -1 else r == b.marker - |Flat(b.dirs)|
    ensures var d, s := PutToken(b, Unescaped(c), nextHex), b.cur.text + [c];
            && d.dirs == b.dirs && d.marker == b.marker
            && d.cur.text == if Fires(s, r, nextHex) then Repaired(s, r) else s
  {
    hide Flat, Put, Repaired;
    PutText(b.cur, b.marker - |Flat(b.dirs)|, c, nextHex);
  }

  lemma AfterUp(output: seq<byte>, marker: int, pre: seq<byte>, b: Buffer, out: seq<byte>)
    requires Represents(output, marker, pre, b) && b.dirs != [] && b.cur.text == []
    requires |output| > |pre| && output[|output| - 1] == SLASH && BackedUp(output, |pre|, out)
    ensures Represents(out, marker, pre, b.(dirs := Pop(b.dirs)))
  {
    var k := |b.dirs| - 1;
    var init, d := b.dirs[..k], b.dirs[k].text;
    var p := pre + Flat(init);
    assert output == p + d + [SLASH];
    if k > 0 {
      FlatEndsInSlash(init);
      assert forall j :: |p| <= j < |output| - 1 ==> output[j] == d[j - |p|];
      assert output[|p| - 1] == SLASH;
      assert |out| == |p|;
      assert out == p;
    }
  }

  // out is output cut behind its previous slash, but not above the one at pathBegin.
  ghost predicate BackedUp(output: seq<byte>, pathBegin: nat, out: seq<byte>)
    requires |output| > pathBegin
  {
    if |output| == pathBegin + 1 then out == output
    else
      && pathBegin < |out| < |output| && out == output[..|out|]
      && (|out| == pathBegin + 1 || out[|out| - 1] == SLASH)
      && forall j :: |out| <= j < |output| - 1 ==> output[j] != SLASH
  }

  // ---------- the methods ----------

  method BackUpToPreviousSlash(pathBegin: nat, output: seq<byte>) returns (out: seq<byte>)
    requires |output| > pathBegin && output[|output| - 1] == SLASH
    ensures BackedUp(output, pathBegin, out)
  {
    var i := |output| - 1;
    if i == pathBegin {
      return output;
    }
    i := i - 1;
    while output[i] != SLASH && i > pathBegin
      decreases i
      invariant pathBegin <= i < |output| - 1
      invariant forall j :: i < j < |output| - 1 ==> output[j] != SLASH
    {
      i := i - 1;
    }
    out := output[..i + 1];
  }

  method CheckForNestedEscapes(spec: seq<byte>, nextInput: nat, inputEnd: nat, lastInvalid: int, output: seq<byte>)
    returns (out: seq<byte>)
    requires nextInput <= inputEnd <= |spec|
    requires output != [] && lastInvalid >= |output| - 3 && lastInvalid >= 0
    ensures out == if Nested(output, lastInvalid, HexNext(spec[nextInput..inputEnd]))
                   then Repaired(output, lastInvalid) else output
  {
    var length := |output|;
    var lastUnescaped := output[length - 1];
    out := output;
    var appendNext := lastInvalid == length - 2;
    if appendNext {
      if nextInput == inputEnd || spec[nextInput] >= 0x80 {
        return;
      }
      out := out + [spec[nextInput]];
    }
    if lastInvalid + 3 <= |out| && IsEscape(out[lastInvalid..]) {
      if !appendNext {
        out := out + [out[lastInvalid + 1]];
      }
      out := out[lastInvalid + 1 := TWO];
      out := out[lastInvalid + 2 := FIVE];
      out := out + [lastUnescaped];
    } else if appendNext {
      out := out[..length];
    }
  }

  // The input from i on takes the buffer represented by output to the final one.
  ghost predicate Reaches(s: seq<byte>, output: seq<byte>, marker: int, pre: seq<byte>, b: Buffer, final: Buffer) {
    && Represents(output, marker, pre, b)
    && (b.dirs == [] ==> s != [] && IsURLSlash(s[0]))
    && Go(Tokenize(s), b) == final
  }

  // The dot that starts s is not a directory.
  ghost predicate PlainDot(s: seq<byte>, b: Buffer)
    requires s != []
  {
    b.dirs != [] && b.cur.text == [] && DotLength(s) > 0 ==> ClassifyAfterDot(s[DotLength(s)..]).0 == NotDirectory
  }

  lemma ReachPlain(s: seq<byte>, output: seq<byte>, marker: int, pre: seq<byte>, b: Buffer, final: Buffer)
    requires s != [] && Reaches(s, output, marker, pre, b, final) && PlainDot(s, b)
    requires !Lex(s).0.Unescaped? && !Lex(s).0.BadPercent?
    ensures Reaches(s[Lex(s).1..], output + RenderToken(Lex(s).0), marker, pre, StepBuffer(s, b), final)
  {
    StepToken(s, b);
    if Lex(s).0.Slash? {
      AfterSlash(output, marker, pre, b);
    } else {
      AfterPlain(output, marker, pre, b, Lex(s).0, HexNext(s[Lex(s).1..]));
    }
  }

  lemma ReachStray(s: seq<byte>, output: seq<byte>, marker: int, pre: seq<byte>, b: Buffer, final: Buffer)
    requires s != [] && Reaches(s, output, marker, pre, b, final) && Lex(s).0.BadPercent?
    ensures Reaches(s[1..], output + [PERCENT], |output|, pre, StepBuffer(s, b), final)
  {
    StepToken(s, b);
    AfterStray(output, marker, pre, b, HexNext(s[1..]));
  }

  lemma ReachUnescaped(s: seq<byte>, output: seq<byte>, marker: int, pre: seq<byte>, b: Buffer, final: Buffer)
    requires s != [] && Reaches(s, output, marker, pre, b, final) && Lex(s).0.Unescaped?
    ensures var pushed := output + [Lex(s).0.c];
            Reaches(s[3..], if Nested(pushed, marker, HexNext(s[3..])) then Repaired(pushed, marker) else pushed,
                    marker, pre, StepBuffer(s, b), final)
  {
    StepToken(s, b);
    AfterUnescaped(output, marker, pre, b, Lex(s).0.c, HexNext(s[3..]));
  }

  // A directory at a dot: nothing is written for it, and ".." takes the last one back.
  method CopyDirectory(spec: seq<byte>, i: nat, end: nat, pathBegin: nat, output: seq<byte>, next: nat, up: bool,
                       ghost marker: int, ghost pre: seq<byte>, ghost b: Buffer, ghost final: Buffer)
    returns (out: seq<byte>, ghost c: Buffer)
    requires i < next <= end <= |spec| && |pre| == pathBegin
    requires Represents(output, marker, pre, b) && b.dirs != [] && b.cur.text == []
    requires Go(Tokenize(spec[next..end]), if up then b.(dirs := Pop(b.dirs)) else b) == final
    ensures Reaches(spec[next..end], out, marker, pre, c, final)
  {
    hide Go, Tokenize;
    AtSegmentStart(output, marker, pre, b);
    if up {
      out := BackUpToPreviousSlash(pathBegin, output);
      AfterUp(output, marker, pre, b, out);
      c := b.(dirs := Pop(b.dirs));
    } else {
      out, c := output, b;
    }
  }

  // The dot branch of the loop.
  method CopyDot(spec: seq<byte>, i: nat, end: nat, pathBegin: nat, output: seq<byte>, dotLen: nat,
                 ghost marker: int, ghost pre: seq<byte>, ghost b: Buffer, ghost final: Buffer)
    returns (out: seq<byte>, next: nat, ghost c: Buffer)
    requires i < end <= |spec| && |pre| == pathBegin
    requires dotLen == DotLength(spec[i..end]) > 0
    requires Reaches(spec[i..end], output, marker, pre, b, final)
    ensures i < next <= end
    ensures Reaches(spec[next..end], out, marker, pre, c, final)
    ensures NoNul(Tokenize(spec[i..end])) == NoNul(Tokenize(spec[next..end]))
  {
    hide Go, Tokenize, NoNul;
    ghost var s := spec[i..end];
    AtSegmentStart(output, marker, pre, b);
    assert s[dotLen..] == spec[i + dotLen..end];
    if |output| > pathBegin && output[|output| - 1] == SLASH {
      var (kind, consumed) := ClassifyAfterDot(spec[i + dotLen..end]);
      if kind != NotDirectory {
        next := i + dotLen + consumed;
        assert s[dotLen + consumed..] == spec[next..end];
        StepDirectory(s, b);
        DirectoryHasNoNul(s);
        out, c := CopyDirectory(spec, i, end, pathBegin, output, next, kind == DirectoryUp, marker, pre, b, final);
        return;
      }
    }
    NulFirst(s);
    ReachPlain(s, output, marker, pre, b, final);
    out, next, c := output + [DOT], i + dotLen, StepBuffer(s, b);
  }

  // The branch of the loop for a '%' that is no dot.
  method CopyPercent(spec: seq<byte>, i: nat, end: nat, output: seq<byte>, lastInvalid: int,
                     ghost pre: seq<byte>, ghost b: Buffer, ghost final: Buffer)
    returns (out: seq<byte>, next: nat, marker: int, ok: bool, ghost c: Buffer)
    requires i < end <= |spec| && spec[i] == PERCENT && DotLength(spec[i..end]) == 0
    requires Reaches(spec[i..end], output, lastInvalid, pre, b, final)
    ensures i < next <= end
    ensures Reaches(spec[next..end], out, marker, pre, c, final)
    ensures NoNul(Tokenize(spec[i..end])) == (ok && NoNul(Tokenize(spec[next..end])))
  {
    hide Go, Tokenize, NoNul, HexCharToValue;
    ghost var s := spec[i..end];
    NulFirst(s);
    c, marker, ok := StepBuffer(s, b), lastInvalid, true;
    if IsEscape(spec[i..end]) {
      var value := EscapeValue(spec[i + 1], spec[i + 2]);
      next := i + 3;
      assert s[1] == spec[i + 1] && s[2] == spec[i + 2] && s[3..] == spec[next..end];
      if Class(value) == Unescape {
        ReachUnescaped(s, output, lastInvalid, pre, b, final);
        out := output + [value];
        if lastInvalid >= |out| - 3 {
          out := CheckForNestedEscapes(spec, next, end, lastInvalid, out);
        }
      } else {
        ReachPlain(s, output, lastInvalid, pre, b, final);
        out := output + [PERCENT, spec[next - 2], spec[next - 1]];
        ok := Class(value) != Invalid;
      }
    } else {
      ReachStray(s, output, lastInvalid, pre, b, final);
      next, marker := i + 1, |output|;
      assert s[1..] == spec[next..end];
      out := output + [PERCENT];
    }
  }

  // The branch of the loop for a character that is neither a dot nor a '%'.
  method CopyCharacter(spec: seq<byte>, i: nat, end: nat, output: seq<byte>,
                       ghost marker: int, ghost pre: seq<byte>, ghost b: Buffer, ghost final: Buffer)
    returns (out: seq<byte>, ok: bool, ghost c: Buffer)
    requires i < end <= |spec| && spec[i] != PERCENT && DotLength(spec[i..end]) == 0
    requires Reaches(spec[i..end], output, marker, pre, b, final)
    ensures Reaches(spec[i + 1..end], out, marker, pre, c, final)
    ensures NoNul(Tokenize(spec[i..end])) == (ok && NoNul(Tokenize(spec[i + 1..end])))
  {
    hide Go, Tokenize, NoNul;
    ghost var s := spec[i..end];
    assert s[0] == spec[i] && s[1..] == spec[i + 1..end];
    var text;
    if Class(spec[i]) == Pass || Class(spec[i]) == Unescape {
      text, ok := [spec[i]], true;
    } else if spec[i] == BACKSLASH {
      text, ok := [SLASH], true;
    } else {
      text, ok := Escaped(spec[i]), Class(spec[i]) != Invalid;
    }
    out := output + text;
    assert text == RenderToken(Lex(s).0) && ok == !IsNul(Lex(s).0);
    NulFirst(s);
    ReachPlain(s, output, marker, pre, b, final);
    c := StepBuffer(s, b);
  }

  // The body of the loop.
  method CopyNext(spec: seq<byte>, i: nat, end: nat, pathBegin: nat, output: seq<byte>, lastInvalid: int,
                  ghost pre: seq<byte>, ghost b: Buffer, ghost final: Buffer)
    returns (out: seq<byte>, next: nat, marker: int, ok: bool, ghost c: Buffer)
    requires i < end <= |spec| && |pre| == pathBegin
    requires Reaches(spec[i..end], output, lastInvalid, pre, b, final)
    ensures i < next <= end
    ensures Reaches(spec[next..end], out, marker, pre, c, final)
    ensures NoNul(Tokenize(spec[i..end])) == (ok && NoNul(Tokenize(spec[next..end])))
  {
    hide Go, Tokenize, NoNul;
    var dotLen := DotLength(spec[i..end]);
    marker, ok := lastInvalid, true;
    if dotLen > 0 {
      out, next, c := CopyDot(spec, i, end, pathBegin, output, dotLen, lastInvalid, pre, b, final);
    } else if spec[i] == PERCENT {
      out, next, marker, ok, c := CopyPercent(spec, i, end, output, lastInvalid, pre, b, final);
    } else {
      out, ok, c := CopyCharacter(spec, i, end, output, lastInvalid, pre, b, final);
      next := i + 1;
    }
  }

  // soFar is the path already in the output.  Either there is none and the input brings its
  // own slash, or it starts and ends with one.
  method DoPartialPath(spec: seq<byte>, begin: nat, end: nat, pathBegin: nat, initial: seq<byte>, ghost soFar: Buffer)
    returns (output: seq<byte>, success: bool)
    requires begin <= end <= |spec| && pathBegin <= |initial|
    requires Represents(initial, INT_MIN, initial[..pathBegin], soFar) && soFar.cur == EMPTY
    requires soFar.dirs == [] ==> begin < end && IsURLSlash(spec[begin])
    ensures output == initial[..pathBegin] + Go(Tokenize(spec[begin..end]), soFar).Text()
    ensures success == NoNul(Tokenize(spec[begin..end]))
  {
    hide Go, Tokenize, NoNul;
    ghost var pre := initial[..pathBegin];
    ghost var b := soFar;
    ghost var final := Go(Tokenize(spec[begin..end]), b);
    output, success := initial, true;
    var lastInvalid := INT_MIN;
    var i, ok := begin, true;
    while i < end
      invariant begin <= i <= end
      invariant Reaches(spec[i..end], output, lastInvalid, pre, b, final)
      invariant (success && NoNul(Tokenize(spec[i..end]))) == NoNul(Tokenize(spec[begin..end]))
    {
      output, i, lastInvalid, ok, b := CopyNext(spec, i, end, pathBegin, output, lastInvalid, pre, b, final);
      success := success && ok;
    }
    assert spec[end..end] == [];
    NothingLeft(b);
  }

  lemma NothingLeft(b: Buffer)
    ensures Go(Tokenize([]), b) == b && NoNul(Tokenize([]))
  {
  }

  // Dots and the slash behind them are no NULs.
  lemma DirectoryHasNoNul(s: seq<byte>)
    requires s != [] && DotLength(s) > 0 && ClassifyAfterDot(s[DotLength(s)..]).0 != NotDirectory
    ensures var n := ClassifyAfterDot(s[DotLength(s)..]).1;
            NoNul(Tokenize(s)) == NoNul(Tokenize(s[DotLength(s) + n..]))
  {
    hide Tokenize, NoNul;
    ClassifyTokens(s);
    var n := ClassifyAfterDot(s[DotLength(s)..]).1;
    assert s[DotLength(s)..][n..] == s[DotLength(s) + n..];
    NulBehind(Tokenize(s), Classify(Tokenize(s)).n);
  }

  lemma {:induction false} NulBehind(ts: seq<Token>, n: nat)
    requires n <= |ts| && forall i :: 0 <= i < n ==> !IsNul(ts[i])
    ensures NoNul(ts) == NoNul(ts[n..])
  {
    if n > 0 {
      assert ts[1..][n - 1..] == ts[n..];
      NulBehind(ts[1..], n - 1);
    }
  }

  // The first token and the rest share the blame for a NUL.
  lemma NulFirst(s: seq<byte>)
    requires s != []
    ensures NoNul(Tokenize(s)) == (!IsNul(Lex(s).0) && NoNul(Tokenize(s[Lex(s).1..])))
  {
    TokenizeFirst(s);
  }

  // Every text that starts and ends with a slash is the text of some path so far.
  lemma LoadRepresents(initial: seq<byte>, pathBegin: nat)
    requires pathBegin <= |initial|
    requires |initial| > pathBegin ==> initial[pathBegin] == SLASH && initial[|initial| - 1] == SLASH
    ensures Represents(initial, INT_MIN, initial[..pathBegin], Load(initial[pathBegin..]))
  {
    var s := initial[pathBegin..];
    DirsRooted(s);
    assert initial == initial[..pathBegin] + s;
  }

  lemma {:induction false} DirsRooted(s: seq<byte>)
    requires EndsInSlash(s)
    ensures forall i :: 0 <= i < |Dirs(s)| ==>
              NoSlash(Dirs(s)[i].text) && Dirs(s)[i] == Frame(Dirs(s)[i].text, 0, false, false)
    ensures s != [] && s[0] == SLASH ==> Dirs(s)[0].text == []
    decreases |s|
  {
    hide Flat, SegmentStart;
    if s != [] {
      var t := s[..|s| - 1];
      var k := SegmentStart(t);
      DirsRooted(s[..k]);
      assert Dirs(s) == Dirs(s[..k]) + [Frame(t[k..], 0, false, false)];
      if s[0] == SLASH {
        if k == 0 { assert t == [] by { assert t[0..] == t; } } else { assert s[..k][0] == SLASH; }
      }
    }
  }
}
