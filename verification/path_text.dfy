/** What the path canonicalizer writes, character by character, and the canonical paths
    described by their text alone. */
module PathText {
  import opened Bytes
  import opened Escapes
  import opened CharSets
  import opened PathTokens
  import opened PathSegment
  import opened PathBuffer
  import opened PathCanon
  import opened PathStale
  import opened PathSplit
  import opened PathTheorems
  import opened PathRelative
  import opened PathMerge

  // ---------- the characters of every output ----------

  predicate Listed(c: byte) {
    c == 0x2F || c == 0x25 || IsPathPlain(c)
  }

  predicate AllListed(s: seq<byte>) {
    forall i :: 0 <= i < |s| ==> Listed(s[i])
  }

  lemma ClassLists(c: byte)
    ensures c != SLASH ==> (IsPathPlain(c) <==> Class(c) == Pass || Class(c) == Unescape || c == DOT)
    ensures Class(c) == Unescape || c == DOT <==> IsUnreserved(c)
  {
  }

  lemma TokenListed(t: Token)
    requires t.Valid()
    ensures AllListed(if t.BadPercent? then [PERCENT] else RenderToken(t))
  {
    if t.Raw? || t.Unescaped? { ClassLists(t.c); }
  }

  lemma ListedConcat(a: seq<byte>, b: seq<byte>)
    requires AllListed(a) && AllListed(b)
    ensures AllListed(a + b)
  {
    hide Listed;
  }

  lemma RepairedListed(s: seq<byte>, r: int)
    requires AllListed(s) && -1 <= r < |s|
    ensures AllListed(Repaired(s, r))
  {
    assert Listed(TWO) && Listed(FIVE);
    hide Listed;
  }

  lemma PutListed(f: Frame, r: int, t: Token, nextHex: bool)
    requires !t.Slash? && t.Valid() && AllListed(f.text)
    ensures AllListed(Put(f, r, t, nextHex).0.text)
  {
    hide Put, Repaired, RenderToken, AllListed;
    var added := if t.BadPercent? then [PERCENT] else RenderToken(t);
    PutShape(f, r, t, nextHex);
    TokenListed(t);
    ListedConcat(f.text, added);
    if Put(f, r, t, nextHex).0.text != f.text + added { RepairedListed(f.text + added, r); }
  }

  ghost predicate FramesListed(b: Buffer) {
    (forall i :: 0 <= i < |b.dirs| ==> AllListed(b.dirs[i].text)) && AllListed(b.cur.text)
  }

  ghost predicate AllValid(ts: seq<Token>) {
    forall i :: 0 <= i < |ts| ==> ts[i].Valid()
  }

  lemma {:induction false} GoListed(ts: seq<Token>, b: Buffer)
    requires AllValid(ts) && FramesListed(b)
    ensures FramesListed(Go(ts, b))
    decreases |ts|
  {
    hide Put, AllListed, Flat;
    if ts == [] {
    } else if ts[0].Slash? {
      NothingListed();
      GoListed(ts[1..], Close(b));
    } else if AtDirectory(ts, b) {
      GoListed(ts[Classify(ts).n..], if Classify(ts).Up? then b.(dirs := Pop(b.dirs)) else b);
    } else {
      PutListed(b.cur, b.marker - |Flat(b.dirs)|, ts[0], NextHex(ts[1..]));
      GoListed(ts[1..], PutToken(b, ts[0], NextHex(ts[1..])));
    }
  }

  lemma NothingListed()
    ensures AllListed([])
  {
  }

  lemma {:induction false} TokensValid(s: seq<byte>)
    ensures AllValid(Tokenize(s))
    decreases |s|
  {
    hide Lex;
    if s != [] { TokensValid(s[Lex(s).1..]); }
  }

  lemma {:induction false} FlatListed(dirs: seq<Frame>)
    requires forall i :: 0 <= i < |dirs| ==> AllListed(dirs[i].text)
    ensures AllListed(Flat(dirs))
  {
    hide AllListed;
    if dirs == [] {
      NothingListed();
    } else {
      var k := |dirs| - 1;
      FlatListed(dirs[..k]);
      ListedConcat(Flat(dirs[..k]), dirs[k].text);
      SlashListed();
      ListedConcat(Flat(dirs[..k]) + dirs[k].text, [SLASH]);
    }
  }

  lemma SlashListed()
    ensures AllListed([SLASH])
  {
  }

  // Whatever the input and whatever was repaired where, only listed characters come out.
  lemma {:induction false} OutputListed(path: seq<byte>)
    ensures AllListed(Canonical(path).Text())
  {
    hide Go, Tokenize, AllListed, Flat;
    TokensValid(path);
    NothingListed();
    GoListed(Tokenize(path), START);
    GoListed(Tokenize(path), Close(START));
    var b := Canonical(path);
    FlatListed(b.dirs);
    ListedConcat(Flat(b.dirs), b.cur.text);
  }

  // ---------- escapes ----------

  predicate EscapeAt(s: seq<byte>, i: nat) {
    i + 2 < |s| && s[i] == PERCENT && IsHexChar(s[i + 1]) && IsHexChar(s[i + 2])
  }

  // No escape stands for a character that needs none.
  predicate NoNeedlessEscape(s: seq<byte>) {
    forall i :: 0 <= i < |s| && EscapeAt(s, i) ==> !IsUnreserved(EscapeValue(s[i + 1], s[i + 2]))
  }

  lemma NeedlessBehind(s: seq<byte>, n: nat)
    requires n <= |s| && NoNeedlessEscape(s)
    ensures NoNeedlessEscape(s[n..])
  {
    hide IsUnreserved, EscapeValue, IsHexChar;
    var t := s[n..];
    forall i | 0 <= i < |t| && EscapeAt(t, i) ensures !IsUnreserved(EscapeValue(t[i + 1], t[i + 2])) {
      assert t[i] == s[n + i] && t[i + 1] == s[n + i + 1] && t[i + 2] == s[n + i + 2];
      assert EscapeAt(s, n + i);
    }
  }

  lemma ListedBehind(s: seq<byte>, n: nat)
    requires n <= |s| && AllListed(s)
    ensures AllListed(s[n..])
  {
    hide Listed;
  }

  // The first token of a text without needless escapes is spelled as it is written.
  lemma FirstKept(s: seq<byte>)
    requires s != [] && AllListed(s) && NoNeedlessEscape(s)
    ensures var (t, n) := Lex(s);
      if t.BadPercent? then n == 1 && s[0] == PERCENT && !EscapeAt(s, 0) else RenderToken(t) == s[..n]
  {
    hide HexCharToValue;
    var (t, n) := Lex(s);
    assert Listed(s[0]);
    ClassLists(s[0]);
    assert EscapeAt(s, 0) <==> s[0] == PERCENT && IsEscape(s);
    if EscapeAt(s, 0) {
      ClassLists(EscapeValue(s[1], s[2]));
      DotEscape();
      assert s[..3] == [PERCENT, s[1], s[2]];
    }
  }

  lemma {:induction false} ReadsAsWritten(s: seq<byte>)
    requires AllListed(s) && NoNeedlessEscape(s)
    ensures Render(Tokenize(s)) == s
    decreases |s|
  {
    hide Lex, RenderToken, AllListed, NoNeedlessEscape, Tokenize;
    if s == [] {
      TokenizeNone();
    } else {
      var (t, n) := Lex(s);
      TokenizeLexed(s);
      FirstKept(s);
      NeedlessBehind(s, n);
      ListedBehind(s, n);
      ReadsAsWritten(s[n..]);
      assert ([t] + Tokenize(s[n..]))[1..] == Tokenize(s[n..]);
      assert s == s[..n] + s[n..];
      if t.BadPercent? { StrayStays(s); }
    }
  }

  lemma StrayStays(s: seq<byte>)
    requires s != [] && s[0] == PERCENT && !EscapeAt(s, 0)
    ensures StrayPercent(s[1..]) == s
  {
    assert s == [PERCENT] + s[1..];
    if |s| >= 3 { assert s[1..][0] == s[1] && s[1..][1] == s[2]; }
  }

  lemma FirstVerbatim(s: seq<byte>)
    requires s != [] && Verbatim(s) && BACKSLASH !in s
    ensures var n := Lex(s).1;
      && AllListed(s[..n]) && (EscapeAt(s, 0) ==> !IsUnreserved(EscapeValue(s[1], s[2])))
      && forall i :: 1 <= i < n ==> s[i] != PERCENT
  {
    hide HexCharToValue, IsPathPlain, AllListed;
    var (t, n) := Lex(s);
    if t.BadPercent? {
      assert s[..1] == [PERCENT];
      PercentListed();
    } else {
      TokenListed(t);
      assert s[..n][0] == s[0];
      if n == 3 { assert s[..3][1] == s[1] && s[..3][2] == s[2]; }
      if EscapeAt(s, 0) { ClassLists(EscapeValue(s[1], s[2])); }
    }
  }

  lemma PercentListed()
    ensures AllListed([PERCENT])
  {
  }

  lemma {:induction false} VerbatimText(s: seq<byte>)
    requires Verbatim(s) && BACKSLASH !in s
    ensures AllListed(s) && NoNeedlessEscape(s)
    decreases |s|
  {
    hide Lex, Listed, IsUnreserved, IsHexChar, EscapeValue;
    if s != [] {
      var n := Lex(s).1;
      FirstVerbatim(s);
      VerbatimText(s[n..]);
      assert s == s[..n] + s[n..];
      ListedConcat(s[..n], s[n..]);
      forall i | 0 <= i < |s| && EscapeAt(s, i) ensures !IsUnreserved(EscapeValue(s[i + 1], s[i + 2])) {
        if i > 0 {
          assert i >= n;
          assert s[n..][i - n] == s[i] && s[n..][i - n + 1] == s[i + 1] && s[n..][i - n + 2] == s[i + 2];
          assert EscapeAt(s[n..], i - n);
        }
      }
    }
  }

  // Reading and writing changes nothing exactly on such texts.
  lemma {:induction false} ReadsAsWrittenIff(s: seq<byte>)
    requires BACKSLASH !in s
    ensures Render(Tokenize(s)) == s <==> AllListed(s) && NoNeedlessEscape(s)
  {
    hide Render, Tokenize, Verbatim, AllListed, NoNeedlessEscape;
    if Render(Tokenize(s)) == s {
      CanonicalVerbatim(s);
      VerbatimText(s);
    }
    if AllListed(s) && NoNeedlessEscape(s) { ReadsAsWritten(s); }
  }

  // ---------- dot segments ----------

  lemma DotValue(t: Token)
    requires t.Valid()
    ensures t.Value() == DOT <==> t == Dot
  {
  }

  lemma ValuesAt(ts: seq<Token>)
    requires WellLexed(ts)
    ensures |Values(ts)| == |ts|
    ensures |ts| >= 1 ==> ts[0].Valid() && Values(ts)[0] == ts[0].Value()
    ensures |ts| >= 2 ==> ts[1].Valid() && Values(ts)[1] == ts[1].Value()
  {
    ValuesLength(ts);
    if |ts| >= 2 { assert ts[1..][0] == ts[1]; }
  }

  // A segment is "." or ".." exactly when it stands for that.
  lemma {:induction false} DotTextIff(s: seq<byte>)
    requires NoSlashes(s)
    ensures IsCurrent(Tokenize(s)) <==> PercentDecode(s) == [DOT]
    ensures IsUp(Tokenize(s)) <==> PercentDecode(s) == [DOT, DOT]
  {
    hide Tokenize, PercentDecode, SlashForm, Values;
    var ts := Tokenize(s);
    DecodeIsValues(s);
    SlashFormAlone(s);
    ValuesAt(ts);
    if |ts| >= 1 { DotValue(ts[0]); }
    if |ts| >= 2 { DotValue(ts[1]); }
    assert |ts| == 1 ==> ts == [ts[0]] && Values(ts) == [Values(ts)[0]];
    assert |ts| == 2 ==> ts == [ts[0], ts[1]] && Values(ts) == [Values(ts)[0], Values(ts)[1]];
  }

  lemma NulValue(t: Token)
    requires t.Valid()
    ensures IsNul(t) <==> t.Value() == 0
  {
  }

  lemma {:induction false} NulsAmongValues(ts: seq<Token>)
    requires WellLexed(ts)
    ensures NoNul(ts) <==> 0 !in Values(ts)
  {
    hide IsNul;
    if ts != [] {
      NulValue(ts[0]);
      NulsAmongValues(ts[1..]);
    }
  }

  // A path is accepted exactly when no NUL is in it, plain or escaped.
  lemma {:induction false} SuccessText(path: seq<byte>)
    ensures NoNul(Tokenize(path)) <==> 0 !in PercentDecode(SlashForm(path))
  {
    hide Tokenize, PercentDecode, SlashForm, Values, NoNul;
    DecodeIsValues(path);
    NulsAmongValues(Tokenize(path));
  }

  // No segment of the text stands for "." or "..".
  ghost predicate NoDotSegmentText(s: seq<byte>) {
    forall t :: t in Segments(s) ==> PercentDecode(t) != [DOT] && PercentDecode(t) != [DOT, DOT]
  }

  // The segments of a text are its tokens between slashes.
  lemma {:induction false} SegmentsAreSplit(s: seq<byte>)
    requires BACKSLASH !in s
    ensures |Split(Tokenize(s))| == |Segments(s)|
    ensures forall i :: 0 <= i < |Segments(s)| ==>
      NoSlashes(Segments(s)[i]) && Split(Tokenize(s))[i] == Tokenize(Segments(s)[i])
  {
    hide Tokenize, Split, Segments, Dirs, Flat;
    var k := SegmentStart(s);
    var dirs, cur := Dirs(s[..k]), Frame(s[k..], 0, false, false);
    DirsRooted(s[..k]);
    DirsNoBackslash(s[..k]);
    assert s == s[..k] + s[k..];
    var frames := dirs + [cur];
    assert forall i :: 0 <= i < |frames| ==> frames[i] == if i < |dirs| then dirs[i] else cur;
    TextTokens(dirs, cur);
    FrameTokens(frames);
    SplitJoin(TokensOf(frames));
    SegmentsOfText(dirs, cur);
  }

  lemma {:induction false} NoDotSegmentsIff(s: seq<byte>)
    requires BACKSLASH !in s
    ensures NoDotSegments(Tokenize(s)) <==> NoDotSegmentText(s)
  {
    hide Tokenize, Split, Segments, PercentDecode;
    SegmentsAreSplit(s);
    var texts, segs := Segments(s), Split(Tokenize(s));
    forall i | 0 <= i < |texts|
      ensures !IsCurrent(segs[i]) && !IsUp(segs[i]) <==> PercentDecode(texts[i]) != [DOT] && PercentDecode(texts[i]) != [DOT, DOT]
    {
      DotTextIff(texts[i]);
    }
    if NoDotSegmentText(s) {
      forall i | 0 <= i < |segs| ensures OneSegment(segs[i]) && !IsCurrent(segs[i]) && !IsUp(segs[i]) {
        assert texts[i] in texts;
      }
    }
  }

  // ---------- canonical paths, by their text ----------

  // The canonical paths are the rooted texts of listed characters, without needless escapes
  // and without dot segments, escaped or not.
  lemma {:induction false} CanonicalIff(s: seq<byte>)
    ensures IsCanonical(s) <==>
      s != [] && s[0] == SLASH && AllListed(s) && NoNeedlessEscape(s) && NoDotSegmentText(s)
  {
    hide Tokenize, Render, NoDotSegments, NoDotSegmentText, NoNeedlessEscape;
    if BACKSLASH in s {
      var i :| 0 <= i < |s| && s[i] == BACKSLASH;
      assert !Listed(s[i]);
    } else {
      ReadsAsWrittenIff(s);
      NoDotSegmentsIff(s);
    }
  }

  // Every output has all of that, but for the needless escapes that torn ones become.
  lemma {:induction false} OutputText(path: seq<byte>)
    ensures var b := Canonical(path);
      && AllListed(b.Text()) && NoDotSegmentText(b.Text())
      && (NoNeedlessEscape(b.Text()) <==> !Torn(b))
  {
    hide Canonical, Tokenize, Render, NoDotSegments, NoDotSegmentText, NoNeedlessEscape, AllListed, Torn, RootTokens;
    var text := Canonical(path).Text();
    OutputListed(path);
    OutputShape(path);
    OutputTokens(path);
    NoDotSegmentsIff(text);
    OutputIsCanonical(path);
    ReadsAsWrittenIff(text);
  }

  // ---------- the text of a path, outright ----------

  // Unreserved characters are unescaped, other escapes stay as they are, slashes of either
  // kind become '/', plain characters stay, and all others are escaped.
  function Written(s: seq<byte>): seq<byte>
    decreases |s|
  {
    if s == [] then []
    else if EscapeAt(s, 0) then
      (var v := EscapeValue(s[1], s[2]); if IsUnreserved(v) then [v] else s[..3]) + Written(s[3..])
    else
      (if s[0] == SLASH || s[0] == BACKSLASH then [SLASH] else if IsPathPlain(s[0]) then [s[0]] else PercentForm(s[0]))
      + Written(s[1..])
  }

  predicate NoStrayText(s: seq<byte>) {
    forall i :: 0 <= i < |s| && s[i] == PERCENT ==> EscapeAt(s, i)
  }

  lemma StrayBehind(s: seq<byte>, n: nat)
    requires n <= |s| && NoStrayText(s)
    ensures NoStrayText(s[n..])
  {
    hide IsHexChar;
    var t := s[n..];
    forall i | 0 <= i < |t| && t[i] == PERCENT ensures EscapeAt(t, i) {
      assert s[n + i] == PERCENT && EscapeAt(s, n + i);
    }
  }

  lemma FirstWritten(s: seq<byte>)
    requires s != [] && NoStrayText(s)
    ensures var (t, n) := Lex(s);
      !t.BadPercent? && Written(s) == RenderToken(t) + Written(s[n..])
  {
    hide Written;
    var (t, n) := Lex(s);
    assert s[0] == PERCENT ==> EscapeAt(s, 0);
    if EscapeAt(s, 0) {
      DotEscape();
      ClassLists(EscapeValue(s[1], s[2]));
      assert s[..3] == [PERCENT, s[1], s[2]];
      WrittenEscape(s);
    } else {
      ClassLists(s[0]);
      EscapeForm(s[0]);
      WrittenCharacter(s);
    }
  }

  lemma EscapeForm(c: byte)
    ensures Escaped(c) == PercentForm(c)
  {
  }

  lemma WrittenEscape(s: seq<byte>)
    requires EscapeAt(s, 0)
    ensures Written(s) == (var v := EscapeValue(s[1], s[2]); if IsUnreserved(v) then [v] else s[..3]) + Written(s[3..])
  {
  }

  lemma WrittenCharacter(s: seq<byte>)
    requires s != [] && !EscapeAt(s, 0)
    ensures Written(s) ==
      (if s[0] == SLASH || s[0] == BACKSLASH then [SLASH] else if IsPathPlain(s[0]) then [s[0]] else PercentForm(s[0]))
      + Written(s[1..])
  {
  }

  lemma {:induction false} RenderIsWritten(s: seq<byte>)
    requires NoStrayText(s)
    ensures NoStray(Tokenize(s)) && Render(Tokenize(s)) == Written(s)
    decreases |s|
  {
    hide Lex, RenderToken, NoStrayText, Tokenize, Written;
    if s == [] {
      TokenizeNone();
      NothingWritten();
    } else {
      var (t, n) := Lex(s);
      TokenizeLexed(s);
      FirstWritten(s);
      StrayBehind(s, n);
      RenderIsWritten(s[n..]);
      var rest := Tokenize(s[n..]);
      assert ([t] + rest)[1..] == rest;
      assert forall i :: 0 <= i < |[t] + rest| ==> ([t] + rest)[i] == if i == 0 then t else rest[i - 1];
    }
  }

  lemma NothingWritten()
    ensures Written([]) == []
  {
  }

  lemma {:induction false} TokenizeSlashForm(s: seq<byte>)
    ensures Tokenize(SlashForm(s)) == Tokenize(s)
    decreases |s|
  {
    hide Lex, Tokenize, SlashForm;
    SlashFormAt(s);
    if s == [] {
      assert SlashForm(s) == s;
    } else {
      var n := Lex(s).1;
      LexSlashForm(s);
      SlashFormDrop(s, n);
      TokenizeSlashForm(s[n..]);
      TokenizeLexed(s);
      TokenizeLexed(SlashForm(s));
    }
  }

  lemma LexSlashForm(s: seq<byte>)
    requires s != []
    ensures |SlashForm(s)| == |s| && Lex(SlashForm(s)) == Lex(s)
  {
    hide SlashForm;
    SlashFormAt(s);
    var w := SlashForm(s);
    assert w[0] == if s[0] == BACKSLASH then SLASH else s[0];
    if |s| >= 3 {
      assert w[1] == if s[1] == BACKSLASH then SLASH else s[1];
      assert w[2] == if s[2] == BACKSLASH then SLASH else s[2];
    }
  }

  lemma SlashFormClean(s: seq<byte>)
    ensures BACKSLASH !in SlashForm(s)
  {
    hide SlashForm;
    SlashFormAt(s);
  }

  // A path without dot segments in which every '%' starts an escape comes out as written here.
  lemma {:induction false} OrdinaryText(path: seq<byte>)
    requires NoDotSegmentText(SlashForm(RootText(path))) && NoStrayText(RootText(path))
    ensures Canonical(path).Text() == Written(RootText(path))
  {
    hide Canonical, Tokenize, Render, NoDotSegments, NoDotSegmentText, NoStrayText, SlashForm, RootTokens, Steady,
         RootText, Normalize, Written;
    var root := RootText(path);
    RootTextTokens(path);
    TokenizeSlashForm(root);
    SlashFormClean(root);
    NoDotSegmentsIff(SlashForm(root));
    NormalizeOrdinary(RootTokens(path));
    RenderIsWritten(root);
    QuietKinds(RootTokens(path));
    QuietPath(path);
    CanonicalIsReference(path);
  }

  lemma OneSegmentText(c: byte)
    requires c != SLASH && c != BACKSLASH && c != DOT && c != PERCENT
    ensures NoDotSegmentText([SLASH, c])
  {
    hide Segments, Flat;
    FlatOne(EMPTY);
    NothingFlat([]);
    assert Flat([EMPTY]) + [c] == [SLASH, c];
    SegmentsOfText([EMPTY], Frame([c], 0, false, false));
    assert [c][1..] == [] && PercentDecode([c]) == [c] && PercentDecode([]) == [];
  }

  // A character alone: kept if it is plain, escaped with upper-case digits if not.
  lemma {:induction false} OneCharacter(c: byte)
    requires c != SLASH && c != BACKSLASH && c != DOT && c != PERCENT
    ensures Canonical([SLASH, c]).Text() == if IsPathPlain(c) then [SLASH, c] else [SLASH] + PercentForm(c)
  {
    hide Canonical, NoDotSegmentText, SlashForm;
    var s := [SLASH, c];
    OneSegmentText(c);
    SlashFormAlone(s);
    OrdinaryText(s);
    assert s[1..] == [c] && [c][1..] == [];
    assert Written([c]) == (if IsPathPlain(c) then [c] else PercentForm(c)) + [];
  }
}
