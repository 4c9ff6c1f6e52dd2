/** What the path canonicalizer guarantees, over every input. */
module PathTheorems {
  import opened Bytes
  import opened Escapes
  import opened PathTokens
  import opened PathSegment
  import opened PathBuffer
  import opened PathCanon
  import opened PathStale
  import opened PathSplit
  import opened PathCounts
  import PathRfc

  // The tokens of a path with the slash that DoPath supplies when there is none.
  function RootTokens(path: seq<byte>): (ts: seq<Token>)
    ensures ts != [] && ts[0].Slash? && WellLexed(ts)
  {
    TokenizeWellLexed(path);
    if path != [] && IsURLSlash(path[0]) then Tokenize(path)
    else assert ([Slash] + Tokenize(path))[1..] == Tokenize(path); [Slash] + Tokenize(path)
  }

  // The buffer when DoPath is done.
  function Canonical(path: seq<byte>): Buffer {
    Go(Tokenize(path), if path != [] && IsURLSlash(path[0]) then START else Close(START))
  }

  // The specification: dot segments removed, then rendered.
  function Reference(path: seq<byte>): seq<byte> {
    Render(Normalize(RootTokens(path)))
  }

  // The repairs made at an index that named no '%' and that were not rewound again.
  function StaleRepairs(b: Buffer): nat {
    Hits(b.Frames())
  }

  // An empty or missing path has a length of zero or less.
  method DoPath(spec: seq<byte>, begin: nat, len: int, initial: seq<byte>)
    returns (output: seq<byte>, outBegin: nat, outLen: int, success: bool)
    requires len > 0 ==> begin + len <= |spec|
    ensures len > 0 ==> output == initial + Canonical(spec[begin..begin + len]).Text()
    ensures len > 0 ==> success == NoNul(Tokenize(spec[begin..begin + len]))
    ensures len <= 0 ==> output == initial + Canonical([]).Text() && success
    ensures outBegin == |initial| && outLen == |output| - |initial|
  {
    hide Go, Tokenize, NoNul;
    outBegin, output := |initial|, initial;
    if len > 0 {
      ghost var soFar := START;
      if !IsURLSlash(spec[begin]) {
        output, soFar := output + [SLASH], Close(START);
      }
      assert output[..outBegin] == initial;
      StartText();
      output, success := DoPartialPath(spec, begin, begin + len, outBegin, output, soFar);
    } else {
      StartText();
      output, success := output + [SLASH], true;
    }
    outLen := |output| - outBegin;
  }

  lemma StartText()
    ensures START.Text() == [] && Close(START).Text() == [SLASH] == Canonical([]).Text()
  {
  }

  // With or without the supplied slash, the run is that of the rooted tokens.
  lemma CanonicalRun(path: seq<byte>)
    ensures Canonical(path) == Go(RootTokens(path), START)
  {
    if path == [] || !IsURLSlash(path[0]) {
      assert RootTokens(path)[1..] == Tokenize(path);
    }
  }

  // ---------- refinement ----------

  // The exact behaviour: the output is the specified text, longer by two characters for
  // every stale repair that survives.
  lemma {:induction false} CanonicalIsReference(path: seq<byte>)
    ensures var b := Canonical(path);
            && |b.Text()| == |Reference(path)| + 2 * StaleRepairs(b)
            && (b.Text() == Reference(path) <==> StaleRepairs(b) == 0)
  {
    hide Go, Resolve, Render, Tokenize, WellLexed, RootTokens, Canonical;
    CanonicalRun(path);
    GoResolve(RootTokens(path), START, []);
    var b := Canonical(path);
    MatchedText(b.dirs, b.cur, Resolve(RootTokens(path), []));
  }

  // The specification removes dot segments as the RFC describes.
  lemma {:induction false} ReferenceIsRfc(path: seq<byte>)
    ensures Reference(path) == Render(PathRfc.RemoveDotSegments(RootTokens(path), []))
  {
    PathRfc.NormalizeIsRfc(RootTokens(path));
  }

  // No stale repair can happen unless a ".." stands behind a segment with a stray '%'.
  lemma {:induction false} QuietPath(path: seq<byte>)
    requires Steady(RootTokens(path))
    ensures StaleRepairs(Canonical(path)) == 0
  {
    hide Go, RootTokens;
    CanonicalRun(path);
    GoQuiet(RootTokens(path), START);
  }

  // ---------- meaning ----------

  // The text of a path with the slash that DoPath supplies.
  function RootText(path: seq<byte>): seq<byte> {
    if path != [] && IsURLSlash(path[0]) then path else [SLASH] + path
  }

  lemma RootTextTokens(path: seq<byte>)
    ensures Tokenize(RootText(path)) == RootTokens(path)
  {
    if path == [] || !IsURLSlash(path[0]) {
      var w := [SLASH] + path;
      assert Lex(w) == (Slash, 1) && w[1..] == path;
    }
  }

  lemma {:induction false} ValuesLength(ts: seq<Token>)
    requires WellLexed(ts)
    ensures |Values(ts)| == |ts|
  {
    if ts != [] { ValuesLength(ts[1..]); }
  }

  lemma OutputLength(path: seq<byte>)
    ensures var b := Canonical(path);
      |Tokenize(b.Text())| == |Normalize(RootTokens(path))| + 2 * StaleRepairs(b)
  {
    hide Go, Tokenize, RootTokens, Canonical, Resolve, Flat;
    CanonicalRun(path);
    GoCounted(RootTokens(path), START, []);
    var b := Canonical(path);
    CountedText(b.dirs, b.cur, Resolve(RootTokens(path), []));
  }

  // What remains after removing dot segments stands for the same bytes as in the input,
  // exactly when no stale repair survives; each one that does adds two bytes.
  lemma {:induction false} MeaningOfRest(path: seq<byte>)
    ensures WellLexed(Normalize(RootTokens(path)))
    ensures var b, values := Canonical(path), Values(Normalize(RootTokens(path)));
      && |PercentDecode(b.Text())| == |values| + 2 * StaleRepairs(b)
      && (PercentDecode(b.Text()) == values <==> StaleRepairs(b) == 0)
  {
    hide Go, Resolve, Render, Tokenize, WellLexed, RootTokens, Canonical, PercentDecode, Values, Normalize;
    var b := Canonical(path);
    NormalizeWellLexed(path);
    OutputShape(path);
    SlashFormAlone(b.Text());
    DecodeIsValues(b.Text());
    ValuesLength(Tokenize(b.Text()));
    ValuesLength(Normalize(RootTokens(path)));
    OutputLength(path);
    CanonicalIsReference(path);
    RenderMeaning(Normalize(RootTokens(path)));
  }

  lemma NormalizeWellLexed(path: seq<byte>)
    ensures WellLexed(Normalize(RootTokens(path)))
  {
    hide Go, Resolve, Render, Tokenize, WellLexed, RootTokens, Canonical;
    CanonicalRun(path);
    GoResolve(RootTokens(path), START, []);
    var b := Canonical(path);
    MatchedText(b.dirs, b.cur, Resolve(RootTokens(path), []));
  }

  // A path without dot segments keeps its meaning: percent-decoding the output gives what
  // percent-decoding the input gives.
  lemma {:induction false} MeaningKept(path: seq<byte>)
    requires NoDotSegments(RootTokens(path))
    ensures PercentDecode(Canonical(path).Text()) == PercentDecode(SlashForm(RootText(path)))
  {
    hide Go, Resolve, Render, Tokenize, WellLexed, Canonical, PercentDecode, Split, RootTokens;
    NormalizeOrdinary(RootTokens(path));
    QuietKinds(RootTokens(path));
    QuietPath(path);
    MeaningOfRest(path);
    RootTextTokens(path);
    DecodeIsValues(RootText(path));
  }

  // ---------- shape of every output ----------

  // The segments of a text, between its slashes.
  function Segments(s: seq<byte>): seq<seq<byte>>
    decreases |s|
  {
    var k := SegmentStart(s);
    if k == 0 then [s] else Segments(s[..k - 1]) + [s[k..]]
  }

  lemma {:induction false} SegmentsOfText(dirs: seq<Frame>, cur: Frame)
    requires forall i :: 0 <= i < |dirs| ==> NoSlashes(dirs[i].text)
    requires NoSlashes(cur.text)
    ensures var segs := Segments(Flat(dirs) + cur.text);
            |segs| == |dirs| + 1 && forall i :: 0 <= i < |segs| ==> segs[i] == (dirs + [cur])[i].text
    decreases |dirs|
  {
    var s, k := Flat(dirs) + cur.text, |dirs|;
    StartOfLast(Flat(dirs), cur.text);
    if k > 0 {
      var init, last := dirs[..k - 1], dirs[k - 1];
      assert s[..|Flat(dirs)| - 1] == Flat(init) + last.text;
      assert init + [last] == dirs;
      SegmentsOfText(init, last);
    }
  }

  lemma {:induction false} StartOfLast(p: seq<byte>, d: seq<byte>)
    requires EndsInSlash(p) && SLASH !in d
    ensures SegmentStart(p + d) == |p| && (p + d)[|p|..] == d
  {
    if d == [] {
      assert p + d == p;
    } else {
      assert (p + d)[..|p + d| - 1] == p + d[..|d| - 1];
      StartOfLast(p, d[..|d| - 1]);
    }
  }

  lemma CanonicalGood(path: seq<byte>)
    ensures Good(Canonical(path)) && Canonical(path).dirs != []
  {
    hide Go, RootTokens, Canonical, Readable;
    CanonicalRun(path);
    EmptyReadable();
    GoGood(RootTokens(path), START);
  }

  // Whatever the input and whatever was repaired where: the output starts with a slash, has
  // no backslash, and none of its segments is a dot segment, escaped or not.
  lemma {:induction false} OutputShape(path: seq<byte>)
    ensures var text := Canonical(path).Text();
            && text != [] && text[0] == SLASH && BACKSLASH !in text
            && forall s :: s in Segments(text) ==>
                 SLASH !in s && s != [DOT] && s != [DOT, DOT] && !IsCurrent(Tokenize(s)) && !IsUp(Tokenize(s))
  {
    hide Go, RootTokens, Canonical, Tokenize, Segments;
    CanonicalGood(path);
    var b := Canonical(path);
    assert forall i :: 0 <= i < |b.dirs| ==> b.dirs[i] == b.Frames()[i];
    assert b.cur == b.Frames()[|b.dirs|];
    SegmentsOfText(b.dirs, b.cur);
    FlatShape(b.dirs);
    DotTokens();
  }

  lemma {:induction false} FlatShape(dirs: seq<Frame>)
    requires forall i :: 0 <= i < |dirs| ==> NoSlashes(dirs[i].text)
    ensures BACKSLASH !in Flat(dirs)
    ensures dirs != [] && dirs[0].text == [] ==> Flat(dirs) != [] && Flat(dirs)[0] == SLASH
  {
    if dirs != [] { FlatShape(dirs[..|dirs| - 1]); }
  }

  lemma DotTokens()
    ensures Tokenize([DOT]) == [Dot] && Tokenize([DOT, DOT]) == [Dot, Dot]
  {
    assert [DOT][1..] == [] && [DOT, DOT][1..] == [DOT];
  }

  // ---------- running it again ----------

  ghost predicate Torn(b: Buffer) {
    exists i :: 0 <= i < |b.Frames()| && b.Frames()[i].torn
  }

  // The output reads as a rooted path without dot segments.
  lemma {:induction false} OutputTokens(path: seq<byte>)
    ensures var text := Canonical(path).Text();
            RootTokens(text) == Tokenize(text) && NoDotSegments(Tokenize(text))
  {
    hide Go, Canonical, Tokenize, Split;
    CanonicalGood(path);
    OutputShape(path);
    var b := Canonical(path);
    var segs := TokensOf(b.Frames());
    TextTokens(b.dirs, b.cur);
    SplitJoin(segs);
  }

  // Canonicalizing the output again leaves it alone exactly when no surviving stale repair
  // tore an escape.
  lemma {:induction false} Idempotent(path: seq<byte>)
    ensures var b := Canonical(path);
            && (Canonical(b.Text()).Text() == b.Text() <==> !Torn(b))
            && (StaleRepairs(b) == 0 ==> !Torn(b))
  {
    hide Go, Canonical, Tokenize, Render, RootTokens, Split, Flat;
    var b := Canonical(path);
    var text := b.Text();
    OutputTokens(path);
    NormalizeOrdinary(Tokenize(text));
    QuietKinds(Tokenize(text));
    QuietPath(text);
    CanonicalIsReference(text);
    CanonicalGood(path);
    assert forall i :: 0 <= i < |b.dirs| ==> b.dirs[i] == b.Frames()[i];
    assert b.cur == b.Frames()[|b.dirs|];
    FixedText(b.dirs, b.cur);
    if StaleRepairs(b) == 0 { NoHits(b.Frames()); }
  }

  lemma {:induction false} NoHits(frames: seq<Frame>)
    requires Hits(frames) == 0
    ensures forall i :: 0 <= i < |frames| ==> frames[i].hits == 0
  {
    if frames != [] { NoHits(frames[..|frames| - 1]); }
  }
}
