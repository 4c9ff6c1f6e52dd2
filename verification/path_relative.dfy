/** Resolving a relative path: the base is copied up to its last slash and only the relative
    part is canonicalized. */
module PathRelative {
  import opened Bytes
  import opened PathTokens
  import opened PathSegment
  import opened PathBuffer
  import opened PathCanon
  import opened PathStale
  import opened PathSplit
  import opened PathTheorems

  // The length of s up to and including its last slash, 0 if it has none.
  function CutLength(s: seq<byte>): (k: nat)
    ensures k <= |s| && (k > 0 ==> IsURLSlash(s[k - 1]))
    ensures forall i :: k <= i < |s| ==> !IsURLSlash(s[i])
  {
    if s == [] then 0 else if IsURLSlash(s[|s| - 1]) then |s| else CutLength(s[..|s| - 1])
  }

  lemma CutUnique(s: seq<byte>, k: nat)
    requires k <= |s| && (k > 0 ==> IsURLSlash(s[k - 1])) && forall i :: k <= i < |s| ==> !IsURLSlash(s[i])
    ensures CutLength(s) == k
  {
  }

  method CopyToLastSlash(spec: seq<byte>, begin: nat, end: nat, initial: seq<byte>) returns (output: seq<byte>)
    requires begin <= end <= |spec|
    ensures output == initial + spec[begin..end][..CutLength(spec[begin..end])]
  {
    hide CutLength;
    ghost var s := spec[begin..end];
    var lastSlash := -1;
    var i := end - 1;
    while i >= begin
      invariant begin - 1 <= i < end && lastSlash == -1
      invariant forall j :: i < j < end ==> !IsURLSlash(spec[j])
    {
      if spec[i] == SLASH || spec[i] == BACKSLASH {
        lastSlash := i;
        break;
      }
      i := i - 1;
    }
    output := initial;
    CutUnique(s, if lastSlash < 0 then 0 else lastSlash + 1 - begin);
    if lastSlash < 0 {
      return;
    }
    i := begin;
    while i <= lastSlash
      invariant begin <= i <= lastSlash + 1
      invariant output == initial + s[..i - begin]
    {
      output := output + [spec[i]];
      i := i + 1;
    }
  }

  // A path that a first canonicalization left: rooted, free of dot segments, and read back
  // as itself.
  predicate IsCanonical(base: seq<byte>) {
    base != [] && base[0] == SLASH && BACKSLASH !in base
    && NoDotSegments(Tokenize(base)) && Render(Tokenize(base)) == base
  }

  lemma {:induction false} OutputIsCanonical(path: seq<byte>)
    ensures IsCanonical(Canonical(path).Text()) <==> !Torn(Canonical(path))
  {
    hide Go, Canonical, Tokenize, Render, Split, RootTokens;
    var text := Canonical(path).Text();
    OutputShape(path);
    OutputTokens(path);
    NormalizeOrdinary(Tokenize(text));
    QuietKinds(Tokenize(text));
    QuietPath(text);
    CanonicalIsReference(text);
    Idempotent(path);
  }

  // The base path up to its last slash.
  function Cut(base: seq<byte>): (p: seq<byte>)
    requires base != [] && base[0] == SLASH && BACKSLASH !in base
    ensures p != [] && p[0] == SLASH && p[|p| - 1] == SLASH && p <= base
    ensures SLASH !in base[|p|..] && p + base[|p|..] == base
  {
    var k := CutLength(base);
    assert k > 0;
    base[..k]
  }

  // The buffer of the incremental run.
  function Incremental(base: seq<byte>, rel: seq<byte>): Buffer
    requires base != [] && base[0] == SLASH && BACKSLASH !in base
  {
    Go(Tokenize(rel), Load(Cut(base)))
  }

  // The path part of DoResolveRelativePath, for a relative URL that has a path.
  method ResolvePath(base: seq<byte>, pathBegin: nat, pathEnd: nat, rel: seq<byte>, relBegin: nat, relEnd: nat)
    returns (output: seq<byte>, success: bool)
    requires pathBegin < pathEnd <= |base| && relBegin < relEnd <= |rel|
    requires base[pathBegin] == SLASH && BACKSLASH !in base[pathBegin..pathEnd]
    ensures IsURLSlash(rel[relBegin]) ==>
              output == base[..pathBegin] + Canonical(rel[relBegin..relEnd]).Text()
    ensures !IsURLSlash(rel[relBegin]) ==>
              output == base[..pathBegin] + Incremental(base[pathBegin..pathEnd], rel[relBegin..relEnd]).Text()
    ensures success == NoNul(Tokenize(rel[relBegin..relEnd]))
  {
    hide Go, Tokenize, NoNul, Canonical;
    output := base[..pathBegin];
    if IsURLSlash(rel[relBegin]) {
      var outBegin, outLen;
      output, outBegin, outLen, success := DoPath(rel, relBegin, relEnd - relBegin, output);
    } else {
      ghost var path := base[pathBegin..pathEnd];
      output := CopyToLastSlash(base, pathBegin, pathEnd, output);
      assert path[0] == SLASH;
      assert output == base[..pathBegin] + Cut(path);
      assert output[pathBegin..] == Cut(path) && output[..pathBegin] == base[..pathBegin];
      LoadRepresents(output, pathBegin);
      LoadNonempty(Cut(path));
      output, success := DoPartialPath(rel, relBegin, relEnd, pathBegin, output, Load(Cut(path)));
    }
  }

  lemma LoadNonempty(p: seq<byte>)
    requires EndsInSlash(p) && p != []
    ensures Load(p).dirs != [] && Load(p).cur == EMPTY
  {
  }

  // ---------- incremental against from scratch ----------

  // The directories of the cut base, as segments.
  lemma {:induction false} CutSegments(base: seq<byte>)
    requires IsCanonical(base)
    ensures var dirs := Dirs(Cut(base));
            && dirs != [] && dirs[0].text == [] && Matches(dirs, TokensOf(dirs)) && Ordinary(TokensOf(dirs))
  {
    hide Tokenize, Render, Split, Flat;
    var p := Cut(base);
    var dirs, cur := Dirs(p), Frame(base[|p|..], 0, false, false);
    DirsRooted(p);
    DirsNoBackslash(p);
    assert Flat(dirs) + cur.text == base;
    TextTokens(dirs, cur);
    FixedText(dirs, cur);
    var frames := dirs + [cur];
    assert forall i :: 0 <= i < |dirs| ==> frames[i] == dirs[i];
    FrameTokens(frames);
    SplitJoin(TokensOf(frames));
    assert forall i :: 0 <= i < |dirs| ==> TokensOf(dirs)[i] == TokensOf(frames)[i];
  }

  lemma {:induction false} DirsNoBackslash(p: seq<byte>)
    requires EndsInSlash(p) && BACKSLASH !in p
    ensures forall i :: 0 <= i < |Dirs(p)| ==> BACKSLASH !in Dirs(p)[i].text
    decreases |p|
  {
    hide Flat, SegmentStart;
    if p != [] {
      var t := p[..|p| - 1];
      var k := SegmentStart(t);
      DirsNoBackslash(p[..k]);
      assert Dirs(p) == Dirs(p[..k]) + [Frame(t[k..], 0, false, false)];
    }
  }

  lemma FrameTokens(frames: seq<Frame>)
    requires forall i :: 0 <= i < |frames| ==> NoSlashes(frames[i].text)
    ensures forall i :: 0 <= i < |frames| ==> OneSegment(TokensOf(frames)[i]) && WellLexed(TokensOf(frames)[i])
  {
    forall i | 0 <= i < |frames| ensures OneSegment(TokensOf(frames)[i]) && WellLexed(TokensOf(frames)[i]) {
      NoSlashTokens(frames[i].text);
      TokenizeWellLexed(frames[i].text);
    }
  }

  // The merged path is read as the segments of the cut base and the relative tokens.
  lemma {:induction false} MergedReference(base: seq<byte>, rel: seq<byte>)
    requires IsCanonical(base)
    ensures var segs := TokensOf(Dirs(Cut(base)));
            Reference(Cut(base) + rel) == Render(Join(Resolve(Tokenize(rel), segs)))
  {
    hide Tokenize, Render, Flat, Resolve, Join, NoDotSegments, Dirs, Cut, Lex;
    CutSegments(base);
    var p := Cut(base);
    var dirs, k := Dirs(p), |Dirs(p)| - 1;
    var segs := TokensOf(dirs);
    FlatLast(dirs);
    assert dirs[..k] + [dirs[k]] == dirs;
    TextTokens(dirs[..k], dirs[k]);
    var p0 := Flat(dirs[..k]) + dirs[k].text;
    TokenizeSlash(p0, SLASH, rel);
    assert (p + rel)[0] == SLASH;
    assert RootTokens(p + rel) == Join(segs) + [Slash] + Tokenize(rel);
    ResolvePrefix(segs, Tokenize(rel), []);
    assert [] + segs == segs;
  }

  lemma FlatLast(dirs: seq<Frame>)
    requires dirs != []
    ensures Flat(dirs) == Flat(dirs[..|dirs| - 1]) + dirs[|dirs| - 1].text + [SLASH]
  {
  }
}
