/** Resolving a relative path against canonicalizing the merged path. */
module PathMerge {
  import opened Bytes
  import opened Escapes
  import opened PathTokens
  import opened PathSegment
  import opened PathBuffer
  import opened PathCanon
  import opened PathStale
  import opened PathSplit
  import opened PathTheorems
  import opened PathRelative

  // ---------- the last stray '%' of a text ----------

  // The last index at which a '%' starts no escape.
  function LastStray(s: seq<byte>): (m: int)
    ensures m == INT_MIN || (0 <= m < |s| && s[m] == PERCENT)
  {
    if s == [] then INT_MIN
    else
      var k := LastStray(s[1..]);
      if k != INT_MIN then k + 1 else if s[0] == PERCENT && !IsEscape(s) then 0 else INT_MIN
  }

  function Shifted(m: int, n: nat, none: int): int {
    if m == INT_MIN then none else m + n
  }

  lemma LastStrayLex(s: seq<byte>)
    requires s != []
    ensures var (t, n) := Lex(s); LastStray(s) == Shifted(LastStray(s[n..]), n, if t.BadPercent? then 0 else INT_MIN)
  {
    var n := Lex(s).1;
    if n == 3 {
      assert s[1..][1..] == s[2..] && s[2..][1..] == s[3..];
      assert s[1..][0] == s[1] && s[2..][0] == s[2];
      assert LastStray(s[2..]) == Shifted(LastStray(s[3..]), 1, INT_MIN);
      assert LastStray(s[1..]) == Shifted(LastStray(s[2..]), 1, INT_MIN);
    }
  }

  lemma {:induction false} LastStrayTokens(s: seq<byte>)
    ensures LastStray(s) == INT_MIN <==> NoStray(Tokenize(s))
    decreases |s|
  {
    hide LastStray, Lex;
    if s == [] {
      NothingStray();
    } else {
      LastStrayLex(s);
      LastStrayTokens(s[Lex(s).1..]);
      var ts, rest := Tokenize(s), Tokenize(s[Lex(s).1..]);
      assert ts == [Lex(s).0] + rest && ts[0] == Lex(s).0;
      assert forall i :: 0 <= i < |rest| ==> rest[i] == ts[i + 1];
    }
  }

  lemma NothingStray()
    ensures LastStray([]) == INT_MIN
  {
  }

  // Behind a slash nothing changes what is stray in front of it.
  lemma {:induction false} LastStrayAppend(p: seq<byte>, t: seq<byte>)
    requires EndsInSlash(p)
    ensures LastStray(p + t) == Shifted(LastStray(t), |p|, LastStray(p))
  {
    if p == [] {
      assert p + t == t;
    } else {
      assert (p + t)[1..] == p[1..] + t;
      LastStrayAppend(p[1..], t);
      EscapeBehindSlash(p, t);
    }
  }

  lemma EscapeBehindSlash(p: seq<byte>, t: seq<byte>)
    requires p != [] && EndsInSlash(p)
    ensures p[0] == PERCENT ==> IsEscape(p + t) == IsEscape(p)
  {
    assert |p| == 2 ==> (p + t)[1] == SLASH;
  }

  lemma {:induction false} LastStrayClose(t: seq<byte>)
    ensures LastStray(t + [SLASH]) == LastStray(t)
  {
    if t == [] {
      assert t + [SLASH] == [SLASH] && [SLASH][1..] == [];
    } else {
      assert (t + [SLASH])[1..] == t[1..] + [SLASH];
      LastStrayClose(t[1..]);
    }
  }

  // ---------- writing canonical text ----------

  // Every token is spelled as it is written.
  predicate Verbatim(s: seq<byte>) {
    s == [] ||
    var (t, n) := Lex(s);
    !t.Unescaped? && (t.BadPercent? || RenderToken(t) == s[..n]) && Verbatim(s[n..])
  }

  lemma {:induction false} CanonicalVerbatim(s: seq<byte>)
    requires Render(Tokenize(s)) == s
    ensures Verbatim(s)
    decreases |s|
  {
    if s != [] {
      var (t, n) := Lex(s);
      var rest := Render(Tokenize(s[n..]));
      assert Tokenize(s) == [t] + Tokenize(s[n..]);
      if t.BadPercent? {
        assert s == StrayPercent(rest);
        assert rest == s[1..];
      } else {
        assert s == RenderToken(t) + rest;
        FirstSpelled(s, rest);
        Parts(RenderToken(t), rest);
      }
      CanonicalVerbatim(s[n..]);
    }
  }

  lemma FirstSpelled(s: seq<byte>, rest: seq<byte>)
    requires s != [] && !Lex(s).0.BadPercent? && s == RenderToken(Lex(s).0) + rest
    ensures !Lex(s).0.Unescaped? && |RenderToken(Lex(s).0)| == Lex(s).1
  {
    assert s[0] == RenderToken(Lex(s).0)[0];
  }

  lemma PutVerbatim(s: seq<byte>, f: Frame, r: int, nextHex: bool)
    requires s != [] && Verbatim(s) && !Lex(s).0.Slash?
    ensures var (t, n) := Lex(s);
      Put(f, r, t, nextHex) == (f.(text := f.text + s[..n]), if t.BadPercent? then |f.text| else r)
  {
    hide Lex;
    if Lex(s).0.BadPercent? { StrayIsOne(s); }
  }

  lemma FillFirst(t: Token, ts: seq<Token>, f: Frame, r: int)
    requires OneSegment([t] + ts) && OneSegment(ts) && !t.Slash?
    ensures var p := Put(f, r, t, NextHex(ts)); Fill([t] + ts, f, r) == Fill(ts, p.0, p.1)
  {
    hide Put;
    assert ([t] + ts)[1..] == ts;
  }

  lemma {:induction false} FillVerbatim(s: seq<byte>, f: Frame, r: int)
    requires Verbatim(s) && OneSegment(Tokenize(s))
    ensures Fill(Tokenize(s), f, r) == (f.(text := f.text + s), Shifted(LastStray(s), |f.text|, r))
    decreases |s|
  {
    hide LastStray, Lex, Put, Fill, Tokenize;
    if s == [] {
      NothingStray();
      TokenizeNone();
      FillNone(f, r);
      assert f.text + s == f.text;
    } else {
      var (t, n) := Lex(s);
      var ts, rest := Tokenize(s), Tokenize(s[n..]);
      TokenizeLexed(s);
      assert t == ts[0] && forall i :: 0 <= i < |rest| ==> rest[i] == ts[i + 1];
      LastStrayLex(s);
      FillFirst(t, rest, f, r);
      PutVerbatim(s, f, r, NextHex(rest));
      FillVerbatim(s[n..], f.(text := f.text + s[..n]), if t.BadPercent? then |f.text| else r);
      Assoc(f.text, s[..n], s[n..]);
      assert s[..n] + s[n..] == s;
    }
  }

  lemma StrayIsOne(s: seq<byte>)
    requires s != [] && Lex(s).0.BadPercent?
    ensures Lex(s).1 == 1 && s[..1] == [PERCENT]
  {
  }

  // ---------- the merged run ----------

  predicate Settled(f: Frame) {
    && f == Frame(f.text, 0, false, false) && Verbatim(f.text)
    && OneSegment(Tokenize(f.text)) && !IsCurrent(Tokenize(f.text)) && !IsUp(Tokenize(f.text))
  }

  // The buffer that the text of the directories leaves.
  function After(dirs: seq<Frame>): Buffer {
    Buffer(dirs, EMPTY, LastStray(Flat(dirs)))
  }

  lemma StrayOfAll(p: seq<byte>, t: seq<byte>)
    requires EndsInSlash(p)
    ensures LastStray(p + t + [SLASH]) == Shifted(LastStray(t), |p|, LastStray(p))
  {
    hide LastStray;
    Assoc(p, t, [SLASH]);
    LastStrayAppend(p, t + [SLASH]);
    LastStrayClose(t);
  }

  lemma WriteFrame(done: seq<Frame>, f: Frame)
    requires Settled(f)
    ensures Close(FillBuffer(Tokenize(f.text), After(done))) == After(done + [f])
  {
    hide LastStray, Tokenize, Verbatim, Flat, Fill, EndsInSlash, IsCurrent, IsUp, HexCharToValue, Lex;
    var start := Flat(done);
    FlatSlash(done);
    FillVerbatim(f.text, EMPTY, LastStray(start) - |start|);
    assert [] + f.text == f.text;
    FlatAppend(done, f);
    StrayOfAll(start, f.text);
  }

  lemma FlatSlash(dirs: seq<Frame>)
    ensures EndsInSlash(Flat(dirs))
  {
  }

  lemma {:induction false} FlatFront(f: Frame, more: seq<Frame>)
    ensures Flat([f] + more) == f.text + [SLASH] + Flat(more)
    decreases |more|
  {
    hide Flat;
    if more == [] {
      FlatOne(f);
      assert [f] + more == [f];
    } else {
      var k := |more| - 1;
      var init, last := more[..k], more[k];
      assert more == init + [last];
      Assoc([f], init, [last]);
      FlatAppend([f] + init, last);
      FlatAppend(init, last);
      FlatFront(f, init);
      Assoc(f.text + [SLASH], Flat(init), last.text);
      Assoc(f.text + [SLASH], Flat(init) + last.text, [SLASH]);
    }
  }

  lemma FlatOne(f: Frame)
    ensures Flat([f]) == f.text + [SLASH] + Flat([])
  {
    FlatAppend([], f);
    assert [] + [f] == [f] && [] + f.text == f.text && f.text + [SLASH] + [] == f.text + [SLASH];
  }

  lemma {:induction false} GoFrames(done: seq<Frame>, more: seq<Frame>, rel: seq<byte>)
    requires forall i :: 0 <= i < |more| ==> Settled(more[i])
    ensures Go(Tokenize(Flat(more) + rel), After(done)) == Go(Tokenize(rel), After(done + more))
    decreases |more|
  {
    hide Go, Tokenize, Settled, LastStray, FillBuffer, After;
    if more == [] {
      NothingFlat(rel);
      assert done + more == done;
    } else {
      var f, rest := more[0], more[1..];
      var seg, tail := Tokenize(f.text), Tokenize(Flat(rest) + rel);
      assert more == [f] + rest;
      FlatFront(f, rest);
      Assoc(f.text + [SLASH], Flat(rest), rel);
      TokenizeSlash(f.text, SLASH, Flat(rest) + rel);
      Assoc(seg, [Slash], tail);
      SettledSegment(f);
      GoOrdinary(seg, [Slash] + tail, After(done));
      GoSlash([Slash] + tail, FillBuffer(seg, After(done)));
      WriteFrame(done, f);
      GoFrames(done + [f], rest, rel);
      Assoc(done, [f], rest);
    }
  }

  lemma NothingFlat(rel: seq<byte>)
    ensures Flat([]) + rel == rel
  {
  }

  lemma SettledSegment(f: Frame)
    requires Settled(f)
    ensures var seg := Tokenize(f.text); OneSegment(seg) && !IsCurrent(seg) && !IsUp(seg)
  {
  }

  lemma BaseSettled(base: seq<byte>)
    requires IsCanonical(base)
    ensures forall i :: 0 <= i < |Dirs(Cut(base))| ==> Settled(Dirs(Cut(base))[i])
  {
    hide Tokenize, Render, Dirs, Cut, NoDotSegments, Verbatim;
    CutSegments(base);
    var dirs := Dirs(Cut(base));
    DirsRooted(Cut(base));
    forall i | 0 <= i < |dirs| ensures Settled(dirs[i]) {
      assert Meets(dirs[i], 0, Render(TokensOf(dirs)[i]));
      CanonicalVerbatim(dirs[i].text);
    }
  }

  // The run on the merged path goes on from the directories of the base as the incremental
  // run does, but remembers the last stray '%' in them.
  lemma {:induction false} MergedRun(base: seq<byte>, rel: seq<byte>)
    requires IsCanonical(base)
    ensures Canonical(Cut(base) + rel) == Go(Tokenize(rel), Load(Cut(base)).(marker := LastStray(Cut(base))))
  {
    hide Go, Tokenize, Dirs, Cut, NoDotSegments, Settled, LastStray, Render;
    var p := Cut(base);
    BaseSettled(base);
    GoFrames([], Dirs(p), rel);
    assert [] + Dirs(p) == Dirs(p);
    NothingStray();
    assert (p + rel)[0] == SLASH;
    assert After([]) == START;
  }

  // ---------- when the two agree ----------

  lemma LoadGood(base: seq<byte>, m: int)
    requires IsCanonical(base)
    ensures Load(Cut(base)).dirs != [] && Good(Load(Cut(base)).(marker := m))
  {
    hide Tokenize, Render, Dirs, Cut, NoDotSegments, Readable;
    var p := Cut(base);
    var dirs, b := Dirs(p), Load(p).(marker := m);
    CutSegments(base);
    DirsRooted(p);
    DirsNoBackslash(p);
    EmptyReadable();
    forall i | 0 <= i < |dirs| ensures Readable(dirs[i]) {
      assert Meets(dirs[i], 0, Render(TokensOf(dirs)[i]));
      ReadsItself(dirs[i]);
    }
    assert forall i :: 0 <= i < |b.Frames()| ==> b.Frames()[i] == if i < |dirs| then dirs[i] else EMPTY;
  }

  lemma ReadsItself(f: Frame)
    requires !f.torn && Render(Tokenize(f.text)) == f.text
    requires OneSegment(Tokenize(f.text)) && !IsCurrent(Tokenize(f.text)) && !IsUp(Tokenize(f.text))
    ensures Readable(f)
  {
  }

  // A run from the directories of the base, whatever index is remembered.
  lemma RunFromBase(base: seq<byte>, rel: seq<byte>, m: int)
    requires IsCanonical(base)
    ensures var b := Go(Tokenize(rel), Load(Cut(base)).(marker := m));
      && Matches(b.Frames(), Resolve(Tokenize(rel), TokensOf(Dirs(Cut(base)))))
      && |b.Text()| == |Reference(Cut(base) + rel)| + 2 * StaleRepairs(b)
      && (StaleRepairs(b) == 0 ==> b.Text() == Reference(Cut(base) + rel))
      && forall k :: 0 <= k < |b.Frames()| ==> NoSlashes(b.Frames()[k].text)
  {
    hide Go, Tokenize, Render, Resolve, Reference, NoDotSegments, Dirs, Cut, Readable;
    var p := Cut(base);
    var segs, from := TokensOf(Dirs(p)), Load(p).(marker := m);
    CutSegments(base);
    TokenizeWellLexed(rel);
    GoResolve(Tokenize(rel), from, segs);
    var b := Go(Tokenize(rel), from);
    MatchedText(b.dirs, b.cur, Resolve(Tokenize(rel), segs));
    MergedReference(base, rel);
    LoadGood(base, m);
    GoGood(Tokenize(rel), from);
  }

  ghost predicate SameTexts(a: seq<Frame>, b: seq<Frame>) {
    |a| == |b| && forall k :: 0 <= k < |a| ==> a[k].text == b[k].text
  }

  lemma {:induction false} FlatSame(a: seq<Frame>, b: seq<Frame>)
    requires SameTexts(a, b)
    ensures Flat(a) == Flat(b)
  {
    if a != [] { FlatSame(a[..|a| - 1], b[..|b| - 1]); }
  }

  // Texts are the same exactly when they are the same segment by segment.
  lemma SameSegments(a: Buffer, b: Buffer)
    requires forall k :: 0 <= k < |a.Frames()| ==> NoSlashes(a.Frames()[k].text)
    requires forall k :: 0 <= k < |b.Frames()| ==> NoSlashes(b.Frames()[k].text)
    ensures a.Text() == b.Text() <==> SameTexts(a.Frames(), b.Frames())
  {
    hide Flat, Segments;
    assert forall k :: 0 <= k < |a.dirs| ==> a.dirs[k] == a.Frames()[k];
    assert forall k :: 0 <= k < |b.dirs| ==> b.dirs[k] == b.Frames()[k];
    assert a.cur == a.Frames()[|a.dirs|] && b.cur == b.Frames()[|b.dirs|];
    SegmentsOfText(a.dirs, a.cur);
    SegmentsOfText(b.dirs, b.cur);
    if SameTexts(a.Frames(), b.Frames()) { FlatSame(a.dirs, b.dirs); }
  }

  // Both the incremental run and the run on the merged path give the reference text of the
  // merged path, each up to its own stale repairs.  So when one of them has none, they agree
  // exactly when the other has none; and whenever they agree, they repaired the same segments.
  lemma {:induction false} MergeLaw(base: seq<byte>, rel: seq<byte>)
    requires IsCanonical(base)
    ensures var i, s := Incremental(base, rel), Canonical(Cut(base) + rel);
      && (i.Text() == Reference(Cut(base) + rel) <==> StaleRepairs(i) == 0)
      && (StaleRepairs(i) == 0 ==> (i.Text() == s.Text() <==> StaleRepairs(s) == 0))
      && (StaleRepairs(s) == 0 ==> (i.Text() == s.Text() <==> StaleRepairs(i) == 0))
      && (i.Text() == s.Text() <==> SameTexts(i.Frames(), s.Frames()))
      && |i.Frames()| == |s.Frames()|
      && (i.Text() == s.Text() ==> forall k :: 0 <= k < |i.Frames()| ==> i.Frames()[k].hits == s.Frames()[k].hits)
  {
    hide Go, Tokenize, Render, Resolve, Canonical, Reference, NoDotSegments, Dirs, Cut, Flat, LastStray, NoSlashes;
    var p := Cut(base);
    var i, s := Incremental(base, rel), Canonical(p + rel);
    MergedRun(base, rel);
    RunFromBase(base, rel, INT_MIN);
    assert Load(p).(marker := INT_MIN) == Load(p);
    RunFromBase(base, rel, LastStray(p));
    SameSegments(i, s);
  }

  // Without a stray '%' in the directories of the base, the two runs are the same.
  lemma {:induction false} StrayFreeBaseAgrees(base: seq<byte>, rel: seq<byte>)
    requires IsCanonical(base) && NoStray(Tokenize(Cut(base)))
    ensures Incremental(base, rel) == Canonical(Cut(base) + rel)
  {
    hide Go, Tokenize, Dirs, Cut, LastStray, NoDotSegments, Render;
    MergedRun(base, rel);
    LastStrayTokens(Cut(base));
  }

  lemma {:induction false} ZeroHits(frames: seq<Frame>)
    requires forall i :: 0 <= i < |frames| ==> frames[i].hits == 0
    ensures Hits(frames) == 0
  {
    if frames != [] { ZeroHits(frames[..|frames| - 1]); }
  }

  lemma BaseHitFree(base: seq<byte>)
    requires IsCanonical(base)
    ensures Load(Cut(base)).dirs != [] && Hits(Load(Cut(base)).dirs) == 0
  {
    hide Dirs, Cut, NoDotSegments, Render, Tokenize;
    CutSegments(base);
    DirsRooted(Cut(base));
    ZeroHits(Dirs(Cut(base)));
  }

  // With no ".." behind a stray '%' in the relative path, resolving makes no stale repair,
  // so it agrees with the merged run exactly when that makes none either.
  lemma {:induction false} SteadyMergeIff(base: seq<byte>, rel: seq<byte>)
    requires IsCanonical(base) && Steady(Tokenize(rel))
    ensures Incremental(base, rel).Text() == Reference(Cut(base) + rel)
    ensures Incremental(base, rel).Text() == Canonical(Cut(base) + rel).Text()
       <==> StaleRepairs(Canonical(Cut(base) + rel)) == 0
  {
    hide Go, Tokenize, Dirs, Cut, NoDotSegments, Render, Canonical, Reference, Hits, Steady;
    BaseHitFree(base);
    GoQuiet(Tokenize(rel), Load(Cut(base)));
    MergeLaw(base, rel);
  }

  // Without ".." in the relative path, both give the reference text.
  lemma {:induction false} NoUpAgrees(base: seq<byte>, rel: seq<byte>)
    requires IsCanonical(base) && NoUp(Tokenize(rel))
    ensures Incremental(base, rel).Text() == Canonical(Cut(base) + rel).Text() == Reference(Cut(base) + rel)
  {
    hide Go, Tokenize, Dirs, NoDotSegments, Render, Canonical, Reference, Hits, Steady, LastStray;
    var p := Cut(base);
    BaseHitFree(base);
    QuietKinds(Tokenize(rel));
    MergedRun(base, rel);
    assert p[|p| - 1] == SLASH;
    assert LastStray(p) <= |p| - 2;
    GoQuiet(Tokenize(rel), Load(p).(marker := LastStray(p)));
    SteadyMergeIff(base, rel);
  }

  // ---------- a relative path that tells them apart ----------

  function Ups(n: nat): seq<byte> {
    if n == 0 then [] else [DOT, DOT] + [SLASH] + Ups(n - 1)
  }

  function Popped<T>(s: seq<T>, n: nat): seq<T> {
    if n == 0 then s else Popped(Pop(s), n - 1)
  }

  lemma {:induction false} PoppedToRoot<T>(s: seq<T>, n: nat)
    requires s != [] && n + 1 >= |s|
    ensures Popped(s, n) == s[..1]
    decreases n
  {
    if n == 0 {
      assert s[..1] == s;
    } else {
      PoppedToRoot(Pop(s), n - 1);
    }
  }

  lemma {:induction false} GoUps(n: nat, y: seq<byte>, b: Buffer)
    requires b.dirs != [] && b.cur == EMPTY
    ensures Go(Tokenize(Ups(n) + y), b) == Go(Tokenize(y), b.(dirs := Popped(b.dirs, n)))
    ensures NoStray(Tokenize(y)) ==> NoStray(Tokenize(Ups(n) + y))
    decreases n
  {
    hide Go, Tokenize;
    if n == 0 {
      assert Ups(n) + y == y;
    } else {
      var rest := Ups(n - 1) + y;
      var tail := Tokenize(rest);
      Assoc([DOT, DOT] + [SLASH], Ups(n - 1), y);
      TokenizeSlash([DOT, DOT], SLASH, rest);
      DotTokens();
      Assoc([Dot, Dot], [Slash], tail);
      GoDirectory([Dot, Dot], [Slash] + tail, b);
      assert ([Slash] + tail)[1..] == tail;
      GoUps(n - 1, y, b.(dirs := Pop(b.dirs)));
    }
  }

  const X: byte := 0x78
  const A: byte := 0x41

  function Xs(m: nat): seq<byte> {
    seq(m, _ => X)
  }

  // m times 'x', then "A%41".
  function Probe(m: nat): seq<byte> {
    if m == 0 then [A, PERCENT, 0x34, 0x31] else [X] + Probe(m - 1)
  }

  function ProbeTokens(m: nat): seq<Token> {
    if m == 0 then [Raw(A), Unescaped(A)] else [Raw(X)] + ProbeTokens(m - 1)
  }

  lemma {:induction false} TokenizeProbe(m: nat, y: seq<byte>)
    ensures Tokenize(Probe(m) + y) == ProbeTokens(m) + Tokenize(y)
  {
    hide Tokenize, Lex;
    var s := Probe(m) + y;
    TokenizeLexed(s);
    if m == 0 {
      LexProbe(y);
      var rest := [PERCENT, 0x34, 0x31] + y;
      assert s == [A] + rest && s[1..] == rest && rest[3..] == y;
      TokenizeLexed(rest);
    } else {
      LexX(Probe(m - 1) + y);
      assert s == [X] + (Probe(m - 1) + y) && s[1..] == Probe(m - 1) + y;
      TokenizeProbe(m - 1, y);
    }
  }

  lemma LexX(y: seq<byte>)
    ensures Lex([X] + y) == (Raw(X), 1)
  {
  }

  lemma LexProbe(y: seq<byte>)
    ensures Lex([A] + ([PERCENT, 0x34, 0x31] + y)) == (Raw(A), 1)
    ensures Lex([PERCENT, 0x34, 0x31] + y) == (Unescaped(A), 3)
  {
  }

  lemma {:induction false} ProbeSegment(m: nat)
    ensures OneSegment(ProbeTokens(m)) && NoStray(ProbeTokens(m)) && |ProbeTokens(m)| == m + 2
    ensures ProbeTokens(m)[0].Raw?
  {
    if m > 0 { ProbeSegment(m - 1); }
  }

  // Only the unescaped character can set off a repair.
  lemma {:induction false} FillProbe(m: nat, ts: seq<Token>, f: Frame, r: int)
    requires OneSegment(ProbeTokens(m) + ts) && OneSegment(ts)
    ensures var g := f.(text := f.text + Xs(m) + [A]);
      Fill(ProbeTokens(m) + ts, f, r) == Fill(ts, Put(g, r, Unescaped(A), NextHex(ts)).0, r)
  {
    var all := ProbeTokens(m) + ts;
    if m == 0 {
      assert all[1..] == [Unescaped(A)] + ts && all[1..][1..] == ts;
      var g := f.(text := f.text + Xs(0) + [A]);
      assert f.text + Xs(0) == f.text;
      assert Put(f, r, Raw(A), false) == (g, r) && all[0] == Raw(A) && !NextHex(all[1..]);
      assert Fill(all, f, r) == Fill(all[1..], g, r);
    } else {
      hide Put;
      var g := f.(text := f.text + [X]);
      assert all[1..] == ProbeTokens(m - 1) + ts && all[0] == Raw(X);
      PutX(f, r, NextHex(all[1..]));
      FillProbe(m - 1, ts, g, r);
      assert Xs(m) == [X] + Xs(m - 1);
      Assoc(f.text, [X], Xs(m - 1));
    }
  }

  lemma PutX(f: Frame, r: int, nextHex: bool)
    ensures Put(f, r, Raw(X), nextHex) == (f.(text := f.text + [X]), r)
  {
  }

  lemma ProbeHits(m: nat, f: Frame)
    requires m >= 1 && f.text == []
    ensures StaleRepairs(Go(Tokenize(Probe(m)), Buffer([f], EMPTY, m))) >= 1
  {
    hide Go, Tokenize, Fill;
    TokenizeProbe(m, []);
    TokenizeNone();
    ProbeSegment(m);
    var b := Buffer([f], EMPTY, m);
    var seg := ProbeTokens(m);
    assert seg + [] == seg && Probe(m) + [] == Probe(m);
    FlatOne(f);
    FillProbe(m, [], EMPTY, m - 1);
    ProbeRepaired(m);
    GoOrdinary(seg, [], b);
    GoNothing(FillBuffer(seg, b));
    HitsAppend([f], FillBuffer(seg, b).cur);
  }

  lemma ProbeRepaired(m: nat)
    requires m >= 1
    ensures Fill([], Put(EMPTY.(text := [] + Xs(m) + [A]), m - 1, Unescaped(A), false).0, m - 1).0.hits == 1
  {
    var s := [] + Xs(m) + [A] + [A];
    assert s[m - 1] == X && s[m] == A;
  }

  // Climb to the root, then write up to the index of the last stray '%' of the base.
  lemma {:induction false} StrayTellsApart(base: seq<byte>) returns (rel: seq<byte>)
    requires IsCanonical(base) && !NoStray(Tokenize(Cut(base)))
    ensures rel != [] && !IsURLSlash(rel[0]) && NoStray(Tokenize(rel))
    ensures Incremental(base, rel).Text() != Canonical(Cut(base) + rel).Text()
  {
    hide Go, Tokenize, Dirs, NoDotSegments, Render, Canonical, Reference, Hits, Steady, LastStray;
    var p := Cut(base);
    var dirs, m := Dirs(p), LastStray(p);
    LastStrayTokens(p);
    CutSegments(base);
    rel := Ups(|dirs|) + Probe(m);
    FirstUp(|dirs|, Probe(m));
    TokenizeProbe(m, []);
    TokenizeNone();
    ProbeSegment(m);
    assert Probe(m) + [] == Probe(m) && ProbeTokens(m) + [] == ProbeTokens(m);
    GoUps(|dirs|, Probe(m), Load(p).(marker := m));
    PoppedToRoot(dirs, |dirs|);
    assert dirs[..1] == [dirs[0]];
    assert m >= 1 by { assert p[0] == SLASH; }
    ProbeHits(m, dirs[0]);
    MergedRun(base, rel);
    QuietKinds(Tokenize(rel));
    SteadyMergeIff(base, rel);
  }

  lemma FirstUp(n: nat, y: seq<byte>)
    requires n > 0
    ensures Ups(n) + y != [] && (Ups(n) + y)[0] == DOT
  {
  }

  ghost predicate ResolvesAsMerged(base: seq<byte>)
    requires IsCanonical(base)
  {
    forall rel: seq<byte> :: rel != [] && !IsURLSlash(rel[0]) ==>
      Incremental(base, rel).Text() == Canonical(Cut(base) + rel).Text()
  }

  // Resolving and merging agree on every relative path if and only if the directories of the
  // base have no stray '%'.
  lemma {:induction false} AgreeIffStrayFree(base: seq<byte>)
    requires IsCanonical(base)
    ensures ResolvesAsMerged(base) <==> NoStray(Tokenize(Cut(base)))
  {
    hide Tokenize, Canonical, Incremental, Cut, NoDotSegments, Render;
    if NoStray(Tokenize(Cut(base))) {
      forall rel: seq<byte> ensures Incremental(base, rel).Text() == Canonical(Cut(base) + rel).Text() {
        StrayFreeBaseAgrees(base, rel);
      }
    } else {
      var rel := StrayTellsApart(base);
    }
  }

  // ---------- both repaired, and different ----------

  // A probe with a stray '%' behind it is written and removed, then a longer one is written.
  function FirstProbe(m: nat): seq<byte> {
    Probe(m) + [PERCENT]
  }

  function SecondProbe(m: nat): seq<byte> {
    Probe(m + 3) + Probe(0)
  }

  function Twice(m: nat): seq<byte> {
    FirstProbe(m) + [SLASH] + (Ups(1) + SecondProbe(m))
  }

  lemma TokenizePercent()
    ensures Tokenize([PERCENT]) == [BadPercent]
  {
    TokenizeNone();
    assert [PERCENT][1..] == [];
  }

  // The character that the probe unescapes sets off a repair at the index behind its last 'x'
  // but one, and nowhere else.
  lemma PutProbe(f: Frame, m: nat, r: int, nextHex: bool)
    requires r != |f.text| + m
    ensures var g := f.(text := f.text + Xs(m) + [A]);
      var p := Put(g, r, Unescaped(A), nextHex).0;
      var s := f.text + Xs(m) + [A] + [A];
      && (r != |f.text| + m - 1 ==> p == f.(text := s))
      && (r == |f.text| + m - 1 && 0 <= r && s[r] != PERCENT ==> p.hits == f.hits + 1 && p.text == Repaired(s, r))
  {
    var s := f.text + Xs(m) + [A] + [A];
    assert s[|f.text| + m] == A && |s| == |f.text| + m + 2;
  }

  lemma FillStrayEnd(g: Frame, r: int)
    ensures Fill([BadPercent], g, r) == (g.(text := g.text + [PERCENT]), |g.text|)
  {
    assert [BadPercent][1..] == [];
  }

  lemma FirstFilled(m: nat, q: int)
    requires m >= 1 && (q == m || q == INT_MIN)
    ensures OneSegment(ProbeTokens(m) + [BadPercent])
    ensures Fill(ProbeTokens(m) + [BadPercent], EMPTY, q - 1).1 == if q == m then m + 4 else m + 2
  {
    hide Fill, Put;
    ProbeSegment(m);
    FillProbe(m, [BadPercent], EMPTY, q - 1);
    PutProbe(EMPTY, m, q - 1, false);
    var s := [] + Xs(m) + [A] + [A];
    assert s[m - 1] == X && |s| == m + 2;
    FillStrayEnd(Put(EMPTY.(text := [] + Xs(m) + [A]), q - 1, Unescaped(A), false).0, q - 1);
  }

  lemma FirstPart(e: Frame, m: nat, q: int, y: seq<byte>)
    requires m >= 1 && e.text == [] && (q == m || q == INT_MIN)
    ensures Go(Tokenize(FirstProbe(m) + [SLASH] + (Ups(1) + y)), Buffer([e], EMPTY, q))
         == Go(Tokenize(y), Buffer([e], EMPTY, if q == m then m + 5 else m + 3))
  {
    hide Go, Tokenize, Fill, Ups, Probe, ProbeTokens;
    var b, seg := Buffer([e], EMPTY, q), ProbeTokens(m) + [BadPercent];
    var tail := Tokenize(Ups(1) + y);
    TokenizeProbe(m, [PERCENT]);
    TokenizePercent();
    TokenizeSlash(FirstProbe(m), SLASH, Ups(1) + y);
    Assoc(seg, [Slash], tail);
    FirstFilled(m, q);
    ProbeSegment(m);
    FlatOne(e);
    assert seg[0].Raw?;
    GoOrdinary(seg, [Slash] + tail, b);
    var c := FillBuffer(seg, b);
    GoSlash([Slash] + tail, c);
    assert ([Slash] + tail)[1..] == tail;
    GoUps(1, y, Close(c));
    PoppedOnce([e], c.cur);
  }

  lemma PoppedOnce(dirs: seq<Frame>, f: Frame)
    requires dirs != []
    ensures Popped(dirs + [f], 1) == dirs
  {
    assert Popped(dirs + [f], 1) == Popped(Pop(dirs + [f]), 0);
  }

  lemma SecondFilled(m: nat, r: int)
    requires m >= 1 && (r == m + 2 || r == m + 4)
    ensures OneSegment(ProbeTokens(m + 3) + ProbeTokens(0))
    ensures var f := Fill(ProbeTokens(m + 3) + ProbeTokens(0), EMPTY, r).0;
      f.hits == 1 && |f.text| > m + 3 && f.text[m + 3] == if r == m + 2 then TWO else A
  {
    hide Fill, Put, Fires;
    ProbeSegment(m + 3);
    ProbeSegment(0);
    var k := m + 3;
    var s := [] + Xs(k) + [A] + [A];
    FillProbe(k, ProbeTokens(0), EMPTY, r);
    PutProbe(EMPTY, k, r, true);
    assert NextHex(ProbeTokens(0));
    assert |s| == k + 2 && s[r - 1] != PERCENT && (forall i :: 0 <= i < k ==> s[i] == X) && s[k] == s[k + 1] == A;
    var g := Put(EMPTY.(text := [] + Xs(k) + [A]), r, Unescaped(A), true).0;
    assert r == m + 2 ==> g.text == Repaired(s, r) && |g.text| == k + 4 && g.text[k] == TWO;
    assert ProbeTokens(0) + [] == ProbeTokens(0);
    FillProbe(0, [], g, r);
    PutProbe(g, 0, r, false);
    FillNone(Put(g.(text := g.text + Xs(0) + [A]), r, Unescaped(A), false).0, r);
    var t := g.text + Xs(0) + [A] + [A];
    assert forall i :: 0 <= i < |g.text| ==> t[i] == g.text[i];
    assert r == m + 4 ==> t[r] == A && Repaired(t, r)[k] == t[k];
  }

  lemma FillNone(f: Frame, r: int)
    ensures Fill([], f, r) == (f, r)
  {
  }

  lemma SecondPart(e: Frame, m: nat, q: int)
    requires m >= 1 && e == EMPTY && (q == m + 3 || q == m + 5)
    ensures var b := Go(Tokenize(SecondProbe(m)), Buffer([e], EMPTY, q));
      && b.dirs == [e] && b.cur.hits == 1 && StaleRepairs(b) == 1
      && |b.cur.text| > m + 3 && b.cur.text[m + 3] == if q == m + 3 then TWO else A
  {
    hide Go, Tokenize, Fill, Probe, ProbeTokens;
    var b, seg := Buffer([e], EMPTY, q), ProbeTokens(m + 3) + ProbeTokens(0);
    TokenizeProbe(m + 3, Probe(0));
    TokenizeProbe(0, []);
    TokenizeNone();
    assert Probe(0) + [] == Probe(0) && ProbeTokens(0) + [] == ProbeTokens(0) && seg + [] == seg;
    ProbeSegment(m + 3);
    FlatOne(e);
    SecondFilled(m, q - 1);
    assert seg[0].Raw?;
    GoOrdinary(seg, [], b);
    var c := FillBuffer(seg, b);
    GoNothing(c);
    HitsAppend([e], c.cur);
    OneFrame(e);
  }

  lemma OneFrame(f: Frame)
    ensures Hits([f]) == f.hits
  {
    assert [f][..0] == [];
  }

  // As many repairs in the same segments do not make the texts the same: whenever the
  // directories of the base have a stray '%', some relative path gets one repair in each
  // run, in the same segment but at different places.
  lemma {:induction false} BothRepaired(base: seq<byte>) returns (rel: seq<byte>)
    requires IsCanonical(base) && !NoStray(Tokenize(Cut(base)))
    ensures var i, s := Incremental(base, rel), Canonical(Cut(base) + rel);
      && StaleRepairs(i) == StaleRepairs(s) == 1 && |i.dirs| == |s.dirs| == 1
      && i.cur.hits == s.cur.hits == 1 && i.Text() != s.Text()
  {
    hide Go, Tokenize, Dirs, NoDotSegments, Render, Canonical, Hits, LastStray, Ups, Twice;
    var p := Cut(base);
    var dirs, m := Dirs(p), LastStray(p);
    LastStrayTokens(p);
    CutSegments(base);
    DirsRooted(p);
    assert m >= 1 by { assert p[0] == SLASH; }
    rel := Ups(|dirs|) + Twice(m);
    PoppedToRoot(dirs, |dirs|);
    assert dirs[..1] == [dirs[0]] && dirs[0] == EMPTY;
    MergedRun(base, rel);
    RootRun(dirs, m, m);
    RootRun(dirs, m, INT_MIN);
    assert Load(p) == Buffer(dirs, EMPTY, INT_MIN);
    MergeLaw(base, rel);
    var i, s := Incremental(base, rel), Canonical(p + rel);
    assert i.Frames()[1] == i.cur && s.Frames()[1] == s.cur;
    assert i.cur.text[m + 3] != s.cur.text[m + 3];
  }

  lemma RootRun(dirs: seq<Frame>, m: nat, q: int)
    requires m >= 1 && dirs != [] && dirs[0] == EMPTY && (q == m || q == INT_MIN)
    ensures var b := Go(Tokenize(Ups(|dirs|) + Twice(m)), Buffer(dirs, EMPTY, q));
      && b.dirs == [EMPTY] && b.cur.hits == 1 && StaleRepairs(b) == 1
      && |b.cur.text| > m + 3 && b.cur.text[m + 3] == if q == m then A else TWO
  {
    hide Go, Tokenize, Ups, Hits, SecondProbe, FirstProbe;
    GoUps(|dirs|, Twice(m), Buffer(dirs, EMPTY, q));
    PoppedToRoot(dirs, |dirs|);
    assert dirs[..1] == [EMPTY];
    FirstPart(EMPTY, m, q, SecondProbe(m));
    SecondPart(EMPTY, m, if q == m then m + 5 else m + 3);
  }
}
