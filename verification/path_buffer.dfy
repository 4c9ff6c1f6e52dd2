/** The output buffer of the path canonicalizer, by segments.

    Go is what the loop over the input does to the buffer: directories already closed by a
    slash, the segment being written, and the remembered index of the last stray '%'.
    Resolve is the specification: a stack of token segments on which "." does nothing, ".."
    pops (but never the root) and any other segment is pushed. */
module PathBuffer {
  import opened Bytes
  import opened PathTokens
  import opened PathSegment

  // No stray '%' seen yet.  Below every index, so that no repair fires.
  const INT_MIN := -0x8000_0000

  // marker is relative to the start of the path in the output.
  datatype Buffer = Buffer(dirs: seq<Frame>, cur: Frame, marker: int) {
    function Frames(): seq<Frame> {
      dirs + [cur]
    }

    function Text(): seq<byte> {
      Flat(dirs) + cur.text
    }
  }

  const START := Buffer([], EMPTY, INT_MIN)

  function Flat(dirs: seq<Frame>): seq<byte> {
    if dirs == [] then [] else Flat(dirs[..|dirs| - 1]) + dirs[|dirs| - 1].text + [SLASH]
  }

  function Pop<T>(s: seq<T>): seq<T> {
    if |s| <= 1 then s else s[..|s| - 1]
  }

  // What a dot at the start of a segment is, and how many tokens that takes.
  datatype Disposition = NotADirectory | Current(n: nat) | Up(n: nat)

  function Classify(ts: seq<Token>): (d: Disposition)
    requires ts != [] && ts[0].Dot?
    ensures !d.NotADirectory? ==> 1 <= d.n <= |ts|
  {
    if |ts| == 1 then Current(1)
    else if ts[1].Slash? then Current(2)
    else if ts[1].Dot? && |ts| == 2 then Up(2)
    else if ts[1].Dot? && ts[2].Slash? then Up(3)
    else NotADirectory
  }

  function Close(b: Buffer): Buffer {
    Buffer(b.dirs + [b.cur], EMPTY, b.marker)
  }

  function PutToken(b: Buffer, t: Token, nextHex: bool): Buffer
    requires !t.Slash?
  {
    var start := |Flat(b.dirs)|;
    var p := Put(b.cur, b.marker - start, t, nextHex);
    Buffer(b.dirs, p.0, p.1 + start)
  }

  predicate AtDirectory(ts: seq<Token>, b: Buffer) {
    ts != [] && ts[0].Dot? && b.dirs != [] && b.cur.text == [] && !Classify(ts).NotADirectory?
  }

  function Go(ts: seq<Token>, b: Buffer): Buffer
    decreases |ts|
  {
    if ts == [] then b
    else if ts[0].Slash? then Go(ts[1..], Close(b))
    else if AtDirectory(ts, b) then
      Go(ts[Classify(ts).n..], if Classify(ts).Up? then b.(dirs := Pop(b.dirs)) else b)
    else Go(ts[1..], PutToken(b, ts[0], NextHex(ts[1..])))
  }

  // ---------- the specification ----------

  function SegmentLength(ts: seq<Token>): (n: nat)
    ensures n <= |ts| && OneSegment(ts[..n]) && (n < |ts| ==> ts[n].Slash?)
  {
    if ts == [] || ts[0].Slash? then 0
    else
      var n := 1 + SegmentLength(ts[1..]);
      assert forall i :: 1 <= i < n ==> ts[i] == ts[1..][..n - 1][i - 1];
      n
  }

  predicate IsCurrent(seg: seq<Token>) {
    seg == [Dot]
  }

  predicate IsUp(seg: seq<Token>) {
    seg == [Dot, Dot]
  }

  // The segments that remain of stack and ts; the last one has no slash behind it.
  function Resolve(ts: seq<Token>, stack: seq<seq<Token>>): (r: seq<seq<Token>>)
    ensures r != []
    decreases |ts|
  {
    var n := SegmentLength(ts);
    var seg := ts[..n];
    if n == |ts| then
      if IsCurrent(seg) then stack + [[]] else if IsUp(seg) then Pop(stack) + [[]] else stack + [seg]
    else
      Resolve(ts[n + 1..], if IsCurrent(seg) then stack else if IsUp(seg) then Pop(stack) else stack + [seg])
  }

  lemma ResolveStep(ts: seq<Token>, stack: seq<seq<Token>>)
    ensures var n := SegmentLength(ts);
      var seg := ts[..n];
      var s := if IsCurrent(seg) then stack else if IsUp(seg) then Pop(stack) else stack + [seg];
      Resolve(ts, stack) == if n < |ts| then Resolve(ts[n + 1..], s)
                            else if IsCurrent(seg) || IsUp(seg) then s + [[]] else s
  {
  }

  function Join(segs: seq<seq<Token>>): seq<Token>
    requires segs != []
  {
    if |segs| == 1 then segs[0] else Join(segs[..|segs| - 1]) + [Slash] + segs[|segs| - 1]
  }

  // A path with its dot segments removed.
  function Normalize(ts: seq<Token>): seq<Token> {
    Join(Resolve(ts, []))
  }

  function Hits(frames: seq<Frame>): nat {
    if frames == [] then 0 else Hits(frames[..|frames| - 1]) + frames[|frames| - 1].hits
  }

  ghost predicate Matches(frames: seq<Frame>, segs: seq<seq<Token>>) {
    |frames| == |segs|
    && forall i :: 0 <= i < |segs| ==> WellLexed(segs[i]) && Meets(frames[i], 0, Render(segs[i]))
  }

  // ---------- one segment of a run ----------

  function FillBuffer(seg: seq<Token>, b: Buffer): Buffer
    requires OneSegment(seg)
  {
    var start := |Flat(b.dirs)|;
    var p := Fill(seg, b.cur, b.marker - start);
    Buffer(b.dirs, p.0, p.1 + start)
  }

  predicate Ends(rest: seq<Token>) {
    rest == [] || rest[0].Slash?
  }

  lemma PutNonempty(f: Frame, r: int, t: Token, nextHex: bool)
    requires !t.Slash?
    ensures Put(f, r, t, nextHex).0.text != []
  {
  }

  // An ordinary segment is written token by token, whatever comes behind its slash.
  lemma {:induction false} GoOrdinary(seg: seq<Token>, rest: seq<Token>, b: Buffer)
    requires OneSegment(seg) && Ends(rest)
    requires b.cur.text == [] && b.dirs != [] ==> !IsCurrent(seg) && !IsUp(seg)
    ensures Go(seg + rest, b) == Go(rest, FillBuffer(seg, b))
  {
    var ts := seg + rest;
    if seg == [] {
      assert ts == rest;
    } else {
      var c := PutToken(b, seg[0], NextHex(seg[1..]));
      assert Go(ts, b) == Go(ts[1..], c) by {
        NotDirectory(seg, rest, b);
        assert ts[0] == seg[0] && NextHex(ts[1..]) == NextHex(seg[1..]);
      }
      assert ts[1..] == seg[1..] + rest;
      PutNonempty(b.cur, b.marker - |Flat(b.dirs)|, seg[0], NextHex(seg[1..]));
      GoOrdinary(seg[1..], rest, c);
      FillBufferFirst(seg, b);
    }
  }

  lemma FillBufferFirst(seg: seq<Token>, b: Buffer)
    requires OneSegment(seg) && seg != []
    ensures FillBuffer(seg, b) == FillBuffer(seg[1..], PutToken(b, seg[0], NextHex(seg[1..])))
  {
  }

  lemma NotDirectory(seg: seq<Token>, rest: seq<Token>, b: Buffer)
    requires OneSegment(seg) && Ends(rest) && seg != []
    requires b.cur.text == [] && b.dirs != [] ==> !IsCurrent(seg) && !IsUp(seg)
    ensures !AtDirectory(seg + rest, b)
  {
    var ts := seg + rest;
    assert ts[0] == seg[0];
    if |seg| == 1 { assert seg == [seg[0]]; } else { assert ts[1] == seg[1]; }
    if |seg| == 2 { assert seg == [seg[0], seg[1]]; }
    if |seg| > 2 { assert ts[2] == seg[2]; }
  }

  // A directory segment is dropped with its slash.
  lemma GoDirectory(seg: seq<Token>, rest: seq<Token>, b: Buffer)
    requires IsCurrent(seg) || IsUp(seg)
    requires Ends(rest) && b.dirs != [] && b.cur.text == []
    ensures Go(seg + rest, b) ==
            Go(if rest == [] then [] else rest[1..], if IsUp(seg) then b.(dirs := Pop(b.dirs)) else b)
  {
    var ts := seg + rest;
    assert ts[0] == Dot;
    var d := if IsUp(seg) then 2 else 1;
    if IsUp(seg) { assert ts[1] == Dot; }
    if rest == [] {
      assert ts[d..] == [];
    } else {
      assert ts[d] == rest[0] && ts[d + 1..] == rest[1..];
    }
  }

  lemma {:induction false} WellLexedParts(ts: seq<Token>, n: nat)
    requires WellLexed(ts) && n <= |ts|
    ensures WellLexed(ts[..n]) && WellLexed(ts[n..])
  {
    if n > 0 {
      WellLexedParts(ts[1..], n - 1);
      assert ts[..n][1..] == ts[1..][..n - 1] && ts[n..] == ts[1..][n - 1..];
    }
  }

  // ---------- the run refines the stack ----------

  lemma {:induction false} GoResolve(ts: seq<Token>, b: Buffer, stack: seq<seq<Token>>)
    requires WellLexed(ts) && Matches(b.dirs, stack) && b.cur == EMPTY
    requires b.dirs == [] ==> ts != [] && ts[0].Slash?
    ensures Matches(Go(ts, b).Frames(), Resolve(ts, stack))
    decreases |ts|, 1
  {
    hide Render, Fill, WellLexed, Resolve, Matches;
    var n := SegmentLength(ts);
    var seg, rest := ts[..n], ts[n..];
    assert ts == seg + rest;
    WellLexedParts(ts, n);
    ResolveStep(ts, stack);
    if n < |ts| {
      WellLexedParts(ts, n + 1);
      assert rest[1..] == ts[n + 1..];
    }
    if IsCurrent(seg) || IsUp(seg) {
      GoResolveDirectory(ts, n, b, stack);
    } else {
      GoOrdinary(seg, rest, b);
      FillMatches(seg, b, stack);
      if n < |ts| {
        GoResolve(ts[n + 1..], Close(FillBuffer(seg, b)), stack + [seg]);
      }
    }
  }

  lemma {:induction false} GoResolveDirectory(ts: seq<Token>, n: nat, b: Buffer, stack: seq<seq<Token>>)
    requires n == SegmentLength(ts) && (IsCurrent(ts[..n]) || IsUp(ts[..n]))
    requires WellLexed(if n < |ts| then ts[n + 1..] else [])
    requires Matches(b.dirs, stack) && b.cur == EMPTY && b.dirs != []
    ensures Matches(Go(ts, b).Frames(), Resolve(ts, stack))
    decreases |ts|, 0
  {
    var up := IsUp(ts[..n]);
    var c, s := if up then b.(dirs := Pop(b.dirs)) else b, if up then Pop(stack) else stack;
    assert ts == ts[..n] + ts[n..];
    GoDirectory(ts[..n], ts[n..], b);
    if n == |ts| {
      MatchesPush(c.dirs, s, EMPTY, []);
    } else {
      assert ts[n..][1..] == ts[n + 1..];
      GoResolve(ts[n + 1..], c, s);
    }
  }

  lemma FillMatches(seg: seq<Token>, b: Buffer, stack: seq<seq<Token>>)
    requires OneSegment(seg) && WellLexed(seg) && Matches(b.dirs, stack) && b.cur == EMPTY
    ensures Matches(FillBuffer(seg, b).Frames(), stack + [seg])
  {
    FillFree(seg, EMPTY, b.marker - |Flat(b.dirs)|);
    assert [] + Render(seg) == Render(seg);
    MatchesPush(b.dirs, stack, FillBuffer(seg, b).cur, seg);
  }

  lemma MatchesPush(frames: seq<Frame>, segs: seq<seq<Token>>, f: Frame, seg: seq<Token>)
    requires Matches(frames, segs) && WellLexed(seg) && Meets(f, 0, Render(seg))
    ensures Matches(frames + [f], segs + [seg])
  {
  }

  lemma {:induction false} FlatAppend(dirs: seq<Frame>, f: Frame)
    ensures Flat(dirs + [f]) == Flat(dirs) + f.text + [SLASH]
  {
    assert (dirs + [f])[..|dirs|] == dirs;
  }

  // Texts that match segments are what the segments render to, but for the hits.
  lemma {:induction false} MatchedText(dirs: seq<Frame>, cur: Frame, segs: seq<seq<Token>>)
    requires Matches(dirs + [cur], segs)
    ensures WellLexed(Join(segs))
    ensures |Flat(dirs) + cur.text| == |Render(Join(segs))| + 2 * Hits(dirs + [cur])
    ensures Hits(dirs + [cur]) == 0 ==> Flat(dirs) + cur.text == Render(Join(segs))
    decreases |dirs|
  {
    hide Render, WellLexed;
    var k := |dirs|;
    assert (dirs + [cur])[..k] == dirs && (dirs + [cur])[k] == cur;
    if k == 0 {
      assert Flat(dirs) + cur.text == cur.text;
    } else {
      var init, last := dirs[..k - 1], dirs[k - 1];
      assert init + [last] == dirs;
      assert forall i :: 0 <= i < k ==> dirs[i] == (dirs + [cur])[i] && segs[..k][i] == segs[i];
      assert Matches(init + [last], segs[..k]);
      MatchedText(init, last, segs[..k]);
      WellLexedSlash(Join(segs[..k]), segs[k]);
      RenderSlash(Join(segs[..k]), segs[k]);
    }
  }
}
