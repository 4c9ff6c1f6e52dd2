/** How many characters and how many NULs are read from the output, against the segments that
    were to be written. */
module PathCounts {
  import opened Bytes
  import opened PathTokens
  import opened PathSegment
  import opened PathBuffer
  import opened PathStale

  ghost predicate AllCounted(frames: seq<Frame>, segs: seq<seq<Token>>) {
    |frames| == |segs| && forall i :: 0 <= i < |segs| ==> Counted(frames[i], segs[i])
  }

  // The NULs that stale repairs took away.
  function HiddenNuls(frames: seq<Frame>): nat {
    if frames == [] then 0
    else HiddenNuls(frames[..|frames| - 1]) + if frames[|frames| - 1].hidden then 1 else 0
  }

  lemma CountedPush(frames: seq<Frame>, segs: seq<seq<Token>>, f: Frame, seg: seq<Token>)
    requires AllCounted(frames, segs) && Counted(f, seg)
    ensures AllCounted(frames + [f], segs + [seg])
  {
    hide Counted;
  }

  lemma EmptyCounted()
    ensures Counted(EMPTY, [])
  {
  }

  // Every frame of every run counts as the segment that the stack holds in its place.
  lemma {:induction false} GoCounted(ts: seq<Token>, b: Buffer, stack: seq<seq<Token>>)
    requires WellLexed(ts) && AllCounted(b.dirs, stack) && b.cur == EMPTY
    requires b.dirs == [] ==> ts != [] && ts[0].Slash?
    ensures AllCounted(Go(ts, b).Frames(), Resolve(ts, stack))
    decreases |ts|, 1
  {
    hide Go, AllCounted, WellLexed, Resolve;
    var n := SegmentLength(ts);
    if IsCurrent(ts[..n]) || IsUp(ts[..n]) {
      GoCountedDirectory(ts, n, b, stack);
    } else {
      GoCountedOrdinary(ts, n, b, stack);
    }
  }

  lemma {:induction false} GoCountedDirectory(ts: seq<Token>, n: nat, b: Buffer, stack: seq<seq<Token>>)
    requires n == SegmentLength(ts) && (IsCurrent(ts[..n]) || IsUp(ts[..n]))
    requires WellLexed(ts) && AllCounted(b.dirs, stack) && b.cur == EMPTY && b.dirs != []
    ensures AllCounted(Go(ts, b).Frames(), Resolve(ts, stack))
    decreases |ts|, 0
  {
    hide Go, Counted, WellLexed, Resolve;
    ResolveStep(ts, stack);
    var rest, up := ts[n..], IsUp(ts[..n]);
    assert ts == ts[..n] + rest;
    GoDirectory(ts[..n], rest, b);
    var c, s := if up then b.(dirs := Pop(b.dirs)) else b, if up then Pop(stack) else stack;
    if n < |ts| {
      WellLexedParts(ts, n + 1);
      assert rest[1..] == ts[n + 1..];
      GoCounted(ts[n + 1..], c, s);
    } else {
      EmptyCounted();
      GoNothing(c);
      CountedPush(c.dirs, s, EMPTY, []);
    }
  }

  lemma {:induction false} GoCountedOrdinary(ts: seq<Token>, n: nat, b: Buffer, stack: seq<seq<Token>>)
    requires n == SegmentLength(ts) && !IsCurrent(ts[..n]) && !IsUp(ts[..n])
    requires WellLexed(ts) && AllCounted(b.dirs, stack) && b.cur == EMPTY
    ensures AllCounted(Go(ts, b).Frames(), Resolve(ts, stack))
    decreases |ts|, 0
  {
    hide Go, Counted, WellLexed, Fill, Flat, Readable, AllCounted, Resolve;
    ResolveStep(ts, stack);
    var seg, rest := ts[..n], ts[n..];
    assert ts == seg + rest;
    WellLexedParts(ts, n);
    GoOrdinary(seg, rest, b);
    var c := FillBuffer(seg, b);
    SegmentReadable(seg, b);
    CountedPush(b.dirs, stack, c.cur, seg);
    if n < |ts| {
      WellLexedParts(ts, n + 1);
      assert rest[1..] == ts[n + 1..];
      GoSlash(rest, c);
      GoCounted(ts[n + 1..], Close(c), stack + [seg]);
    } else {
      GoNothing(c);
    }
  }

  lemma JoinLast(segs: seq<seq<Token>>)
    requires |segs| > 1
    ensures var k := |segs| - 1;
      && |Join(segs)| == |Join(segs[..k])| + 1 + |segs[k]|
      && Nuls(Join(segs)) == Nuls(Join(segs[..k])) + Nuls(segs[k])
  {
    var k := |segs| - 1;
    NulsBetween(Join(segs[..k]), [Slash], segs[k]);
    OneNul(Slash);
  }

  lemma {:induction false} CountedText(dirs: seq<Frame>, cur: Frame, segs: seq<seq<Token>>)
    requires AllCounted(dirs + [cur], segs)
    ensures var ts := Tokenize(Flat(dirs) + cur.text);
      && |ts| == |Join(segs)| + 2 * Hits(dirs + [cur])
      && Nuls(ts) + HiddenNuls(dirs + [cur]) == Nuls(Join(segs))
    decreases |dirs|
  {
    hide Tokenize, Nuls;
    var k := |dirs|;
    var frames := dirs + [cur];
    assert frames[..k] == dirs && frames[k] == cur;
    if k == 0 {
      assert Flat(dirs) + cur.text == cur.text;
    } else {
      var init, last := dirs[..k - 1], dirs[k - 1];
      assert init + [last] == dirs;
      assert forall i :: 0 <= i < k ==> dirs[i] == frames[i] && segs[..k][i] == segs[i];
      CountedText(init, last, segs[..k]);
      JoinLast(segs);
      var p := Flat(init) + last.text;
      TokenizeSlash(p, SLASH, cur.text);
      assert Flat(dirs) == p + [SLASH];
      NulsBetween(Tokenize(p), [Slash], Tokenize(cur.text));
      OneNul(Slash);
    }
  }
}
