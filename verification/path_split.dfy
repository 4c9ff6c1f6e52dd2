/** A path and its segments: splitting and joining, on tokens and on text. */
module PathSplit {
  import opened Bytes
  import opened PathTokens
  import opened PathSegment
  import opened PathBuffer
  import opened PathStale

  function Split(ts: seq<Token>): (segs: seq<seq<Token>>)
    ensures segs != [] && forall i :: 0 <= i < |segs| ==> OneSegment(segs[i])
    decreases |ts|
  {
    var n := SegmentLength(ts);
    if n == |ts| then assert ts[..n] == ts; [ts] else [ts[..n]] + Split(ts[n + 1..])
  }

  predicate Ordinary(segs: seq<seq<Token>>) {
    forall i :: 0 <= i < |segs| ==> OneSegment(segs[i]) && !IsCurrent(segs[i]) && !IsUp(segs[i])
  }

  // No segment is "." or "..", however its dots are written.
  predicate NoDotSegments(ts: seq<Token>) {
    Ordinary(Split(ts))
  }

  lemma {:induction false} JoinFront(seg: seq<Token>, segs: seq<seq<Token>>)
    requires segs != []
    ensures Join([seg] + segs) == seg + [Slash] + Join(segs)
    decreases |segs|
  {
    var w, k := [seg] + segs, |segs| - 1;
    assert w[|w| - 1] == segs[k];
    if k == 0 {
      assert w[..|w| - 1] == [seg];
    } else {
      assert w[..|w| - 1] == [seg] + segs[..k];
      JoinFront(seg, segs[..k]);
      Assoc(seg + [Slash], Join(segs[..k]), [Slash] + segs[k]);
      Assoc(seg + [Slash] + Join(segs[..k]), [Slash], segs[k]);
      Assoc(Join(segs[..k]), [Slash], segs[k]);
    }
  }

  lemma {:induction false} SegmentLengthIs(seg: seq<Token>, rest: seq<Token>)
    requires OneSegment(seg) && Ends(rest)
    ensures SegmentLength(seg + rest) == |seg|
  {
    if seg == [] {
      assert seg + rest == rest;
    } else {
      assert (seg + rest)[1..] == seg[1..] + rest;
      SegmentLengthIs(seg[1..], rest);
    }
  }

  lemma SplitStep(ts: seq<Token>)
    ensures var n := SegmentLength(ts);
      Split(ts) == if n == |ts| then [ts] else [ts[..n]] + Split(ts[n + 1..])
  {
  }

  lemma JoinOne(seg: seq<Token>)
    ensures Join([seg]) == seg
  {
  }

  lemma {:induction false} JoinSplit(ts: seq<Token>)
    ensures Join(Split(ts)) == ts
    decreases |ts|
  {
    hide Join, Split;
    var n := SegmentLength(ts);
    SplitStep(ts);
    JoinOne(ts);
    if n < |ts| {
      JoinSplit(ts[n + 1..]);
      JoinFront(ts[..n], Split(ts[n + 1..]));
      Around(ts, n);
    }
  }

  lemma {:induction false} SplitJoin(segs: seq<seq<Token>>)
    requires segs != [] && forall i :: 0 <= i < |segs| ==> OneSegment(segs[i])
    ensures Split(Join(segs)) == segs
    decreases |segs|
  {
    if |segs| == 1 {
      SegmentLengthIs(segs[0], []);
      assert segs[0] + [] == segs[0] && segs == [segs[0]];
    } else {
      var seg, more := segs[0], segs[1..];
      assert segs == [seg] + more;
      JoinFront(seg, more);
      var rest := [Slash] + Join(more);
      assert Join(segs) == seg + rest by { Assoc(seg, [Slash], Join(more)); }
      SegmentLengthIs(seg, rest);
      assert Join(segs)[|seg| + 1..] == Join(more);
      SplitJoin(more);
    }
  }

  // Without dot segments the stack only grows.
  lemma {:induction false} ResolveOrdinary(ts: seq<Token>, stack: seq<seq<Token>>)
    requires NoDotSegments(ts)
    ensures Resolve(ts, stack) == stack + Split(ts)
    decreases |ts|
  {
    var n := SegmentLength(ts);
    var segs := Split(ts);
    assert segs[0] == ts[..n];
    if n < |ts| {
      assert segs[1..] == Split(ts[n + 1..]);
      assert Ordinary(segs[1..]);
      ResolveOrdinary(ts[n + 1..], stack + [ts[..n]]);
      Assoc(stack, [ts[..n]], Split(ts[n + 1..]));
    }
  }

  lemma NormalizeOrdinary(ts: seq<Token>)
    requires NoDotSegments(ts)
    ensures Normalize(ts) == ts && NoUp(ts)
  {
    ResolveOrdinary(ts, []);
    assert [] + Split(ts) == Split(ts);
    JoinSplit(ts);
    OrdinaryNoUp(ts);
  }

  lemma {:induction false} OrdinaryNoUp(ts: seq<Token>)
    requires NoDotSegments(ts)
    ensures NoUp(ts)
    decreases |ts|
  {
    var n := SegmentLength(ts);
    var segs := Split(ts);
    assert segs[0] == ts[..n];
    if n < |ts| {
      assert segs[1..] == Split(ts[n + 1..]);
      assert Ordinary(segs[1..]);
      OrdinaryNoUp(ts[n + 1..]);
    }
  }

  // What has been resolved already can be resolved again with more behind it.
  lemma {:induction false} ResolvePrefix(segs: seq<seq<Token>>, ts: seq<Token>, stack: seq<seq<Token>>)
    requires segs != [] && Ordinary(segs)
    ensures Resolve(Join(segs) + [Slash] + ts, stack) == Resolve(ts, stack + segs)
    decreases |segs|
  {
    var seg, w := segs[0], Join(segs) + [Slash] + ts;
    if |segs| == 1 {
      Assoc(seg, [Slash], ts);
      ResolveFirst(seg, ts, stack);
      assert segs == [seg];
    } else {
      var more := segs[1..];
      assert segs == [seg] + more;
      JoinFront(seg, more);
      var rest := Join(more) + [Slash] + ts;
      assert w == seg + ([Slash] + rest);
      ResolveFirst(seg, rest, stack);
      ResolvePrefix(more, ts, stack + [seg]);
      Assoc(stack, [seg], more);
    }
  }

  lemma ResolveFirst(seg: seq<Token>, rest: seq<Token>, stack: seq<seq<Token>>)
    requires OneSegment(seg) && !IsCurrent(seg) && !IsUp(seg)
    ensures Resolve(seg + ([Slash] + rest), stack) == Resolve(rest, stack + [seg])
  {
    hide Resolve, SegmentLength;
    var w := seg + ([Slash] + rest);
    SegmentLengthIs(seg, [Slash] + rest);
    ResolveStep(w, stack);
    assert w[..|seg|] == seg && w[|seg| + 1..] == rest;
  }

  // ---------- text ----------

  function TokensOf(frames: seq<Frame>): (segs: seq<seq<Token>>)
    ensures |segs| == |frames| && forall i :: 0 <= i < |frames| ==> segs[i] == Tokenize(frames[i].text)
  {
    seq(|frames|, i requires 0 <= i < |frames| => Tokenize(frames[i].text))
  }

  lemma {:induction false} TextTokens(dirs: seq<Frame>, cur: Frame)
    ensures Tokenize(Flat(dirs) + cur.text) == Join(TokensOf(dirs + [cur]))
    decreases |dirs|
  {
    hide Tokenize;
    var k := |dirs|;
    var segs := TokensOf(dirs + [cur]);
    assert segs[k] == Tokenize(cur.text);
    if k == 0 {
      assert Flat(dirs) + cur.text == cur.text;
    } else {
      var init, last := dirs[..k - 1], dirs[k - 1];
      assert init + [last] == dirs;
      TextTokens(init, last);
      assert segs[..k] == TokensOf(init + [last]);
      TokenizeSlash(Flat(init) + last.text, SLASH, cur.text);
      assert Flat(dirs) == Flat(init) + last.text + [SLASH];
    }
  }

  ghost predicate Fixed(frames: seq<Frame>) {
    forall i :: 0 <= i < |frames| ==> Render(Tokenize(frames[i].text)) == frames[i].text
  }

  // A text reads back as itself exactly when each of its segments does.
  lemma {:induction false} FixedText(dirs: seq<Frame>, cur: Frame)
    requires forall i :: 0 <= i < |dirs| ==> NoSlashes(dirs[i].text)
    requires NoSlashes(cur.text)
    ensures Render(Tokenize(Flat(dirs) + cur.text)) == Flat(dirs) + cur.text <==> Fixed(dirs + [cur])
    decreases |dirs|
  {
    hide Tokenize, Render;
    var k := |dirs|;
    if k == 0 {
      assert Flat(dirs) + cur.text == cur.text;
      assert (dirs + [cur])[0] == cur;
    } else {
      var init, last := dirs[..k - 1], dirs[k - 1];
      var p := Flat(init) + last.text;
      assert init + [last] == dirs;
      FixedText(init, last);
      TokenizeSlash(p, SLASH, cur.text);
      RenderSlash(Tokenize(p), Tokenize(cur.text));
      TokenizeWellLexed(cur.text);
      NoSlashTokens(cur.text);
      RenderNoSlash(Tokenize(cur.text));
      SlashInjective(Render(Tokenize(p)), Render(Tokenize(cur.text)), p, cur.text);
      assert forall i :: 0 <= i < k ==> (dirs + [cur])[i] == dirs[i];
      assert (dirs + [cur])[k] == cur;
    }
  }

  lemma SlashInjective(a: seq<byte>, b: seq<byte>, c: seq<byte>, d: seq<byte>)
    requires SLASH !in d
    ensures a + [SLASH] + b == c + [SLASH] + d && SLASH !in b ==> a == c && b == d
  {
    var w, v := a + [SLASH] + b, c + [SLASH] + d;
    assert w[|a|] == SLASH && v[|c|] == SLASH;
    assert forall i :: |a| < i < |w| ==> w[i] == b[i - |a| - 1];
    assert forall i :: |c| < i < |v| ==> v[i] == d[i - |c| - 1];
    if w == v && SLASH !in b {
      assert |a| == |c|;
      assert w[..|a|] == a && v[..|c|] == c && w[|a| + 1..] == b && v[|c| + 1..] == d;
    }
  }
}
