/** What a second run reports, given what the first reported. */
module PathVerdict {
  import opened Bytes
  import opened PathTokens
  import opened PathBuffer
  import opened PathCounts
  import opened PathTheorems

  lemma {:induction false} NoNulConcat(a: seq<Token>, b: seq<Token>)
    ensures NoNul(a + b) == (NoNul(a) && NoNul(b))
  {
    if a == [] {
      assert a + b == b;
    } else {
      NoNulConcat(a[1..], b);
      assert (a + b)[1..] == a[1..] + b;
    }
  }

  predicate NoNuls(segs: seq<seq<Token>>) {
    forall i :: 0 <= i < |segs| ==> NoNul(segs[i])
  }

  lemma {:induction false} NoNulJoin(segs: seq<seq<Token>>)
    requires segs != []
    ensures NoNul(Join(segs)) == NoNuls(segs)
    decreases |segs|
  {
    var k := |segs| - 1;
    if k > 0 {
      NoNulJoin(segs[..k]);
      NoNulConcat(Join(segs[..k]) + [Slash], segs[k]);
      NoNulConcat(Join(segs[..k]), [Slash]);
      assert [Slash][1..] == [];
      assert forall i :: 0 <= i < k ==> segs[..k][i] == segs[i];
    }
  }

  // Removing dot segments removes NULs at most.
  lemma {:induction false} NoNulResolve(ts: seq<Token>, stack: seq<seq<Token>>)
    requires NoNul(ts) && NoNuls(stack)
    ensures NoNuls(Resolve(ts, stack))
    decreases |ts|
  {
    hide NoNul;
    var n := SegmentLength(ts);
    var seg := ts[..n];
    assert ts == seg + ts[n..];
    NoNulConcat(seg, ts[n..]);
    NoNulNothing();
    if n < |ts| {
      assert ts[n..] == [Slash] + ts[n + 1..];
      NoNulConcat([Slash], ts[n + 1..]);
      NoNulResolve(ts[n + 1..], if IsCurrent(seg) then stack else if IsUp(seg) then Pop(stack) else stack + [seg]);
    }
  }

  lemma NoNulNothing()
    ensures NoNul([])
  {
  }

  lemma {:induction false} NoNulIsNone(ts: seq<Token>)
    ensures NoNul(ts) <==> Nuls(ts) == 0
  {
    if ts != [] { NoNulIsNone(ts[1..]); }
  }

  lemma NulsOfOutput(path: seq<byte>)
    ensures var b := Canonical(path);
      Nuls(Tokenize(b.Text())) + HiddenNuls(b.Frames()) == Nuls(Normalize(RootTokens(path)))
  {
    hide Go, Tokenize, RootTokens, Canonical, Resolve, Nuls, Flat;
    CanonicalRun(path);
    GoCounted(RootTokens(path), START, []);
    var b := Canonical(path);
    CountedText(b.dirs, b.cur, Resolve(RootTokens(path), []));
  }

  // The second run succeeds exactly when every NUL was in a removed segment or hidden by a
  // stale repair.
  lemma {:induction false} VerdictAgain(path: seq<byte>)
    ensures NoNul(Tokenize(Canonical(path).Text()))
       <==> Nuls(Normalize(RootTokens(path))) == HiddenNuls(Canonical(path).Frames())
  {
    hide Canonical, Tokenize, RootTokens, Normalize, Nuls, NoNul, HiddenNuls;
    NulsOfOutput(path);
    NoNulIsNone(Tokenize(Canonical(path).Text()));
  }

  lemma RootNoNul(path: seq<byte>)
    ensures NoNul(RootTokens(path)) == NoNul(Tokenize(path))
  {
    if path == [] || !IsURLSlash(path[0]) {
      assert RootTokens(path)[1..] == Tokenize(path);
    }
  }

  // A path that was accepted stays accepted, stale repairs or not.
  lemma {:induction false} AcceptedStaysAccepted(path: seq<byte>)
    requires NoNul(Tokenize(path))
    ensures NoNul(Tokenize(Canonical(path).Text()))
  {
    hide Canonical, Tokenize, RootTokens, Resolve, Nuls, NoNul;
    RootNoNul(path);
    NoNulResolve(RootTokens(path), []);
    NoNulJoin(Resolve(RootTokens(path), []));
    NoNulIsNone(Normalize(RootTokens(path)));
    NulsOfOutput(path);
    NoNulIsNone(Tokenize(Canonical(path).Text()));
  }
}
