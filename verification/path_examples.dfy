/** Inputs on which the path canonicalizer does not do what it is meant to do. */
module PathExamples {
  import opened Bytes
  import opened Escapes
  import opened PathTokens
  import opened PathSegment
  import opened PathBuffer
  import opened PathCanon
  import opened PathStale
  import opened PathSplit
  import opened PathTheorems
  import opened PathRelative
  import opened PathMerge
  import opened PathVerdict

  // "/a%/../%3C%41": the ".." removes the stray '%', but its index 2 is still remembered
  // when "%41" is unescaped behind "/%3C".
  const REMOVED: seq<byte> := [0x61, PERCENT]
  const ESCAPES: seq<byte> := [PERCENT, 0x33, 0x43, PERCENT, 0x34, 0x31]
  const STALE: seq<byte> := [SLASH] + (REMOVED + [SLASH] + ([DOT, DOT] + [SLASH] + ESCAPES))

  const TAIL: seq<Token> := [Kept(0x33, 0x43), Unescaped(0x41)]

  lemma SegmentTokens()
    ensures Tokenize(REMOVED) == [Raw(0x61), BadPercent]
    ensures Tokenize([DOT, DOT]) == [Dot, Dot]
    ensures Tokenize(ESCAPES) == TAIL
  {
    hide Tokenize;
    TokenizeLexed(REMOVED);
    assert REMOVED[1..] == [PERCENT];
    TokenizeLexed([PERCENT]);
    assert [PERCENT][1..] == [];
    TokenizeNone();
    DotTokens();
    TokenizeLexed(ESCAPES);
    assert EscapeValue(0x33, 0x43) == 0x3C && EscapeValue(0x34, 0x31) == 0x41;
    assert Lex(ESCAPES) == (Kept(0x33, 0x43), 3);
    assert ESCAPES[3..] == [PERCENT, 0x34, 0x31];
    TokenizeLexed([PERCENT, 0x34, 0x31]);
    assert [PERCENT, 0x34, 0x31][3..] == [];
  }

  lemma StaleTokens()
    ensures RootTokens(STALE) == [Slash] + ([Raw(0x61), BadPercent] + ([Slash] + ([Dot, Dot] + ([Slash] + TAIL))))
  {
    hide Tokenize;
    SegmentTokens();
    TokenizeSlash([DOT, DOT], SLASH, ESCAPES);
    TokenizeSlash(REMOVED, SLASH, [DOT, DOT] + [SLASH] + ESCAPES);
    TokenizeSlash([], SLASH, REMOVED + [SLASH] + ([DOT, DOT] + [SLASH] + ESCAPES));
    TokenizeNone();
    assert STALE[0] == SLASH;
    assert STALE == [] + [SLASH] + (REMOVED + [SLASH] + ([DOT, DOT] + [SLASH] + ESCAPES));
  }

  // The segment behind the rewind, written with the index of the removed '%'.
  lemma TailWritten()
    ensures Fill(TAIL, EMPTY, 1) == (Frame([PERCENT, 0x33, TWO, FIVE, 0x43, 0x41], 1, true, false), 1)
  {
    assert TAIL[1..] == [Unescaped(0x41)] && [Unescaped(0x41)][1..] == [];
    var f := Frame([PERCENT, 0x33, 0x43], 0, false, false);
    assert EMPTY.text + RenderToken(TAIL[0]) == [PERCENT, 0x33, 0x43];
    assert Put(EMPTY, 1, TAIL[0], false) == (f, 1);
    var s := f.text + [0x41];
    assert s == [PERCENT, 0x33, 0x43, 0x41];
    assert Fires(s, 1, false) && !NamesPercent(s, 1) && Tears(s, 1);
    assert Repaired(s, 1) == [PERCENT, 0x33, TWO, FIVE, 0x43, 0x41];
  }

  lemma StaleRun()
    ensures Canonical(STALE) == Buffer([EMPTY], Frame([PERCENT, 0x33, TWO, FIVE, 0x43, 0x41], 1, true, false), 2)
  {
    hide Go, Canonical, RootTokens, Tokenize, Fill;
    CanonicalRun(STALE);
    StaleTokens();
    var rest2 := [Slash] + TAIL;
    var rest1 := [Slash] + ([Dot, Dot] + rest2);
    var b0 := Buffer([EMPTY], EMPTY, INT_MIN);
    GoSlash([Slash] + ([Raw(0x61), BadPercent] + rest1), START);
    assert ([Slash] + ([Raw(0x61), BadPercent] + rest1))[1..] == [Raw(0x61), BadPercent] + rest1;
    assert Close(START) == b0;
    FirstSegment(b0);
    GoOrdinary([Raw(0x61), BadPercent], rest1, b0);
    var b1 := Buffer([EMPTY], Frame([0x61, PERCENT], 0, false, false), 2);
    GoSlash(rest1, b1);
    assert rest1[1..] == [Dot, Dot] + rest2;
    var b2 := Close(b1);
    GoDirectory([Dot, Dot], rest2, b2);
    assert rest2[1..] == TAIL;
    assert Pop(b2.dirs) == [EMPTY];
    var b3 := Buffer([EMPTY], EMPTY, 2);
    assert TAIL + [] == TAIL;
    GoOrdinary(TAIL, [], b3);
    assert Flat([EMPTY]) == [SLASH];
    TailWritten();
    GoNothing(FillBuffer(TAIL, b3));
  }

  lemma FirstSegment(b: Buffer)
    requires b == Buffer([EMPTY], EMPTY, INT_MIN)
    ensures FillBuffer([Raw(0x61), BadPercent], b) == Buffer([EMPTY], Frame([0x61, PERCENT], 0, false, false), 2)
  {
    assert [Raw(0x61), BadPercent][1..] == [BadPercent] && [BadPercent][1..] == [];
    assert Flat([EMPTY]) == [SLASH];
    assert EMPTY.text + [0x61] == [0x61] && [0x61] + [PERCENT] == [0x61, PERCENT];
    var f, g := Frame([0x61], 0, false, false), Frame([0x61, PERCENT], 0, false, false);
    assert Put(EMPTY, INT_MIN - 1, Raw(0x61), false) == (f, INT_MIN - 1);
    assert Put(f, INT_MIN - 1, BadPercent, false) == (g, 1);
    assert Fill([], g, 1) == (g, 1);
    assert Fill([BadPercent], f, INT_MIN - 1) == (g, 1);
    assert Fill([Raw(0x61), BadPercent], EMPTY, INT_MIN - 1) == (g, 1);
  }

  // The output is "/%325CA" where it should be "/%3CA"; running the canonicalizer again
  // changes it once more.
  lemma {:induction false} StaleMarkerExample()
    ensures Canonical(STALE).Text() == [SLASH, PERCENT, 0x33, TWO, FIVE, 0x43, 0x41]
    ensures StaleRepairs(Canonical(STALE)) == 1 && Canonical(STALE).Text() != Reference(STALE)
    ensures Canonical(Canonical(STALE).Text()).Text() != Canonical(STALE).Text()
  {
    hide Go, Canonical, Reference;
    StaleRun();
    var b := Canonical(STALE);
    assert Flat([EMPTY]) == [SLASH];
    HitsAppend([EMPTY], b.cur);
    HitsAppend([], EMPTY);
    assert [] + [EMPTY] == [EMPTY];
    CanonicalIsReference(STALE);
    Idempotent(STALE);
    assert b.Frames()[1].torn;
  }

  // "/%00/..": the NUL makes the first run fail, but its segment is removed.
  const NUL_REMOVED: seq<byte> := [SLASH] + ([PERCENT, 0x30, 0x30] + [SLASH] + [DOT, DOT])

  lemma NulTokens()
    ensures RootTokens(NUL_REMOVED) == [Slash] + ([Kept(0x30, 0x30)] + [Slash] + [Dot, Dot])
  {
    hide Tokenize;
    TokenizeNone();
    DotTokens();
    var nul := [PERCENT, 0x30, 0x30];
    TokenizeLexed(nul);
    assert nul[3..] == [] && EscapeValue(0x30, 0x30) == 0;
    TokenizeSlash(nul, SLASH, [DOT, DOT]);
    TokenizeSlash([], SLASH, nul + [SLASH] + [DOT, DOT]);
    assert NUL_REMOVED == [] + [SLASH] + (nul + [SLASH] + [DOT, DOT]);
  }

  lemma ResolveUp(stack: seq<seq<Token>>)
    ensures Resolve([Dot, Dot], stack) == Pop(stack) + [[]]
  {
    SegmentLengthIs([Dot, Dot], []);
    assert [Dot, Dot] + [] == [Dot, Dot] && [Dot, Dot][..2] == [Dot, Dot];
  }

  lemma NulResolved()
    ensures Normalize([Slash] + ([Kept(0x30, 0x30)] + [Slash] + [Dot, Dot])) == [Slash]
  {
    hide Resolve, SegmentLength;
    var nul := [Kept(0x30, 0x30)];
    var rest := nul + [Slash] + [Dot, Dot];
    var ts := [Slash] + rest;
    assert ts == [] + ([Slash] + rest) && rest == nul + ([Slash] + [Dot, Dot]);
    ResolveFirst([], rest, []);
    ResolveFirst(nul, [Dot, Dot], [] + [[]]);
    assert Pop([] + [[]] + [nul]) == [[]];
    ResolveUp([] + [[]] + [nul]);
    var segs: seq<seq<Token>> := [[], []];
    assert Resolve(ts, []) == segs;
    assert segs[..1] == [[]];
  }

  lemma {:induction false} VerdictExample()
    ensures !NoNul(Tokenize(NUL_REMOVED)) && NoNul(Tokenize(Canonical(NUL_REMOVED).Text()))
  {
    hide Go, Canonical, Resolve, Tokenize;
    NulTokens();
    NulResolved();
    NulsOfOutput(NUL_REMOVED);
    OneNul(Slash);
    NoNulIsNone(Tokenize(Canonical(NUL_REMOVED).Text()));
    NoNulConcat([Slash], [Kept(0x30, 0x30)] + [Slash] + [Dot, Dot]);
    NoNulConcat([Kept(0x30, 0x30)], [Slash] + [Dot, Dot]);
    assert [Kept(0x30, 0x30)] + [Slash] + [Dot, Dot] == [Kept(0x30, 0x30)] + ([Slash] + [Dot, Dot]);
    assert EscapeValue(0x30, 0x30) == 0;
  }

  // The base "/a%/b" and the relative path "../%3C%41" merge to the path above.
  const BASE: seq<byte> := [SLASH] + REMOVED + [SLASH] + [0x62]
  const RELATIVE: seq<byte> := [DOT, DOT] + [SLASH] + ESCAPES

  lemma BaseTokens()
    ensures Tokenize(BASE) == Join([[], [Raw(0x61), BadPercent], [Raw(0x62)]])
    ensures Render(Tokenize(BASE)) == BASE
  {
    hide Tokenize;
    SegmentTokens();
    TokenizeNone();
    TokenizeLexed([0x62]);
    assert [0x62][1..] == [];
    var front := [SLASH] + REMOVED;
    assert front == [] + [SLASH] + REMOVED;
    TokenizeSlash([], SLASH, REMOVED);
    TokenizeSlash(front, SLASH, [0x62]);
    var segs: seq<seq<Token>> := [[], [Raw(0x61), BadPercent], [Raw(0x62)]];
    assert segs[..2] == [[], [Raw(0x61), BadPercent]] && segs[..2][..1] == [[]];
    RenderSlash(Tokenize(front), [Raw(0x62)]);
    RenderSlash([], [Raw(0x61), BadPercent]);
    assert [Raw(0x61), BadPercent][1..] == [BadPercent] && [BadPercent][1..] == [] && [Raw(0x62)][1..] == [];
    RenderNothing();
    assert Render([BadPercent]) == [PERCENT];
    assert Render([Raw(0x61), BadPercent]) == REMOVED;
  }

  lemma BaseIsCanonical()
    ensures IsCanonical(BASE) && Cut(BASE) + RELATIVE == STALE
  {
    hide Tokenize, Render, Split, Join;
    BaseTokens();
    var segs: seq<seq<Token>> := [[], [Raw(0x61), BadPercent], [Raw(0x62)]];
    SplitJoin(segs);
    assert BASE[0] == SLASH;
    CutUnique(BASE, 4);
    assert BASE[..4] == [SLASH] + (REMOVED + [SLASH]);
  }

  lemma RelativeTokens()
    ensures Tokenize(RELATIVE) == [Dot, Dot] + [Slash] + TAIL
  {
    hide Tokenize;
    SegmentTokens();
    TokenizeSlash([DOT, DOT], SLASH, ESCAPES);
  }

  // The incremental run is right and the run on the merged path is not.
  lemma {:induction false} MergeExample()
    ensures IsCanonical(BASE)
    ensures Incremental(BASE, RELATIVE).Text() == Reference(Cut(BASE) + RELATIVE)
    ensures Incremental(BASE, RELATIVE).Text() != Canonical(Cut(BASE) + RELATIVE).Text()
  {
    hide Go, Tokenize, Canonical, Reference, Dirs, Cut, Flat, Render, NoDotSegments, NoUp, Steady;
    BaseIsCanonical();
    StaleMarkerExample();
    RelativeTokens();
    QuietKinds(Tokenize(RELATIVE));
    SteadyMergeIff(BASE, RELATIVE);
  }
}
