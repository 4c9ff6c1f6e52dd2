/** Stale repairs: when they can happen, and what they do to the text of a segment. */
module PathStale {
  import opened Bytes
  import opened Escapes
  import opened PathTokens
  import opened PathSegment
  import opened PathBuffer

  // ---------- where no stale repair can happen ----------

  // The remembered index is before the slash, too far back, or names a '%'.
  predicate Safe(text: seq<byte>, r: int) {
    r <= -2 || r <= |text| - 3 || NamesPercent(text, r)
  }

  lemma PutSafe(f: Frame, r: int, t: Token, nextHex: bool)
    requires Safe(f.text, r) && !t.Slash?
    ensures var p := Put(f, r, t, nextHex);
            && Safe(p.0.text, p.1) && p.0.hits == f.hits && p.0.torn == f.torn && p.0.hidden == f.hidden
            && (p.1 == r || p.1 == |f.text| < |p.0.text|) && |p.0.text| > |f.text|
            && (!t.BadPercent? ==> p.1 == r)
  {
    var p := Put(f, r, t, nextHex);
    if t.Unescaped? {
      var s := f.text + [t.c];
      assert NamesPercent(f.text, r) ==> s[r] == PERCENT;
      if Fires(s, r, nextHex) { assert p.0.text[r] == s[r]; }
    } else {
      assert p.0.text[..|f.text|] == f.text;
      assert NamesPercent(f.text, r) ==> p.0.text[r] == f.text[r];
    }
  }

  predicate NoStray(ts: seq<Token>) {
    forall i :: 0 <= i < |ts| ==> !ts[i].BadPercent?
  }

  lemma {:induction false} FillSafe(ts: seq<Token>, f: Frame, r: int)
    requires OneSegment(ts) && Safe(f.text, r)
    ensures var p := Fill(ts, f, r);
            && p.0.hits == f.hits && p.0.torn == f.torn && p.0.hidden == f.hidden
            && (r < |f.text| ==> p.1 < |p.0.text|)
            && (NoStray(ts) ==> p.1 == r)
  {
    hide Put, Safe;
    if ts != [] {
      PutSafe(f, r, ts[0], NextHex(ts[1..]));
      var p := Put(f, r, ts[0], NextHex(ts[1..]));
      FillSafe(ts[1..], p.0, p.1);
    }
  }

  predicate NoUp(ts: seq<Token>)
    decreases |ts|
  {
    var n := SegmentLength(ts);
    !IsUp(ts[..n]) && (n < |ts| ==> NoUp(ts[n + 1..]))
  }

  // No ".." stands behind a segment with a stray '%'.
  predicate Steady(ts: seq<Token>)
    decreases |ts|
  {
    var n := SegmentLength(ts);
    n < |ts| ==> if NoStray(ts[..n]) then Steady(ts[n + 1..]) else NoUp(ts[n + 1..])
  }

  lemma {:induction false} QuietKinds(ts: seq<Token>)
    requires NoUp(ts) || NoStray(ts)
    ensures Steady(ts)
    decreases |ts|
  {
    var n := SegmentLength(ts);
    if n < |ts| && NoStray(ts[..n]) { QuietKinds(ts[n + 1..]); }
  }

  // Nothing rewinds behind the remembered index.
  predicate Quiet(ts: seq<Token>, b: Buffer) {
    (NoUp(ts) && b.marker <= |Flat(b.dirs)| - 2) || (Steady(ts) && b.marker == INT_MIN)
  }

  lemma HitsAppend(dirs: seq<Frame>, f: Frame)
    ensures Hits(dirs + [f]) == Hits(dirs) + f.hits
  {
    assert (dirs + [f])[..|dirs|] == dirs;
  }

  predicate HitFree(ts: seq<Token>, b: Buffer) {
    Hits(Go(ts, b).Frames()) == 0
  }

  lemma {:induction false} GoQuiet(ts: seq<Token>, b: Buffer)
    requires Quiet(ts, b) && b.cur == EMPTY && Hits(b.dirs) == 0
    requires b.dirs == [] ==> ts != [] && ts[0].Slash?
    ensures HitFree(ts, b)
    decreases |ts|, 1
  {
    hide Go, Flat, HitFree, Hits;
    var n := SegmentLength(ts);
    if IsCurrent(ts[..n]) || IsUp(ts[..n]) {
      GoQuietDirectory(ts, b, n);
    } else {
      GoQuietOrdinary(ts, b, n);
    }
  }

  lemma {:induction false} GoQuietDirectory(ts: seq<Token>, b: Buffer, n: nat)
    requires Quiet(ts, b) && b.cur == EMPTY && Hits(b.dirs) == 0 && b.dirs != []
    requires n == SegmentLength(ts) && (IsCurrent(ts[..n]) || IsUp(ts[..n]))
    ensures HitFree(ts, b)
    decreases |ts|, 0
  {
    hide Go, Flat;
    var c := if IsUp(ts[..n]) then b.(dirs := Pop(b.dirs)) else b;
    assert ts == ts[..n] + ts[n..];
    GoDirectory(ts[..n], ts[n..], b);
    if n < |ts| {
      assert ts[n..][1..] == ts[n + 1..];
      GoQuiet(ts[n + 1..], c);
    } else {
      GoNothing(c);
      HitsAppend(c.dirs, EMPTY);
    }
  }

  lemma NoUpRest(ts: seq<Token>)
    ensures var n := SegmentLength(ts); n < |ts| && NoUp(ts) ==> NoUp(ts[n + 1..])
  {
    hide SegmentLength;
  }

  lemma SteadyRest(ts: seq<Token>)
    ensures var n := SegmentLength(ts);
      n < |ts| && Steady(ts) ==> if NoStray(ts[..n]) then Steady(ts[n + 1..]) else NoUp(ts[n + 1..])
  {
    hide SegmentLength, NoUp, NoStray;
  }

  // Written quietly, a segment leaves the rest quiet.
  lemma QuietFill(ts: seq<Token>, b: Buffer, n: nat)
    requires Quiet(ts, b) && b.cur == EMPTY && n == SegmentLength(ts)
    ensures var c := FillBuffer(ts[..n], b);
      c.dirs == b.dirs && c.cur.hits == 0 && (n < |ts| ==> Quiet(ts[n + 1..], Close(c)))
  {
    hide Flat, Fill, NoUp, Steady, NoStray, SegmentLength;
    var seg := ts[..n];
    var c := FillBuffer(seg, b);
    FillSafe(seg, EMPTY, b.marker - |Flat(b.dirs)|);
    FlatAppend(b.dirs, c.cur);
    NoUpRest(ts);
    SteadyRest(ts);
  }

  lemma {:induction false} GoQuietOrdinary(ts: seq<Token>, b: Buffer, n: nat)
    requires Quiet(ts, b) && b.cur == EMPTY && Hits(b.dirs) == 0
    requires n == SegmentLength(ts) && !IsCurrent(ts[..n]) && !IsUp(ts[..n])
    ensures HitFree(ts, b)
    decreases |ts|, 0
  {
    hide Go, Flat, Fill, Hits, Quiet, SegmentLength, FillBuffer;
    var seg, rest := ts[..n], ts[n..];
    assert ts == seg + rest;
    GoOrdinary(seg, rest, b);
    var c := FillBuffer(seg, b);
    QuietFill(ts, b, n);
    HitsAppend(b.dirs, c.cur);
    if n < |ts| {
      assert rest[1..] == ts[n + 1..];
      GoSlash(rest, c);
      GoQuiet(ts[n + 1..], Close(c));
    } else {
      GoNothing(c);
    }
  }

  lemma GoNothing(b: Buffer)
    ensures Go([], b) == b
  {
  }

  lemma GoSlash(ts: seq<Token>, b: Buffer)
    requires ts != [] && ts[0].Slash?
    ensures Go(ts, b) == Go(ts[1..], Close(b))
  {
  }

  // ---------- what a stale repair does to a segment ----------

  // A frame that reads back as an ordinary segment, and as itself unless it was torn.
  predicate Readable(f: Frame) {
    var ts := Tokenize(f.text);
    && OneSegment(ts) && !IsCurrent(ts) && !IsUp(ts)
    && (Render(ts) == f.text <==> !f.torn)
  }

  // Every stale repair adds two characters to what is read, and one that hits the escape of
  // a NUL takes the NUL away.
  predicate Counted(f: Frame, seg: seq<Token>) {
    var ts := Tokenize(f.text);
    |ts| == |seg| + 2 * f.hits && Nuls(ts) + (if f.hidden then 1 else 0) == Nuls(seg)
  }

  lemma {:induction false} NulsAppend(a: seq<Token>, b: seq<Token>)
    ensures Nuls(a + b) == Nuls(a) + Nuls(b)
  {
    if a == [] {
      assert a + b == b;
    } else {
      NulsAppend(a[1..], b);
      assert (a + b)[1..] == a[1..] + b;
    }
  }

  lemma NulReread(t: Token, r: seq<byte>)
    requires t.Valid()
    ensures IsNul(RereadToken(t, r)) == IsNul(t)
  {
    assert EscapeValue(TWO, FIVE) == PERCENT;
  }

  lemma {:induction false} NulsReread(ts: seq<Token>)
    requires WellLexed(ts)
    ensures Nuls(Reread(ts)) == Nuls(ts)
  {
    if ts != [] {
      NulsReread(ts[1..]);
      assert Reread(ts)[1..] == Reread(ts[1..]);
      NulReread(ts[0], Render(ts[1..]));
    }
  }

  lemma {:induction false} RereadAlike(ts: seq<Token>)
    requires WellLexed(ts)
    ensures |Reread(ts)| == |ts|
    ensures forall i :: 0 <= i < |ts| ==> (Reread(ts)[i].Slash? <==> ts[i].Slash?) && (Reread(ts)[i].Dot? <==> ts[i].Dot?)
  {
    if ts != [] { RereadAlike(ts[1..]); }
  }

  // Whatever renders a well-lexed ordinary segment reads back as one.
  lemma RenderedReadable(ts: seq<Token>, f: Frame)
    requires WellLexed(ts) && OneSegment(ts) && !IsCurrent(ts) && !IsUp(ts)
    requires f.text == Render(ts) && !f.torn
    ensures Readable(f) && |Tokenize(f.text)| == |ts| && Nuls(Tokenize(f.text)) == Nuls(ts)
  {
    hide Render, Tokenize, WellLexed, Reread, Nuls;
    NulsReread(ts);
    TokenizeRender(ts);
    RenderIdempotent(ts);
    RereadAlike(ts);
    assert |ts| == 1 ==> ts == [ts[0]];
    assert |ts| == 2 ==> ts == [ts[0], ts[1]];
  }

  lemma {:induction false} RenderAppend(a: seq<Token>, b: seq<Token>)
    requires NoStray(a)
    ensures Render(a + b) == Render(a) + Render(b)
  {
    if a == [] {
      assert a + b == b;
    } else {
      RenderAppend(a[1..], b);
      assert (a + b)[1..] == a[1..] + b;
      Assoc(RenderToken(a[0]), Render(a[1..]), Render(b));
    }
  }

  lemma {:induction false} WellLexedAppend(a: seq<Token>, b: seq<Token>)
    requires NoStray(a) && (forall i :: 0 <= i < |a| ==> a[i].Valid()) && WellLexed(b)
    ensures WellLexed(a + b)
  {
    if a == [] {
      assert a + b == b;
    } else {
      WellLexedAppend(a[1..], b);
      assert (a + b)[1..] == a[1..] + b;
    }
  }

  // Neither of the last two characters is a '%' when there is no stray one.
  lemma {:induction false} EndsWithoutPercent(a: seq<Token>, r: int)
    requires NoStray(a) && forall i :: 0 <= i < |a| ==> a[i].Valid()
    ensures !Pending(Render(a), r)
  {
    if a != [] {
      var k := |a| - 1;
      EndsWithoutPercent(a[..k], r);
      assert a == a[..k] + [a[k]];
      RenderAppend(a[..k], [a[k]]);
      assert Render([a[k]]) == RenderToken(a[k]) + Render([]);
    }
  }

  // The segment a + ts, of which a is written and had no stray '%' and no repair.
  ghost predicate Written(a: seq<Token>, ts: seq<Token>) {
    WellLexed(a + ts) && WellLexed(ts) && OneSegment(a + ts) && !IsCurrent(a + ts) && !IsUp(a + ts)
    && NoStray(a) && forall i :: 0 <= i < |a| ==> a[i].Valid()
  }

  lemma {:induction false} FillReadable(a: seq<Token>, ts: seq<Token>, r: int)
    requires Written(a, ts) && OneSegment(ts)
    ensures var f := Fill(ts, Frame(Render(a), 0, false, false), r).0; Readable(f) && Counted(f, a + ts)
    ensures var f := Fill(ts, Frame(Render(a), 0, false, false), r).0; f.hits == 0 ==> !f.torn
    decreases |ts|
  {
    hide Render, Tokenize, Readable, WellLexed, Repaired, Nuls;
    var f := Frame(Render(a), 0, false, false);
    EndsWithoutPercent(a, r);
    if ts == [] {
      assert a + ts == a;
      RenderedReadable(a, f);
    } else if ts[0].BadPercent? {
      FillStraySegment(a, ts, r);
    } else if RepairNow(ts, f, r) {
      FillHit(a, ts, r);
    } else {
      var t := ts[0];
      assert a + ts == (a + [t]) + ts[1..];
      RenderAppend(a, [t]);
      RenderOne(t);
      FillReadableStep(ts, f, r);
      WrittenNext(a, ts);
      FillReadable(a + [t], ts[1..], r);
    }
  }

  lemma RenderOne(t: Token)
    requires !t.BadPercent?
    ensures Render([t]) == RenderToken(t)
  {
    assert [t][1..] == [];
  }

  lemma FillReadableStep(ts: seq<Token>, f: Frame, r: int)
    requires OneSegment(ts) && ts != [] && !ts[0].BadPercent? && !RepairNow(ts, f, r)
    ensures Fill(ts, f, r) == Fill(ts[1..], f.(text := f.text + RenderToken(ts[0])), r)
  {
  }

  lemma WrittenNext(a: seq<Token>, ts: seq<Token>)
    requires Written(a, ts) && ts != [] && !ts[0].BadPercent?
    ensures Written(a + [ts[0]], ts[1..])
  {
    assert a + ts == (a + [ts[0]]) + ts[1..];
  }

  // From a stray '%' on nothing is stale any more.
  lemma FillStraySegment(a: seq<Token>, ts: seq<Token>, r: int)
    requires Written(a, ts) && OneSegment(ts) && ts != [] && ts[0].BadPercent? && !Pending(Render(a), r)
    ensures var f := Fill(ts, Frame(Render(a), 0, false, false), r).0;
      Readable(f) && f.hits == 0 && !f.torn && Counted(f, a + ts)
  {
    hide Render, Tokenize, Readable, WellLexed, Nuls;
    var f := Frame(Render(a), 0, false, false);
    FillFree(ts, f, r);
    FillSafe(ts[1..], f.(text := f.text + [PERCENT]), |f.text|);
    RenderAppend(a, ts);
    RenderedReadable(a + ts, Fill(ts, f, r).0);
  }

  // A stale repair: the text so far with "25" put in, and the rest as it should be.
  lemma FillHit(a: seq<Token>, ts: seq<Token>, r: int)
    requires Written(a, ts) && OneSegment(ts) && RepairNow(ts, Frame(Render(a), 0, false, false), r) && !Pending(Render(a), r)
    ensures var f := Fill(ts, Frame(Render(a), 0, false, false), r).0;
      Readable(f) && f.hits == 1 && Counted(f, a + ts)
  {
    hide Render, Tokenize, Readable, WellLexed, Nuls;
    var f := Frame(Render(a), 0, false, false);
    var s, rest := f.text + [ts[0].c], ts[1..];
    assert !NamesPercent(s, r);
    var g := Frame(Repaired(s, r), 1, Tears(s, r), Hides(s, r));
    assert Fill(ts, f, r) == Fill(rest, g, r);
    WellLexedTail(ts);
    FillSafe(rest, g, r);
    FillFree(rest, g, r);
    HitReadable(a, ts, r, Fill(rest, g, r).0);
  }

  lemma WellLexedTail(ts: seq<Token>)
    requires WellLexed(ts) && ts != []
    ensures WellLexed(ts[1..]) && ts[0].Valid()
  {
  }

  predicate Hit(f: Frame, s: seq<byte>, r: int) {
    f.hits == 1 && f.hidden == Hides(s, r)
  }

  lemma HitReadable(a: seq<Token>, ts: seq<Token>, r: int, f: Frame)
    requires Written(a, ts) && OneSegment(ts) && RepairNow(ts, Frame(Render(a), 0, false, false), r)
    requires var s := Render(a) + [ts[0].c];
             f.text == Repaired(s, r) + Render(ts[1..]) && f.torn == Tears(s, r) && Hit(f, s, r)
    ensures Readable(f) && Counted(f, a + ts)
  {
    hide Render, Tokenize, Readable, WellLexed, Counted;
    var s, c := Render(a) + [ts[0].c], ts[0].c;
    if r == |s| - 2 {
      Parts(Render(a), [c]);
      RenderNothing();
      assert [] + [c] == [c] && a + [] == a;
      Inserted(a, [], ts, f);
    } else {
      HitBehind(a, ts, r, f);
    }
  }

  // "25" in front of the tokens t and ts leaves a text that reads back as itself.
  lemma Inserted(a: seq<Token>, t: seq<Token>, ts: seq<Token>, f: Frame)
    requires Written(a + t, ts) && ts != [] && ts[0].Unescaped? && OneSegment(ts)
    requires f.text == Render(a) + [TWO, FIVE] + (Render(t) + [ts[0].c]) + Render(ts[1..]) && !f.torn
    requires f.hits == 1 && !f.hidden
    ensures Readable(f) && Counted(f, a + t + ts)
  {
    hide Render, Tokenize, Readable, WellLexed, Nuls;
    var digits := [Raw(TWO), Raw(FIVE)];
    var front := a + digits + t;
    assert forall i :: 0 <= i < |a| ==> a[i] == (a + t)[i];
    assert forall i :: 0 <= i < |t| ==> t[i] == (a + t)[i + |a|];
    WellLexedAppend(front, ts);
    RenderAppend(front, ts);
    RenderAppend(a + digits, t);
    RenderAppend(a, digits);
    RenderDigits();
    RenderUnescapedFirst(ts);
    Assoc(Render(a) + [TWO, FIVE], Render(t), [ts[0].c]);
    Assoc(Render(a) + [TWO, FIVE] + Render(t), [ts[0].c], Render(ts[1..]));
    assert OneSegment(a + t + ts);
    assert forall i :: 0 <= i < |a| ==> !a[i].Slash? by { assert forall i :: 0 <= i < |a| ==> a[i] == (a + t + ts)[i]; }
    assert forall i :: 0 <= i < |t| ==> !t[i].Slash? by { assert forall i :: 0 <= i < |t| ==> t[i] == (a + t + ts)[i + |a|]; }
    assert (front + ts)[|a|] == Raw(TWO);
    RenderedReadable(front + ts, f);
    NulsInserted(a, digits, t, ts);
    DigitsNuls();
  }

  lemma NulsInserted(a: seq<Token>, mid: seq<Token>, t: seq<Token>, ts: seq<Token>)
    ensures Nuls(a + mid + t + ts) == Nuls(a + t + ts) + Nuls(mid)
  {
    hide Nuls;
    NulsAppend(a + mid + t, ts);
    NulsAppend(a + mid, t);
    NulsAppend(a, mid);
    NulsAppend(a + t, ts);
    NulsAppend(a, t);
  }

  lemma DigitsNuls()
    ensures Nuls([Raw(TWO), Raw(FIVE)]) == 0
  {
    assert [Raw(TWO), Raw(FIVE)] == [Raw(TWO)] + [Raw(FIVE)];
    NulsAppend([Raw(TWO)], [Raw(FIVE)]);
    OneNul(Raw(TWO));
    OneNul(Raw(FIVE));
  }

  lemma RenderDigits()
    ensures Render([Raw(TWO), Raw(FIVE)]) == [TWO, FIVE]
  {
    assert [Raw(TWO), Raw(FIVE)] == [Raw(TWO)] + [Raw(FIVE)];
    RenderAppend([Raw(TWO)], [Raw(FIVE)]);
    RenderOne(Raw(TWO));
    RenderOne(Raw(FIVE));
  }

  lemma RenderUnescapedFirst(ts: seq<Token>)
    requires ts != [] && ts[0].Unescaped?
    ensures Render(ts) == [ts[0].c] + Render(ts[1..])
  {
  }

  // The repair falls in front of the last character written before the unescaped one.
  lemma HitBehind(a: seq<Token>, ts: seq<Token>, r: int, f: Frame)
    requires Written(a, ts) && OneSegment(ts) && RepairNow(ts, Frame(Render(a), 0, false, false), r)
    requires var s := Render(a) + [ts[0].c];
             r == |s| - 3 && f.text == Repaired(s, r) + Render(ts[1..]) && f.torn == Tears(s, r) && Hit(f, s, r)
    ensures Readable(f) && Counted(f, a + ts)
  {
    hide Render, Tokenize, Readable, WellLexed, Counted;
    assert a != [] by { RenderNothing(); }
    var k := |a| - 1;
    var a0, t := a[..k], a[k];
    assert a == a0 + [t];
    RenderAppend(a0, [t]);
    RenderOne(t);
    if |RenderToken(t)| == 1 {
      HitBehindCharacter(a0, t, ts, r, f);
    } else {
      HitInEscape(a0, t, ts, r, f);
    }
  }

  lemma HitBehindCharacter(a: seq<Token>, t: Token, ts: seq<Token>, r: int, f: Frame)
    requires Written(a + [t], ts) && OneSegment(ts) && ts != [] && ts[0].Unescaped?
    requires !t.BadPercent? && |RenderToken(t)| == 1 && r == |Render(a)| - 1
    requires var s := Render(a) + RenderToken(t) + [ts[0].c];
             f.text == Repaired(s, r) + Render(ts[1..]) && f.torn == Tears(s, r) && Hit(f, s, r)
    ensures Readable(f) && Counted(f, a + [t] + ts)
  {
    hide Render, Tokenize, Readable, WellLexed, Counted;
    var p, q := Render(a), RenderToken(t) + [ts[0].c];
    var s := p + RenderToken(t) + [ts[0].c];
    assert forall i :: 0 <= i < |a| ==> a[i] == (a + [t])[i];
    EndsWithoutPercent(a, |p| - 2);
    Assoc(p, RenderToken(t), [ts[0].c]);
    Parts(p, q);
    assert |p| >= 2 ==> s[r - 1] == p[r - 1];
    RenderOne(t);
    Inserted(a, [t], ts, f);
  }

  // What a repair behind the first digit of an escape leaves.
  lemma EscapeShape(p: seq<byte>, d: byte, x: byte, c: byte)
    ensures var s, r := p + [PERCENT, d, x] + [c], |p| + 1;
      && Repaired(s, r) == p + [PERCENT, d, TWO, FIVE, x, c]
      && s[r - 1] == PERCENT && s[r] == d && s[r + 1] == x
  {
    var s := p + [PERCENT, d, x] + [c];
    assert s == (p + [PERCENT, d]) + [x, c];
    Parts(p + [PERCENT, d], [x, c]);
  }

  lemma HitInEscape(a: seq<Token>, t: Token, ts: seq<Token>, r: int, f: Frame)
    requires Written(a + [t], ts) && OneSegment(ts) && ts != [] && ts[0].Unescaped?
    requires t.Valid() && (t.Kept? || t.ToEscape?) && r == |Render(a)| + 1
    requires var s := Render(a) + RenderToken(t) + [ts[0].c];
             f.text == Repaired(s, r) + Render(ts[1..]) && f.torn == Tears(s, r) && Hit(f, s, r)
    ensures Readable(f) && Counted(f, a + [t] + ts)
  {
    var p, c, d, x := Render(a), ts[0].c, RenderToken(t)[1], RenderToken(t)[2];
    assert RenderToken(t) == [PERCENT, d, x];
    hide Render, Tokenize, Readable, WellLexed, Counted, RenderToken, Repaired, Written;
    EscapeShape(p, d, x, c);
    NulDigits(t, d, x);
    if f.torn {
      HitTorn(a, t, d, x, ts, f);
    } else {
      KeptReadable(a, t, d, x, ts, f);
    }
  }

  lemma HitTorn(a: seq<Token>, t: Token, d: byte, x: byte, ts: seq<Token>, f: Frame)
    requires Written(a + [t], ts) && OneSegment(ts) && ts != [] && ts[0].Unescaped?
    requires IsHexChar(d) && IsHexChar(x) && 0x33 <= d <= 0x37 && !IsNul(t) && f.torn && f.hits == 1 && !f.hidden
    requires f.text == Render(a) + [PERCENT, d, TWO, FIVE, x, ts[0].c] + Render(ts[1..])
    ensures Readable(f) && Counted(f, a + [t] + ts)
  {
    hide Render, Tokenize, Readable, WellLexed, Counted;
    var p, c := Render(a), ts[0].c;
    var z := [FIVE, x, c] + Render(ts[1..]);
    assert [PERCENT, d, TWO, FIVE, x, c] == [PERCENT, d, TWO] + [FIVE, x, c];
    Assoc([PERCENT, d, TWO], [FIVE, x, c], Render(ts[1..]));
    Assoc(p, [PERCENT, d, TWO] + [FIVE, x, c], Render(ts[1..]));
    RenderNoSlash(ts);
    RenderUnescapedFirst(ts);
    assert forall i :: 0 <= i < |a| ==> a[i] == (a + [t])[i] && a[i] == (a + [t] + ts)[i];
    TornReadable(a, d, z, f);
    TornCounted(a, t, d, x, z, ts, f);
  }

  lemma {:induction false} RenderNoSlash(ts: seq<Token>)
    requires WellLexed(ts) && OneSegment(ts)
    ensures SLASH !in Render(ts) && BACKSLASH !in Render(ts)
  {
    if ts != [] { RenderNoSlash(ts[1..]); }
  }

  lemma RenderNothing()
    ensures Render([]) == []
  {
  }

  // The escape got '2' as its second digit and is still kept.
  lemma KeptReadable(a: seq<Token>, t: Token, d: byte, x: byte, ts: seq<Token>, f: Frame)
    requires Written(a + [t], ts) && ts != [] && ts[0].Unescaped? && OneSegment(ts)
    requires IsHexChar(d) && IsHexChar(x) && !(0x33 <= d <= 0x37) && !f.torn
    requires f.text == Render(a) + [PERCENT, d, TWO, FIVE, x, ts[0].c] + Render(ts[1..])
    requires f.hits == 1 && f.hidden == IsNul(t)
    ensures Readable(f) && Counted(f, a + [t] + ts)
  {
    hide Render, Tokenize, Readable, WellLexed, Nuls;
    var mid := [Kept(d, TWO), Raw(FIVE), Raw(x)];
    var front := a + mid;
    KeptTwo(d);
    assert forall i :: 0 <= i < |a| ==> a[i] == (a + [t])[i] && a[i] == (a + [t] + ts)[i];
    WellLexedAppend(front, ts);
    RenderAppend(front, ts);
    RenderAppend(a, mid);
    RenderKept(d, x);
    RenderUnescapedFirst(ts);
    assert [PERCENT, d, TWO, FIVE, x, ts[0].c] == [PERCENT, d, TWO, FIVE, x] + [ts[0].c];
    Assoc(Render(a), [PERCENT, d, TWO, FIVE, x], [ts[0].c]);
    Assoc(Render(a) + [PERCENT, d, TWO, FIVE, x], [ts[0].c], Render(ts[1..]));
    assert (front + ts)[|a|] == Kept(d, TWO);
    RenderedReadable(front + ts, f);
    NulsBetween(a, mid, ts);
    NulsBetween(a, [t], ts);
    KeptNuls(d, x);
    OneNul(t);
  }

  lemma NulsBetween(a: seq<Token>, mid: seq<Token>, ts: seq<Token>)
    ensures Nuls(a + mid + ts) == Nuls(a) + Nuls(mid) + Nuls(ts)
  {
    hide Nuls;
    NulsAppend(a + mid, ts);
    NulsAppend(a, mid);
  }

  lemma KeptNuls(d: byte, x: byte)
    requires IsHexChar(d) && IsHexChar(x)
    ensures Nuls([Kept(d, TWO), Raw(FIVE), Raw(x)]) == 0
  {
    assert [Kept(d, TWO), Raw(FIVE), Raw(x)] == [Kept(d, TWO)] + [Raw(FIVE)] + [Raw(x)];
    NulsBetween([Kept(d, TWO)], [Raw(FIVE)], [Raw(x)]);
    OneNul(Kept(d, TWO));
    OneNul(Raw(FIVE));
    OneNul(Raw(x));
  }

  // The digits of an escape say whether it is that of a NUL.
  lemma NulDigits(t: Token, d: byte, x: byte)
    requires t.Valid() && (t.Kept? || t.ToEscape?) && RenderToken(t) == [PERCENT, d, x]
    ensures IsHexChar(d) && IsHexChar(x) && (IsNul(t) <==> d == x == 0x30)
  {
    assert RenderToken(t)[1] == d && RenderToken(t)[2] == x;
  }

  lemma KeptTwo(d: byte)
    requires IsHexChar(d)
    ensures Kept(d, TWO).Valid() <==> !(0x33 <= d <= 0x37)
    ensures 0x33 <= d <= 0x37 ==> Class(EscapeValue(d, TWO)) == Unescape
  {
  }

  lemma RenderKept(d: byte, x: byte)
    ensures Render([Kept(d, TWO), Raw(FIVE), Raw(x)]) == [PERCENT, d, TWO, FIVE, x]
  {
    assert [Kept(d, TWO), Raw(FIVE), Raw(x)] == [Kept(d, TWO)] + ([Raw(FIVE)] + [Raw(x)]);
    RenderAppend([Kept(d, TWO)], [Raw(FIVE)] + [Raw(x)]);
    RenderAppend([Raw(FIVE)], [Raw(x)]);
    RenderOne(Kept(d, TWO));
    RenderOne(Raw(FIVE));
    RenderOne(Raw(x));
  }

  // The escape became one that is undone: where the text has a '%', reading it again has
  // the character it now stands for.
  lemma TornReadable(a: seq<Token>, d: byte, z: seq<byte>, f: Frame)
    requires NoStray(a) && (forall i :: 0 <= i < |a| ==> a[i].Valid() && !a[i].Slash?)
    requires IsHexChar(d) && 0x33 <= d <= 0x37 && f.torn
    requires SLASH !in z && BACKSLASH !in z && f.text == Render(a) + ([PERCENT, d, TWO] + z)
    ensures Readable(f)
  {
    hide Render, Tokenize, WellLexed, Reread, OneSegment;
    var w := [PERCENT, d, TWO] + z;
    KeptTwo(d);
    var v := Unescaped(EscapeValue(d, TWO));
    assert Lex(w) == (v, 3) && w[3..] == z;
    TokenizeLexed(w);
    TokenizeBehind(a, w);
    WellLexedAppend(a, []);
    assert a + [] == a;
    RereadAlike(a);
    NoSlashTokens(z);
    RereadNoStray(a);
    RenderAppend(Reread(a), Tokenize(w));
    RenderReread(a);
    RenderUnescapedFirst(Tokenize(w));
    var ts := Reread(a) + Tokenize(w);
    assert Tokenize(f.text) == ts && ts[|a|] == v;
    assert Render(ts)[|Render(a)|] == v.c && f.text[|Render(a)|] == PERCENT;
    assert OneSegment(ts) by { TornSegment(a, v, z); }
  }

  lemma TornCounted(a: seq<Token>, t: Token, d: byte, x: byte, z: seq<byte>, ts: seq<Token>, f: Frame)
    requires NoStray(a) && (forall i :: 0 <= i < |a| ==> a[i].Valid()) && WellLexed(ts)
    requires IsHexChar(d) && IsHexChar(x) && 0x33 <= d <= 0x37 && !IsNul(t) && f.hits == 1 && !f.hidden
    requires ts != [] && ts[0].Unescaped? && z == [FIVE, x, ts[0].c] + Render(ts[1..])
    requires f.text == Render(a) + ([PERCENT, d, TWO] + z)
    ensures Counted(f, a + [t] + ts)
  {
    hide Render, Tokenize, WellLexed, Reread, Nuls;
    var w := [PERCENT, d, TWO] + z;
    KeptTwo(d);
    var v := Unescaped(EscapeValue(d, TWO));
    assert Lex(w) == (v, 3) && w[3..] == z;
    TokenizeLexed(w);
    TokenizeBehind(a, w);
    WellLexedAppend(a, []);
    assert a + [] == a;
    RereadAlike(a);
    NulsReread(a);
    TornTail(x, z, ts);
    NulsAppend(Reread(a), [v] + Tokenize(z));
    NulsAppend([v], Tokenize(z));
    NulsBetween(a, [t], ts);
    OneNul(v);
    OneNul(t);
  }

  lemma OneNul(t: Token)
    ensures Nuls([t]) == if IsNul(t) then 1 else 0
  {
    assert [t][1..] == [];
  }

  lemma TornTail(x: byte, z: seq<byte>, ts: seq<Token>)
    requires IsHexChar(x) && WellLexed(ts) && ts != [] && ts[0].Unescaped? && z == [FIVE, x, ts[0].c] + Render(ts[1..])
    ensures |Tokenize(z)| == |ts| + 2 && Nuls(Tokenize(z)) == Nuls(ts)
  {
    hide Render, Tokenize, WellLexed, Reread, Nuls;
    var front := [Raw(FIVE), Raw(x)];
    WellLexedAppend(front, ts);
    RenderAppend(front, ts);
    RenderAppend([Raw(FIVE)], [Raw(x)]);
    assert front == [Raw(FIVE)] + [Raw(x)];
    RenderOne(Raw(FIVE));
    RenderOne(Raw(x));
    RenderUnescapedFirst(ts);
    assert z == Render(front + ts);
    TokenizeRender(front + ts);
    RereadAlike(front + ts);
    NulsReread(front + ts);
    NulsAppend(front, ts);
    NulsAppend([Raw(FIVE)], [Raw(x)]);
    OneNul(Raw(FIVE));
    OneNul(Raw(x));
  }

  lemma TornSegment(a: seq<Token>, v: Token, z: seq<byte>)
    requires v.Unescaped? && |Reread(a)| == |a| && OneSegment(Tokenize(z))
    requires forall i :: 0 <= i < |a| ==> !Reread(a)[i].Slash?
    ensures OneSegment(Reread(a) + ([v] + Tokenize(z)))
  {
    hide Reread, Tokenize;
  }

  lemma {:induction false} RereadNoStray(a: seq<Token>)
    requires NoStray(a)
    ensures NoStray(Reread(a))
  {
    if a != [] { RereadNoStray(a[1..]); }
  }

  // Text without a stray '%' is read the same whatever comes behind it.
  lemma {:induction false} TokenizeBehind(a: seq<Token>, w: seq<byte>)
    requires NoStray(a) && forall i :: 0 <= i < |a| ==> a[i].Valid()
    ensures Tokenize(Render(a) + w) == Reread(a) + Tokenize(w)
  {
    if a == [] {
      assert Render(a) + w == w && Reread(a) + Tokenize(w) == Tokenize(w);
    } else {
      hide Lex;
      var y := Render(a[1..]) + w;
      TokenizeBehind(a[1..], w);
      LexRender(a[0], y);
      Assoc(RenderToken(a[0]), Render(a[1..]), w);
      Parts(RenderToken(a[0]), y);
      TokenizeLexed(RenderToken(a[0]) + y);
      Assoc([Reread(a)[0]], Reread(a[1..]), Tokenize(w));
    }
  }

  lemma {:induction false} NoSlashTokens(z: seq<byte>)
    requires SLASH !in z && BACKSLASH !in z
    ensures OneSegment(Tokenize(z))
    decreases |z|
  {
    if z != [] { NoSlashTokens(z[Lex(z).1..]); }
  }

  // ---------- every frame of every run ----------

  ghost predicate AllReadable(frames: seq<Frame>) {
    forall i :: 0 <= i < |frames| ==> Readable(frames[i]) && NoSlashes(frames[i].text)
  }

  predicate NoSlashes(s: seq<byte>) {
    SLASH !in s && BACKSLASH !in s
  }

  lemma EmptyReadable()
    ensures Readable(EMPTY) && NoSlashes(EMPTY.text)
  {
  }

  // What putting a token does to the text: the token behind it, perhaps repaired.
  lemma PutShape(f: Frame, r: int, t: Token, nextHex: bool)
    requires !t.Slash?
    ensures var w, added := Put(f, r, t, nextHex).0.text, if t.BadPercent? then [PERCENT] else RenderToken(t);
      w == f.text + added || (-1 <= r < |f.text + added| && w == Repaired(f.text + added, r))
  {
  }

  lemma TokenNoSlashes(t: Token)
    requires !t.Slash? && t.Valid()
    ensures NoSlashes(if t.BadPercent? then [PERCENT] else RenderToken(t))
  {
  }

  lemma {:induction false} FillNoSlashes(ts: seq<Token>, f: Frame, r: int)
    requires OneSegment(ts) && WellLexed(ts) && NoSlashes(f.text)
    ensures NoSlashes(Fill(ts, f, r).0.text)
  {
    hide Put, Repaired, RenderToken;
    if ts != [] {
      var t := ts[0];
      var added := if t.BadPercent? then [PERCENT] else RenderToken(t);
      var p := Put(f, r, t, NextHex(ts[1..]));
      PutShape(f, r, t, NextHex(ts[1..]));
      TokenNoSlashes(t);
      assert NoSlashes(f.text + added);
      if p.0.text != f.text + added {
        RepairedKeepsOut(f.text + added, r, SLASH);
        RepairedKeepsOut(f.text + added, r, BACKSLASH);
      }
      FillNoSlashes(ts[1..], p.0, p.1);
    }
  }

  lemma SegmentReadable(seg: seq<Token>, b: Buffer)
    requires OneSegment(seg) && WellLexed(seg) && !IsCurrent(seg) && !IsUp(seg) && b.cur == EMPTY
    ensures var f := FillBuffer(seg, b).cur;
      Readable(f) && NoSlashes(f.text) && (f.hits == 0 ==> !f.torn) && Counted(f, seg)
  {
    hide Fill, Readable, WellLexed, Counted;
    RenderNothing();
    assert [] + seg == seg;
    FillReadable([], seg, b.marker - |Flat(b.dirs)|);
    FillNoSlashes(seg, EMPTY, b.marker - |Flat(b.dirs)|);
  }

  // Every segment is readable, only stale repairs tear, and the path starts with a slash.
  ghost predicate Good(b: Buffer) {
    && AllReadable(b.Frames()) && (b.dirs != [] ==> b.dirs[0].text == [])
    && forall i :: 0 <= i < |b.Frames()| ==> (b.Frames()[i].hits == 0 ==> !b.Frames()[i].torn)
  }

  lemma {:induction false} GoGood(ts: seq<Token>, b: Buffer)
    requires WellLexed(ts) && b.cur == EMPTY && Good(b)
    requires b.dirs == [] ==> ts != [] && ts[0].Slash?
    ensures Good(Go(ts, b)) && Go(ts, b).dirs != []
    decreases |ts|
  {
    hide Go, Readable, WellLexed, Flat, Fill;
    var n := SegmentLength(ts);
    var seg, rest := ts[..n], ts[n..];
    assert ts == seg + rest;
    WellLexedParts(ts, n);
    assert n < |ts| ==> rest[1..] == ts[n + 1..];
    if n < |ts| { WellLexedParts(ts, n + 1); }
    if IsCurrent(seg) || IsUp(seg) {
      GoDirectory(seg, rest, b);
      var c := if IsUp(seg) then b.(dirs := Pop(b.dirs)) else b;
      GoodPop(b);
      if n < |ts| { GoGood(ts[n + 1..], c); } else { GoNothing(c); }
    } else {
      GoOrdinary(seg, rest, b);
      var c := FillBuffer(seg, b);
      SegmentReadable(seg, b);
      if seg == [] { FillNothing(b); }
      GoodFill(b, c);
      if n < |ts| {
        GoSlash(rest, c);
        GoGood(ts[n + 1..], Close(c));
      } else {
        GoNothing(c);
      }
    }
  }

  lemma FillNothing(b: Buffer)
    ensures FillBuffer([], b) == b
  {
  }

  lemma GoodPop(b: Buffer)
    requires Good(b)
    ensures Good(b.(dirs := Pop(b.dirs)))
  {
    hide Readable;
    var c := b.(dirs := Pop(b.dirs));
    forall i | 0 <= i < |c.Frames()| ensures c.Frames()[i] in b.Frames() {
      assert c.Frames()[i] == if i < |c.dirs| then b.Frames()[i] else b.Frames()[|b.dirs|];
    }
  }

  lemma GoodFill(b: Buffer, c: Buffer)
    requires Good(b) && c.dirs == b.dirs && b.cur == EMPTY
    requires Readable(c.cur) && NoSlashes(c.cur.text) && (c.cur.hits == 0 ==> !c.cur.torn)
    requires b.dirs == [] ==> c.cur.text == []
    ensures Good(c) && Good(Close(c))
  {
    hide Readable;
    assert forall i :: 0 <= i < |b.dirs| ==> b.dirs[i] == b.Frames()[i];
    assert b.cur == b.Frames()[|b.dirs|];
    forall i | 0 <= i < |c.Frames()|
      ensures Readable(c.Frames()[i]) && NoSlashes(c.Frames()[i].text) && (c.Frames()[i].hits == 0 ==> !c.Frames()[i].torn)
    {
      assert c.Frames()[i] == if i < |b.dirs| then b.dirs[i] else c.cur;
    }
    var d := Close(c);
    forall i | 0 <= i < |d.Frames()|
      ensures Readable(d.Frames()[i]) && NoSlashes(d.Frames()[i].text) && (d.Frames()[i].hits == 0 ==> !d.Frames()[i].torn)
    {
      assert d.Frames()[i] == if i <= |b.dirs| then c.Frames()[i] else EMPTY;
    }
  }
}
