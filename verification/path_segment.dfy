/** One segment of a path, written from left to right as the source does it.

    The source copies a stray '%' as it stands and remembers where.  When a later unescaped
    character turns out to complete an escape it goes back and rewrites the '%' as "%25".  The
    remembered index survives a rewind of the buffer, so it may name a character that is not
    a '%' any more; a repair made there is counted as a hit. */
module PathSegment {
  import opened Bytes
  import opened PathTokens

  // The text written for a segment, the repairs made at an index that named no '%', whether
  // one of those tore an escape that must be undone when read again, and whether one hid an
  // escaped NUL.
  datatype Frame = Frame(text: seq<byte>, hits: nat, torn: bool, hidden: bool)

  const EMPTY := Frame([], 0, false, false)

  // text ends with a character just unescaped; r is the remembered index, relative to the
  // start of the segment (-1 is the slash in front of it).  Does the text, with the next
  // input character if need be, read as an escape at r?
  predicate Fires(text: seq<byte>, r: int, nextHex: bool)
    requires text != []
  {
    r >= -1 && IsHexChar(text[|text| - 1])
    && ((r == |text| - 2 && nextHex) || (r == |text| - 3 && IsHexChar(text[r + 1])))
  }

  predicate NamesPercent(text: seq<byte>, r: int) {
    0 <= r < |text| && text[r] == PERCENT
  }

  // A repair behind the first digit of an escape that can become '2', 'B', 'R', 'b' or 'r'.
  predicate Tears(text: seq<byte>, r: int) {
    1 <= r == |text| - 3 && text[r - 1] == PERCENT && 0x33 <= text[r] <= 0x37
  }

  // A repair behind the first digit of "%00", which makes it "%02".
  predicate Hides(text: seq<byte>, r: int) {
    1 <= r == |text| - 3 && text[r - 1] == PERCENT && text[r] == text[r + 1] == 0x30
  }

  function Repaired(text: seq<byte>, r: int): seq<byte>
    requires -1 <= r < |text|
  {
    text[..r + 1] + [TWO, FIVE] + text[r + 1..]
  }

  lemma RepairedKeepsOut(s: seq<byte>, r: int, c: byte)
    requires -1 <= r < |s| && c !in s && c != TWO && c != FIVE
    ensures c !in Repaired(s, r)
  {
    assert c !in s[..r + 1] && c !in s[r + 1..] && c !in [TWO, FIVE];
  }

  function Put(f: Frame, r: int, t: Token, nextHex: bool): (Frame, int)
    requires !t.Slash?
  {
    if t.Unescaped? then
      var s := f.text + [t.c];
      if !Fires(s, r, nextHex) then (f.(text := s), r)
      else if NamesPercent(s, r) then (f.(text := Repaired(s, r)), r)
      else (Frame(Repaired(s, r), f.hits + 1, f.torn || Tears(s, r), f.hidden || Hides(s, r)), r)
    else if t.BadPercent? then (f.(text := f.text + [PERCENT]), |f.text|)
    else (f.(text := f.text + RenderToken(t)), r)
  }

  predicate NextHex(ts: seq<Token>) {
    ts != [] && ts[0].RawHex()
  }

  predicate OneSegment(ts: seq<Token>) {
    forall i :: 0 <= i < |ts| ==> !ts[i].Slash?
  }

  function Fill(ts: seq<Token>, f: Frame, r: int): (Frame, int)
    requires OneSegment(ts)
  {
    if ts == [] then (f, r)
    else var (g, q) := Put(f, r, ts[0], NextHex(ts[1..])); Fill(ts[1..], g, q)
  }

  // What the frame must be once the segment is complete: the wanted text, or that text with
  // two characters added for every hit.
  predicate Meets(f: Frame, before: nat, want: seq<byte>)
  {
    f.hits >= before && |f.text| == |want| + 2 * (f.hits - before)
    && (f.hits == before ==> f.text == want)
  }

  // A stray '%' is pending while it can still become the start of an escape.
  predicate Pending(text: seq<byte>, r: int) {
    NamesPercent(text, r) && r >= |text| - 2
  }

  lemma MeetsThen(g: Frame, h: Frame, before: nat, a: seq<byte>, b: seq<byte>)
    requires Meets(g, before, a) && Meets(h, g.hits, g.text + b)
    ensures Meets(h, before, a + b)
  {
  }

  // One token written while no stray '%' is pending.
  lemma PutFree(f: Frame, r: int, t: Token, nextHex: bool)
    requires !t.Slash? && !t.BadPercent? && t.Valid()
    requires !Pending(f.text, r)
    ensures var (g, q) := Put(f, r, t, nextHex);
            !Pending(g.text, q) && Meets(g, f.hits, f.text + RenderToken(t))
  {
    var g := Put(f, r, t, nextHex).0;
    if t.Unescaped? {
      var s := f.text + [t.c];
      assert forall i :: 0 <= i < |f.text| ==> s[i] == f.text[i];
    } else if t.Kept? || t.ToEscape? {
      var k := |f.text|;
      assert g.text[k + 1] == RenderToken(t)[1] && g.text[k + 2] == RenderToken(t)[2];
    } else {
      assert g.text == f.text + [RenderToken(t)[0]];
    }
  }

  // A '%' and perhaps one more character in front of text that does not complete an escape.
  lemma StrayBefore(x: seq<byte>, h: seq<byte>, s: seq<byte>)
    requires |h| <= 1 && s != []
    requires !(IsHexChar(s[0]) && (h == [] || IsHexChar(h[0])))
    ensures x + StrayPercent(h + s) == x + ([PERCENT] + h) + s
  {
    var w := h + s;
    assert w[|h|] == s[0] && (h != [] ==> w[0] == h[0]);
    Assoc([PERCENT], h, s);
    Assoc(x, [PERCENT] + h, s);
  }

  // A '%' that the unescaped digit at the end of d has completed.
  lemma StrayRepaired(x: seq<byte>, d: seq<byte>, r: seq<byte>)
    requires 1 <= |d| <= 2 && |d| + |r| >= 2
    requires forall i :: 0 <= i < 2 ==> IsHexChar((d + r)[i])
    ensures x + StrayPercent(d + r) == x + [PERCENT, TWO, FIVE] + d + r
    ensures Repaired(x + [PERCENT] + d, |x|) == x + [PERCENT, TWO, FIVE] + d
  {
    Parts(x + [PERCENT], d);
    Assoc(x, [PERCENT], [TWO, FIVE]);
    assert [PERCENT] + [TWO, FIVE] == [PERCENT, TWO, FIVE];
    Assoc([PERCENT, TWO, FIVE], d, r);
    Assoc(x, [PERCENT, TWO, FIVE], d);
    Assoc(x, [PERCENT, TWO, FIVE] + d, r);
  }

  lemma {:induction false} FillFree(ts: seq<Token>, f: Frame, r: int)
    requires OneSegment(ts) && WellLexed(ts)
    requires !Pending(f.text, r)
    ensures Meets(Fill(ts, f, r).0, f.hits, f.text + Render(ts))
    decreases |ts|, 2
  {
    if ts == [] {
      assert f.text + Render(ts) == f.text;
    } else if ts[0].BadPercent? {
      FillPending(ts[1..], f.(text := f.text + [PERCENT]), f.text, []);
      assert [] + Render(ts[1..]) == Render(ts[1..]);
    } else {
      FillFreeToken(ts, f, r);
    }
  }

  lemma {:induction false} FillFreeToken(ts: seq<Token>, f: Frame, r: int)
    requires OneSegment(ts) && WellLexed(ts) && ts != [] && !ts[0].BadPercent?
    requires !Pending(f.text, r)
    ensures Meets(Fill(ts, f, r).0, f.hits, f.text + Render(ts))
    decreases |ts|, 1
  {
    var rest := ts[1..];
    var p := Put(f, r, ts[0], NextHex(rest));
    PutFree(f, r, ts[0], NextHex(rest));
    FillFree(rest, p.0, p.1);
    MeetsThen(p.0, Fill(rest, p.0, p.1).0, f.hits, f.text + RenderToken(ts[0]), Render(rest));
    RenderFirst(f.text, ts);
  }

  lemma RenderFirst(x: seq<byte>, ts: seq<Token>)
    requires ts != [] && !ts[0].BadPercent?
    ensures x + Render(ts) == x + RenderToken(ts[0]) + Render(ts[1..])
  {
  }

  // f ends with a stray '%' and at most one more character; ts cannot turn it into an escape
  // with plain digits alone.
  predicate Stray(ts: seq<Token>, f: Frame, x: seq<byte>, h: seq<byte>) {
    OneSegment(ts) && WellLexed(ts) && |h| <= 1 && f.text == x + ([PERCENT] + h)
    && (h == [] ==> StrayOk(ts)) && (|h| == 1 && IsHexChar(h[0]) ==> !NextHex(ts))
  }

  predicate RepairNow(ts: seq<Token>, f: Frame, r: int) {
    ts != [] && ts[0].Unescaped? && Fires(f.text + [ts[0].c], r, NextHex(ts[1..]))
  }

  predicate OneCharacter(t: Token) {
    t.Raw? || t.Dot? || t.Unescaped?
  }

  lemma {:induction false} FillPending(ts: seq<Token>, f: Frame, x: seq<byte>, h: seq<byte>)
    requires Stray(ts, f, x, h)
    ensures Meets(Fill(ts, f, |x|).0, f.hits, x + StrayPercent(h + Render(ts)))
    decreases |ts|, 1
  {
    if ts == [] {
    } else if ts[0].BadPercent? {
      FillStray(ts, f, x, h);
    } else if RepairNow(ts, f, |x|) {
      FillRepaired(ts, f, x, h);
    } else if h == [] && OneCharacter(ts[0]) {
      FillDigit(ts, f, x);
    } else {
      FillSettled(ts, f, x, h);
    }
  }

  lemma {:induction false} FillStray(ts: seq<Token>, f: Frame, x: seq<byte>, h: seq<byte>)
    requires Stray(ts, f, x, h) && ts != [] && ts[0].BadPercent?
    ensures Meets(Fill(ts, f, |x|).0, f.hits, x + StrayPercent(h + Render(ts)))
    decreases |ts|, 0
  {
    var rest := ts[1..];
    FillPending(rest, f.(text := f.text + [PERCENT]), f.text, []);
    assert [] + Render(rest) == Render(rest);
    StrayBefore(x, h, Render(ts));
  }

  // The repair happens now.
  lemma {:induction false} FillRepaired(ts: seq<Token>, f: Frame, x: seq<byte>, h: seq<byte>)
    requires Stray(ts, f, x, h) && RepairNow(ts, f, |x|)
    ensures Meets(Fill(ts, f, |x|).0, f.hits, x + StrayPercent(h + Render(ts)))
    decreases |ts|, 0
  {
    var d, rest := h + [ts[0].c], ts[1..];
    RepairedToken(ts, f, x, h);
    var g := f.(text := x + [PERCENT, TWO, FIVE] + d);
    FillFree(rest, g, |x|);
    assert g.text + Render(rest) == x + StrayPercent(h + Render(ts));
  }

  lemma RepairedToken(ts: seq<Token>, f: Frame, x: seq<byte>, h: seq<byte>)
    requires Stray(ts, f, x, h) && RepairNow(ts, f, |x|)
    ensures var d := h + [ts[0].c];
            && x + StrayPercent(h + Render(ts)) == x + [PERCENT, TWO, FIVE] + d + Render(ts[1..])
            && Put(f, |x|, ts[0], NextHex(ts[1..])) == (f.(text := x + [PERCENT, TWO, FIVE] + d), |x|)
  {
    var d, rest := h + [ts[0].c], ts[1..];
    var s := f.text + [ts[0].c];
    Assoc(x, [PERCENT], d);
    Assoc([PERCENT], h, [ts[0].c]);
    Assoc(x, [PERCENT] + h, [ts[0].c]);
    assert s == x + [PERCENT] + d;
    assert s[|x|] == PERCENT && s[|x| + 1] == d[0];
    if h == [] { RenderNextHex(rest); }
    Assoc(h, [ts[0].c], Render(rest));
    StrayRepaired(x, d, Render(rest));
  }

  lemma {:induction false} FillDigit(ts: seq<Token>, f: Frame, x: seq<byte>)
    requires Stray(ts, f, x, []) && ts != [] && OneCharacter(ts[0]) && !RepairNow(ts, f, |x|)
    ensures Meets(Fill(ts, f, |x|).0, f.hits, x + StrayPercent([] + Render(ts)))
    decreases |ts|, 0
  {
    var rest, h := ts[1..], RenderToken(ts[0]);
    var g := f.(text := f.text + h);
    assert g.text == x + ([PERCENT] + h);
    FillPending(rest, g, x, h);
    assert [] + Render(ts) == h + Render(rest);
  }

  lemma SettledToken(ts: seq<Token>, f: Frame, x: seq<byte>, h: seq<byte>)
    requires Stray(ts, f, x, h) && ts != [] && !ts[0].BadPercent? && !RepairNow(ts, f, |x|)
    requires h == [] ==> !OneCharacter(ts[0])
    ensures !(IsHexChar(RenderToken(ts[0])[0]) && (h == [] || IsHexChar(h[0])))
    ensures Put(f, |x|, ts[0], NextHex(ts[1..])) == (f.(text := f.text + RenderToken(ts[0])), |x|)
    ensures !Pending(f.text + RenderToken(ts[0]), |x|)
  {
    assert h != [] && ts[0].Unescaped? ==> f.text + [ts[0].c] == x + [PERCENT, h[0], ts[0].c];
  }

  // No repair will happen any more.
  lemma {:induction false} FillSettled(ts: seq<Token>, f: Frame, x: seq<byte>, h: seq<byte>)
    requires Stray(ts, f, x, h) && ts != [] && !ts[0].BadPercent? && !RepairNow(ts, f, |x|)
    requires h == [] ==> !OneCharacter(ts[0])
    ensures Meets(Fill(ts, f, |x|).0, f.hits, x + StrayPercent(h + Render(ts)))
    decreases |ts|, 0
  {
    var rest, g := ts[1..], f.(text := f.text + RenderToken(ts[0]));
    SettledToken(ts, f, x, h);
    FillFree(rest, g, |x|);
    StrayBefore(x, h, Render(ts));
    Assoc(f.text, RenderToken(ts[0]), Render(rest));
  }

  lemma RenderNextHex(ts: seq<Token>)
    requires NextHex(ts)
    ensures Render(ts) != [] && IsHexChar(Render(ts)[0])
  {
  }
}
