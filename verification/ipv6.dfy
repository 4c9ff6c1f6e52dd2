/** IPv6 literals: the grammar, the parser, and their agreement. */
module IPv6Parse {
  import opened Bytes
  import opened Options
  import opened IPv4

  // What a literal says: its hexadecimal groups, the number of groups in front of "::" or -1,
  // and the text of an embedded IPv4 address.
  datatype Literal = Literal(groups: seq<seq<byte>>, index: int, v4: Option<seq<byte>>)

  const NOTHING := Literal([], -1, None)

  predicate IsGroup(g: seq<byte>) {
    1 <= |g| <= 4 && AllDigits(g, 16)
  }

  // Text that is taken for an IPv4 address: behind some digits comes '.', 'x' or 'X'.
  predicate LooksIPv4(t: seq<byte>) {
    var k := HexRun(t);
    k < |t| && IsIPv4Char(t[k])
  }

  predicate WellFormed(p: Literal) {
    && -1 <= p.index <= |p.groups| <= 8
    && (forall i :: 0 <= i < |p.groups| ==> IsGroup(p.groups[i]))
    && (p.v4.Some? ==> LooksIPv4(p.v4.value))
    && (p.index == -1 ==> p.groups != [] || p.v4.Some?)
  }

  // ---------- the grammar ----------

  // Every item followed by a colon.
  function Lead(items: seq<seq<byte>>): seq<byte> {
    if items == [] then [] else Lead(items[..|items| - 1]) + items[|items| - 1] + [COLON]
  }

  // Items separated by colons.
  function JoinColons(items: seq<seq<byte>>): seq<byte> {
    if items == [] then [] else Lead(items[..|items| - 1]) + items[|items| - 1]
  }

  // The text of a literal between its brackets.
  function Show(p: Literal): seq<byte>
    requires -1 <= p.index <= |p.groups|
  {
    var end := if p.v4.Some? then [p.v4.value] else [];
    if p.index == -1 then JoinColons(p.groups + end)
    else JoinColons(p.groups[..p.index]) + [COLON, COLON] + JoinColons(p.groups[p.index..] + end)
  }

  // ---------- the parser ----------

  function HexRun(s: seq<byte>): (k: nat)
    ensures k <= |s| && AllDigits(s[..k], 16) && (k < |s| ==> !IsHexChar(s[k]))
  {
    if s == [] || !IsHexChar(s[0]) then 0
    else
      var k := 1 + HexRun(s[1..]);
      assert s[..k] == [s[0]] + s[1..][..k - 1];
      k
  }

  function AddGroup(p: Literal, g: seq<byte>): Literal {
    if g == [] then p else p.(groups := p.groups + [g])
  }

  // s starts a component; p is what has been read in front of it.
  function Parse(s: seq<byte>, p: Literal): Option<Literal>
    decreases |s|
  {
    var k := HexRun(s);
    if k < |s| && s[k] != COLON then
      if IsIPv4Char(s[k]) then Some(p.(v4 := Some(s))) else None
    else
      var atEnd, contraction := k == |s|, k + 1 < |s| && s[k + 1] == COLON;
      if k > 4 then None
      else if k == 0 && !(contraction && p == NOTHING) && !(atEnd && p.index == |p.groups|) then None
      else if k > 0 && |p.groups| >= 8 then None
      else
        var q := AddGroup(p, s[..k]);
        if atEnd then Some(q)
        else if contraction then
          if p.index != -1 then None else Parse(s[k + 2..], q.(index := |q.groups|))
        else Parse(s[k + 1..], q)
  }

  // ---------- steps ----------

  lemma {:induction false} HexRunIs(s: seq<byte>, k: nat)
    requires k <= |s| && AllDigits(s[..k], 16) && (k < |s| ==> !IsHexChar(s[k]))
    ensures HexRun(s) == k
  {
    if k > 0 {
      assert s[0] == s[..k][0] && IsDigit(s[..k][0], 16);
      assert s[1..][..k - 1] == s[..k][1..];
      assert AllDigits(s[..k][1..], 16);
      HexRunIs(s[1..], k - 1);
    }
  }

  lemma ParseGroup(g: seq<byte>, rest: seq<byte>, p: Literal)
    requires IsGroup(g) && rest != [] && rest[0] != COLON
    ensures Parse(g + [COLON] + rest, p) == if |p.groups| >= 8 then None else Parse(rest, AddGroup(p, g))
  {
    var s, k := g + [COLON] + rest, |g|;
    assert s[..k] == g && s[k] == COLON && s[k + 1..] == rest && s[k + 1] == rest[0];
    HexRunIs(s, k);
  }

  lemma ParseContraction(g: seq<byte>, rest: seq<byte>, p: Literal)
    requires IsGroup(g) || (g == [] && p == NOTHING)
    ensures Parse(g + [COLON, COLON] + rest, p) ==
            if (g != [] && |p.groups| >= 8) || p.index != -1 then None
            else var q := AddGroup(p, g); Parse(rest, q.(index := |q.groups|))
  {
    var s, k := g + [COLON, COLON] + rest, |g|;
    assert s[..k] == g && s[k] == COLON && s[k + 1] == COLON && s[k + 2..] == rest;
    HexRunIs(s, k);
  }

  lemma ParseLast(g: seq<byte>, p: Literal)
    requires IsGroup(g)
    ensures Parse(g, p) == if |p.groups| >= 8 then None else Some(AddGroup(p, g))
  {
    assert g[..|g|] == g;
    HexRunIs(g, |g|);
  }

  lemma ParseEnd(p: Literal)
    ensures Parse([], p) == if p.index == |p.groups| then Some(p) else None
  {
  }

  lemma ParseIPv4(t: seq<byte>, p: Literal)
    requires LooksIPv4(t)
    ensures Parse(t, p) == Some(p.(v4 := Some(t)))
  {
  }

  // ---------- every well-formed literal is read back ----------

  predicate Groups(gs: seq<seq<byte>>) {
    forall i :: 0 <= i < |gs| ==> IsGroup(gs[i])
  }

  lemma {:induction false} LeadFront(g: seq<byte>, gs: seq<seq<byte>>)
    ensures Lead([g] + gs) == g + [COLON] + Lead(gs)
    decreases |gs|
  {
    var w := [g] + gs;
    if gs == [] {
      assert w[..0] == [];
      assert Lead(w) == [] + g + [COLON];
    } else {
      var k := |gs| - 1;
      assert w[..|w| - 1] == [g] + gs[..k];
      LeadFront(g, gs[..k]);
      Assoc(g + [COLON], Lead(gs[..k]), gs[k]);
      Assoc(g + [COLON], Lead(gs[..k]) + gs[k], [COLON]);
    }
  }

  // Groups with something behind them that does not start with a colon.
  lemma {:induction false} ParseLead(gs: seq<seq<byte>>, rest: seq<byte>, p: Literal)
    requires Groups(gs) && rest != [] && rest[0] != COLON && |p.groups| + |gs| <= 8
    ensures Parse(Lead(gs) + rest, p) == Parse(rest, p.(groups := p.groups + gs))
    decreases |gs|
  {
    if gs == [] {
      assert Lead(gs) + rest == rest && p.groups + gs == p.groups;
    } else {
      var g, more := gs[0], gs[1..];
      assert gs == [g] + more;
      LeadFront(g, more);
      Assoc(g + [COLON], Lead(more), rest);
      var next := Lead(more) + rest;
      NoColonFirst(more, rest);
      ParseGroup(g, next, p);
      ParseLead(more, rest, AddGroup(p, g));
      Assoc(p.groups, [g], more);
    }
  }

  lemma NoColonFirst(gs: seq<seq<byte>>, rest: seq<byte>)
    requires Groups(gs) && rest != [] && rest[0] != COLON
    ensures Lead(gs) + rest != [] && (Lead(gs) + rest)[0] != COLON
  {
    if gs != [] {
      assert gs == [gs[0]] + gs[1..];
      LeadFront(gs[0], gs[1..]);
      assert IsDigit(gs[0][0], 16);
      assert (Lead(gs) + rest)[0] == gs[0][0];
    }
  }

  // The groups behind the contraction, or all of them, and the embedded address.
  lemma ParseItems(gs: seq<seq<byte>>, v4: Option<seq<byte>>, p: Literal)
    requires Groups(gs) && |p.groups| + |gs| <= 8 && p.v4 == None
    requires v4.Some? ==> LooksIPv4(v4.value)
    requires gs == [] && v4 == None ==> p.index == |p.groups|
    ensures Parse(JoinColons(gs + if v4.Some? then [v4.value] else []), p) ==
            Some(p.(groups := p.groups + gs, v4 := v4))
  {
    hide Parse, HexRun;
    var items := gs + if v4.Some? then [v4.value] else [];
    if v4.Some? {
      var t := v4.value;
      assert items[..|items| - 1] == gs;
      IPv4First(t);
      ParseLead(gs, t, p);
      ParseIPv4(t, p.(groups := p.groups + gs));
    } else if gs == [] {
      assert items == [] && p.groups + gs == p.groups;
      ParseEnd(p);
    } else {
      var k := |gs| - 1;
      assert items == gs;
      assert IsDigit(gs[k][0], 16);
      ParseLead(gs[..k], gs[k], p);
      ParseLast(gs[k], p.(groups := p.groups + gs[..k]));
      assert p.groups + gs[..k] + [gs[k]] == p.groups + gs by { assert gs[..k] + [gs[k]] == gs; Assoc(p.groups, gs[..k], [gs[k]]); }
    }
  }

  lemma IPv4First(t: seq<byte>)
    requires LooksIPv4(t)
    ensures t != [] && t[0] != COLON
  {
    var k := HexRun(t);
    if k > 0 { assert t[0] == t[..k][0] && IsDigit(t[..k][0], 16); }
  }

  // The groups in front of the contraction.
  lemma ParseLeft(gs: seq<seq<byte>>, rest: seq<byte>)
    requires Groups(gs) && |gs| <= 8
    ensures Parse(JoinColons(gs) + [COLON, COLON] + rest, NOTHING) == Parse(rest, Literal(gs, |gs|, None))
  {
    hide Parse, HexRun;
    if gs == [] {
      assert JoinColons(gs) == [];
      ParseContraction([], rest, NOTHING);
    } else {
      var k := |gs| - 1;
      var last := gs[k] + [COLON, COLON] + rest;
      assert IsDigit(gs[k][0], 16) && last[0] == gs[k][0];
      Assoc(Lead(gs[..k]), gs[k], [COLON, COLON]);
      Assoc(Lead(gs[..k]), gs[k] + [COLON, COLON], rest);
      ParseLead(gs[..k], last, NOTHING);
      assert [] + gs[..k] == gs[..k] && gs[..k] + [gs[k]] == gs;
      ParseContraction(gs[k], rest, Literal(gs[..k], -1, None));
    }
  }

  lemma PartsGroups(p: Literal)
    requires WellFormed(p)
    ensures Groups(p.groups) && (p.index != -1 ==> Groups(p.groups[..p.index]) && Groups(p.groups[p.index..]))
  {
  }

  lemma {:induction false} ParseShow(p: Literal)
    requires WellFormed(p)
    ensures Parse(Show(p), NOTHING) == Some(p)
  {
    hide Parse, HexRun, JoinColons, Groups, IsGroup;
    var end := if p.v4.Some? then [p.v4.value] else [];
    PartsGroups(p);
    if p.index == -1 {
      ParseItems(p.groups, p.v4, NOTHING);
      assert [] + p.groups == p.groups;
    } else {
      var left, right := p.groups[..p.index], p.groups[p.index..];
      ParseLeft(left, JoinColons(right + end));
      ParseItems(right, p.v4, Literal(left, |left|, None));
      assert left + right == p.groups;
    }
  }

  // ---------- whatever is read is the text of a well-formed literal ----------

  ghost predicate Partial(p: Literal) {
    -1 <= p.index <= |p.groups| <= 8 && Groups(p.groups) && p.v4 == None
  }

  // The text in front of the component that is read next.
  function Before(p: Literal): seq<byte>
    requires -1 <= p.index <= |p.groups|
  {
    if p.index == -1 then Lead(p.groups)
    else JoinColons(p.groups[..p.index]) + [COLON, COLON] + Lead(p.groups[p.index..])
  }

  lemma LeadPush(gs: seq<seq<byte>>, g: seq<byte>)
    ensures Lead(gs + [g]) == Lead(gs) + g + [COLON] && JoinColons(gs + [g]) == Lead(gs) + g
  {
    assert (gs + [g])[..|gs|] == gs;
  }

  lemma BeforePush(p: Literal, g: seq<byte>)
    requires Partial(p)
    ensures Before(p.(groups := p.groups + [g])) == Before(p) + g + [COLON]
    ensures Show(p.(groups := p.groups + [g])) == Before(p) + g
    ensures Show(p.(v4 := Some(g))) == Before(p) + g
  {
    hide Lead;
    LeadPush(p.groups, g);
    var q := p.(groups := p.groups + [g]);
    assert q.groups + [] == q.groups;
    if p.index != -1 {
      var left, right := p.groups[..p.index], p.groups[p.index..];
      assert q.groups[..p.index] == left && q.groups[p.index..] == right + [g];
      assert right + [g] + [] == right + [g];
      LeadPush(right, g);
      var front := JoinColons(left) + [COLON, COLON];
      Assoc(front, Lead(right) + g, [COLON]);
      Assoc(front, Lead(right), g);
    }
  }

  lemma {:induction false} ParseSound(s: seq<byte>, p: Literal, q: Literal)
    requires Partial(p) && Parse(s, p) == Some(q)
    ensures WellFormed(q) && Show(q) == Before(p) + s
    decreases |s|
  {
    hide Show, Before, Lead, JoinColons;
    var k := HexRun(s);
    var g := s[..k];
    BeforePush(p, if k < |s| && s[k] != COLON then s else g);
    if k < |s| && s[k] != COLON {
    } else if k == |s| {
      assert g == s;
      if k == 0 { ShowEnd(p); }
    } else if s[k] == COLON && k + 1 < |s| && s[k + 1] == COLON {
      SoundContraction(s, p, q);
    } else {
      var p' := AddGroup(p, g);
      assert s == g + [COLON] + s[k + 1..];
      ParseSound(s[k + 1..], p', q);
      Assoc(Before(p), g + [COLON], s[k + 1..]);
      Assoc(Before(p), g, [COLON]);
    }
  }

  lemma ShowEnd(p: Literal)
    requires Partial(p) && p.index == |p.groups|
    ensures Show(p) == Before(p) + []
  {
    assert p.groups[p.index..] == [] && [] + [] == p.groups[p.index..];
  }

  lemma BeforeContraction(p: Literal, g: seq<byte>)
    requires Partial(p) && p.index == -1 && (g == [] ==> p == NOTHING)
    ensures var n := AddGroup(p, g);
      Before(n.(index := |n.groups|)) == Before(p) + g + [COLON, COLON]
  {
    hide Lead, JoinColons;
    var n := AddGroup(p, g);
    var q := n.(index := |n.groups|);
    assert q.groups[..q.index] == n.groups && q.groups[q.index..] == [];
    NoItems();
    if g != [] { LeadPush(p.groups, g); }
  }

  lemma NoItems()
    ensures Lead([]) == [] && JoinColons([]) == []
  {
  }

  lemma ContractionStep(s: seq<byte>, p: Literal, q: Literal)
    requires Partial(p) && Parse(s, p) == Some(q)
    requires var k := HexRun(s); k + 1 < |s| && s[k] == COLON && s[k + 1] == COLON
    ensures var k := HexRun(s); var n := AddGroup(p, s[..k]); var p' := n.(index := |n.groups|);
      && p.index == -1 && Partial(p') && Parse(s[k + 2..], p') == Some(q) && (k == 0 ==> p == NOTHING)
  {
  }

  lemma {:induction false} SoundContraction(s: seq<byte>, p: Literal, q: Literal)
    requires Partial(p) && Parse(s, p) == Some(q)
    requires var k := HexRun(s); k + 1 < |s| && s[k] == COLON && s[k + 1] == COLON
    ensures WellFormed(q) && Show(q) == Before(p) + s
    decreases |s|, 0
  {
    hide Parse, HexRun, Before, Show, WellFormed, Partial, AddGroup;
    var k := HexRun(s);
    var g, rest := s[..k], s[k + 2..];
    ContractionStep(s, p, q);
    assert s == g + [COLON, COLON] + rest;
    var n := AddGroup(p, g);
    ParseSound(rest, n.(index := |n.groups|), q);
    BeforeContraction(p, g);
    Assoc(Before(p), g + [COLON, COLON], rest);
    Assoc(Before(p), g, [COLON, COLON]);
  }
}
