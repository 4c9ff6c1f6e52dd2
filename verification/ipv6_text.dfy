/** What IPv6 literals mean group by group, and which text of an address is printed. */
module IPv6Text {
  import opened Bytes
  import opened Options
  import opened IPv4
  import opened IPv6Parse
  import opened IPv6Number
  import opened IPv6Print

  function Host(p: Literal): seq<byte>
    requires -1 <= p.index <= |p.groups|
  {
    [OPEN_BRACKET] + Show(p) + [CLOSE_BRACKET]
  }

  // ---------- what a literal denotes ----------

  // The groups that an embedded IPv4 address leaves.
  function Places(p: Literal): nat {
    if p.v4.Some? then 6 else 8
  }

  predicate Fits(p: Literal) {
    if p.index == -1 then |p.groups| == Places(p) else |p.groups| < Places(p)
  }

  // Where group k of the text stands in the address: counted from the front up to the
  // contraction, from the end behind it.
  function Place(p: Literal, k: nat): (i: nat)
    requires Fits(p) && k < |p.groups|
    ensures i < Places(p)
  {
    if p.index == -1 || k < p.index then k else Places(p) - |p.groups| + k
  }

  ghost predicate Denotes(p: Literal, b: seq<byte>)
    requires WellFormed(p) && Fits(p)
  {
    && |b| == 16
    && (forall k :: 0 <= k < |p.groups| ==> GroupValue(b, Place(p, k)) == Value(p.groups[k], 16))
    && (p.index != -1 ==> forall i :: p.index <= i < Places(p) - |p.groups| + p.index ==> GroupValue(b, i) == 0)
    && (p.v4.Some? ==> Meaning(p.v4.value).family == IPV4 && b[12..] == Meaning(p.v4.value).bytes)
  }

  lemma {:induction false} GroupsBytesAt(gs: seq<seq<byte>>, k: nat)
    requires Groups(gs) && k < |gs|
    ensures var b := GroupsBytes(gs); 0x100 * (b[2 * k] as int) + b[2 * k + 1] == Value(gs[k], 16)
  {
    hide IsGroup, Value;
    var n := |gs| - 1;
    assert Groups(gs[..n]);
    if k < n {
      GroupsBytesAt(gs[..n], k);
    }
  }

  lemma GroupIn(b: seq<byte>, i: nat, gs: seq<seq<byte>>, k: nat)
    requires |b| == 16 && Groups(gs) && k < |gs| && k <= i && 2 * (i - k) + 2 * |gs| <= 16
    requires b[2 * (i - k)..2 * (i - k) + 2 * |gs|] == GroupsBytes(gs)
    ensures GroupValue(b, i) == Value(gs[k], 16)
  {
    hide GroupsBytes, Value, Groups;
    GroupsBytesAt(gs, k);
    var c := b[2 * (i - k)..2 * (i - k) + 2 * |gs|];
    assert c[2 * k] == b[2 * i] && c[2 * k + 1] == b[2 * i + 1];
  }

  lemma LiteralParts(p: Literal)
    requires WellFormed(p) && RightSize(p) && GoodIPv4(p)
    ensures var b, n, m := LiteralBytes(p), |p.groups|, if p.index == -1 then |p.groups| else p.index;
      && Groups(p.groups[..m]) && Groups(p.groups[m..])
      && b[..2 * m] == GroupsBytes(p.groups[..m])
      && b[2 * m..2 * (Places(p) - n + m)] == Zeros(2 * (Places(p) - n))
      && b[2 * (Places(p) - n + m)..2 * Places(p)] == GroupsBytes(p.groups[m..])
      && b[2 * Places(p)..] == EmbeddedBytes(p)
  {
    hide GroupsBytes, EmbeddedBytes, Zeros, GoodIPv4, IsGroup;
    var n, m := |p.groups|, if p.index == -1 then |p.groups| else p.index;
    if p.index == -1 {
      assert p.groups[..m] == p.groups && p.groups[m..] == [];
      NoGroupsBytes();
    }
  }

  lemma LiteralDenotes(p: Literal)
    requires WellFormed(p) && RightSize(p) && GoodIPv4(p)
    ensures Fits(p) && Denotes(p, LiteralBytes(p))
  {
    hide LiteralBytes, GroupsBytes, Value, Meaning, Groups;
    LiteralParts(p);
    var b, n, m := LiteralBytes(p), |p.groups|, if p.index == -1 then |p.groups| else p.index;
    forall k | 0 <= k < n ensures GroupValue(b, Place(p, k)) == Value(p.groups[k], 16) {
      if k < m { GroupIn(b, k, p.groups[..m], k); } else { GroupIn(b, Place(p, k), p.groups[m..], k - m); }
    }
    if p.index != -1 {
      var z := b[2 * m..2 * (Places(p) - n + m)];
      forall i | m <= i < Places(p) - n + m ensures GroupValue(b, i) == 0 {
        assert b[2 * i] == z[2 * (i - m)] && b[2 * i + 1] == z[2 * (i - m) + 1];
      }
    }
  }

  lemma SamePair(b: seq<byte>, c: seq<byte>, i: nat)
    requires |b| == |c| == 16 && i < 8 && GroupValue(b, i) == GroupValue(c, i)
    ensures b[2 * i] == c[2 * i] && b[2 * i + 1] == c[2 * i + 1]
  {
  }

  // A literal denotes one address at most.
  lemma DenotesOne(p: Literal, b: seq<byte>, c: seq<byte>)
    requires WellFormed(p) && Fits(p) && Denotes(p, b) && Denotes(p, c)
    ensures b == c
  {
    hide GroupValue, Value, Meaning, IsGroup;
    var n, m := |p.groups|, if p.index == -1 then |p.groups| else p.index;
    forall i | 0 <= i < 8 ensures b[2 * i] == c[2 * i] && b[2 * i + 1] == c[2 * i + 1] {
      if i < m {
        assert Place(p, i) == i;
        SamePair(b, c, i);
      } else if i < Places(p) - n + m {
        SamePair(b, c, i);
      } else if i < Places(p) {
        assert Place(p, i - (Places(p) - n)) == i;
        SamePair(b, c, i);
      } else {
        assert b[12..][2 * i - 12] == b[2 * i] && c[12..][2 * i - 12] == c[2 * i];
        assert b[12..][2 * i - 11] == b[2 * i + 1] && c[12..][2 * i - 11] == c[2 * i + 1];
      }
    }
    SameBytes(b, c);
  }

  lemma SameBytes(b: seq<byte>, c: seq<byte>)
    requires |b| == |c| == 16
    requires forall i :: 0 <= i < 8 ==> b[2 * i] == c[2 * i] && b[2 * i + 1] == c[2 * i + 1]
    ensures b == c
  {
    forall j | 0 <= j < 16 ensures b[j] == c[j] {
      assert j == 2 * (j / 2) || j == 2 * (j / 2) + 1;
    }
  }

  // The address of a literal, group by group: a text has it exactly when the groups fit, every
  // group has the value at its place, the contraction is zero, and the last four bytes are the
  // embedded IPv4 address.
  lemma {:induction false} AddressMeans(p: Literal, b: seq<byte>)
    requires WellFormed(p)
    ensures Address(Host(p)) == Some(b) <==> Fits(p) && Denotes(p, b)
  {
    hide Parse, Show, LiteralBytes, Denotes, Meaning;
    var h := Host(p);
    assert h[1..|h| - 1] == Show(p);
    ParseShow(p);
    if RightSize(p) && GoodIPv4(p) {
      LiteralDenotes(p);
      if Fits(p) && Denotes(p, b) { DenotesOne(p, b, LiteralBytes(p)); }
    } else if Fits(p) && Denotes(p, b) {
      DenotesGood(p, b);
    }
  }

  lemma DenotesGood(p: Literal, b: seq<byte>)
    requires WellFormed(p) && Fits(p) && Denotes(p, b)
    ensures RightSize(p) && GoodIPv4(p)
  {
  }

  // An embedded IPv4 address is two groups written another way, whatever stands in front.
  lemma {:induction false} EmbeddedIsTwoGroups(gs: seq<seq<byte>>, index: int, t: seq<byte>, g: seq<byte>, h: seq<byte>)
    requires Groups(gs) && -1 <= index <= |gs| <= 6 && LooksIPv4(t) && Meaning(t).family == IPV4
    requires IsGroup(g) && IsGroup(h) && Pairs(Meaning(t).bytes, Value(g, 16), Value(h, 16))
    ensures Address(Host(Literal(gs, index, Some(t)))) == Address(Host(Literal(gs + [g, h], index, None)))
  {
    hide Host, Value, Meaning, LooksIPv4, Address, Denotes, IsGroup;
    var p, q := Literal(gs, index, Some(t)), Literal(gs + [g, h], index, None);
    assert forall k :: 0 <= k < |gs| ==> q.groups[k] == gs[k];
    forall b ensures Address(Host(p)) == Some(b) <==> Address(Host(q)) == Some(b) {
      AddressMeans(p, b);
      AddressMeans(q, b);
      if Fits(p) && |b| == 16 { TwoGroups(gs, index, t, g, h, b); }
      if Fits(p) && |b| != 16 { DenotesSize(p, b); DenotesSize(q, b); }
    }
    SameOption(Address(Host(p)), Address(Host(q)));
  }

  lemma DottedLooksIPv4(b: seq<byte>)
    requires |b| == 4
    ensures LooksIPv4(Dotted(b))
  {
    hide Dotted, HexRun, Decimal;
    DottedText(b);
    var d, t := Decimal(b[0]), Dotted(b);
    assert t[..|d|] == d && t[|d|] == DOT;
    HexRunIs(t, |d|);
  }

  // In particular a dotted quad.
  lemma {:induction false} DottedIsTwoGroups(gs: seq<seq<byte>>, index: int, b: seq<byte>, g: seq<byte>, h: seq<byte>)
    requires Groups(gs) && -1 <= index <= |gs| <= 6 && |b| == 4
    requires IsGroup(g) && IsGroup(h) && Pairs(b, Value(g, 16), Value(h, 16))
    ensures Address(Host(Literal(gs, index, Some(Dotted(b))))) == Address(Host(Literal(gs + [g, h], index, None)))
  {
    hide Host, Value, Meaning, LooksIPv4, Address, Dotted;
    DottedLooksIPv4(b);
    PrintParse(b);
    EmbeddedIsTwoGroups(gs, index, Dotted(b), g, h);
  }

  // Four bytes are the two values, sixteen bits each.
  predicate Pairs(b: seq<byte>, v: nat, w: nat) {
    |b| == 4 && 0x100 * (b[0] as int) + b[1] == v && 0x100 * (b[2] as int) + b[3] == w
  }

  lemma SameOption(x: Option<seq<byte>>, y: Option<seq<byte>>)
    requires forall b :: x == Some(b) <==> y == Some(b)
    ensures x == y
  {
    if x.Some? { assert y == Some(x.value); }
    if y.Some? { assert x == Some(y.value); }
  }

  lemma DenotesSize(p: Literal, b: seq<byte>)
    requires WellFormed(p) && Fits(p) && |b| != 16
    ensures !Denotes(p, b)
  {
  }

  lemma LastGroups(b: seq<byte>, c: seq<byte>, v: nat, w: nat)
    requires |b| == 16 && Pairs(c, v, w)
    ensures b[12..] == c <==> GroupValue(b, 6) == v && GroupValue(b, 7) == w
  {
    var d := b[12..];
    assert d[0] == b[12] && d[1] == b[13] && d[2] == b[14] && d[3] == b[15];
    if GroupValue(b, 6) == v && GroupValue(b, 7) == w {
      assert d[0] == c[0] && d[1] == c[1] && d[2] == c[2] && d[3] == c[3];
    }
  }

  lemma TwoGroups(gs: seq<seq<byte>>, index: int, t: seq<byte>, g: seq<byte>, h: seq<byte>, b: seq<byte>)
    requires Groups(gs) && -1 <= index <= |gs| <= 6 && LooksIPv4(t) && Meaning(t).family == IPV4
    requires IsGroup(g) && IsGroup(h) && Pairs(Meaning(t).bytes, Value(g, 16), Value(h, 16))
    requires Fits(Literal(gs, index, Some(t))) && |b| == 16
    requires WellFormed(Literal(gs + [g, h], index, None))
    ensures Denotes(Literal(gs, index, Some(t)), b) <==> Denotes(Literal(gs + [g, h], index, None), b)
  {
    hide Value, Meaning, LooksIPv4, GroupValue, AllDigits;
    var p, q := Literal(gs, index, Some(t)), Literal(gs + [g, h], index, None);
    var n := |gs|;
    LastGroups(b, Meaning(t).bytes, Value(g, 16), Value(h, 16));
    assert Place(q, n) == 6 && Place(q, n + 1) == 7;
    assert q.groups[n] == g && q.groups[n + 1] == h;
    assert forall k :: 0 <= k < n ==> q.groups[k] == gs[k] && Place(p, k) == Place(q, k);
  }

  // ---------- which text is printed ----------

  // Lower-case hexadecimal without a leading zero.
  predicate ShortHex(g: seq<byte>) {
    && 1 <= |g| <= 4
    && (forall i :: 0 <= i < |g| ==> 0x30 <= g[i] <= 0x39 || 0x61 <= g[i] <= 0x66)
    && (g[0] == 0x30 ==> |g| == 1)
  }

  predicate AllShort(gs: seq<seq<byte>>) {
    forall i :: 0 <= i < |gs| ==> ShortHex(gs[i])
  }

  lemma ShortDigit(c: byte)
    requires 0x30 <= c <= 0x39 || 0x61 <= c <= 0x66
    ensures IsDigit(c, 16) && HexCharToValue(c) < 16 && HexDigit(HexCharToValue(c), false) == c
    ensures HexCharToValue(c) == 0 <==> c == 0x30
  {
  }

  lemma {:induction false} ShortIsGroup(g: seq<byte>)
    requires ShortHex(g)
    ensures IsGroup(g)
  {
    forall i | 0 <= i < |g| ensures IsDigit(g[i], 16) { ShortDigit(g[i]); }
  }

  // A value has one short text.
  lemma {:induction false} ShortIsHex(g: seq<byte>)
    requires ShortHex(g)
    ensures IsGroup(g) && g == Hex(Value(g, 16)) && (Value(g, 16) == 0 ==> g == [0x30])
    decreases |g|
  {
    hide IsDigit, HexCharToValue, HexDigit, Value, Hex;
    var n := |g| - 1;
    ShortIsGroup(g);
    ShortDigit(g[n]);
    ValueEnd(g);
    if n == 0 {
      HexOne(HexCharToValue(g[0]));
      assert g == [g[0]];
    } else {
      ShortIsHex(g[..n]);
      HexPush(Value(g[..n], 16), HexCharToValue(g[n]));
      assert g == g[..n] + [g[n]];
    }
  }

  lemma ValueEnd(g: seq<byte>)
    requires g != [] && AllDigits(g, 16)
    ensures var n := |g| - 1;
      && AllDigits(g[..n], 16) && IsDigit(g[n], 16) && Value(g, 16) == 16 * Value(g[..n], 16) + HexCharToValue(g[n])
    ensures |g| == 1 ==> Value(g, 16) == HexCharToValue(g[0])
  {
    hide IsDigit, HexCharToValue;
  }

  lemma HexOne(d: nat)
    requires d < 16
    ensures Hex(d) == [HexDigit(d, false)]
  {
  }

  lemma HexPush(v: nat, d: nat)
    requires v > 0 && d < 16
    ensures Hex(16 * v + d) == Hex(v) + [HexDigit(d, false)]
  {
    hide HexDigit;
    assert (16 * v + d) / 16 == v && (16 * v + d) % 16 == d;
  }

  lemma {:induction false} HexIsShort(v: nat)
    requires v < 0x1_0000
    ensures ShortHex(Hex(v))
  {
    hide Hex, HexDigit;
    HexIsGroup(v);
    HexLower(v);
  }

  lemma {:induction false} HexLower(v: nat)
    ensures var s := Hex(v);
      && (forall i :: 0 <= i < |s| ==> 0x30 <= s[i] <= 0x39 || 0x61 <= s[i] <= 0x66)
      && (s[0] == 0x30 ==> v == 0 && |s| == 1)
  {
    if v >= 16 { HexLower(v / 16); }
  }

  lemma {:induction false} HexGroupsAt(address: seq<byte>, a: nat, b: nat, k: nat)
    requires |address| == 16 && a <= b <= 8 && k < b - a
    ensures HexGroups(address, a, b)[k] == Hex(GroupValue(address, a + k))
    decreases b
  {
    hide Hex;
    if k < b - 1 - a { HexGroupsAt(address, a, b - 1, k); }
  }

  lemma HexGroupsShort(address: seq<byte>, a: nat, b: nat)
    requires |address| == 16 && a <= b <= 8
    ensures AllShort(HexGroups(address, a, b))
  {
    hide Hex, ShortHex, HexGroups;
    forall k | 0 <= k < b - a ensures ShortHex(HexGroups(address, a, b)[k]) {
      HexGroupsAt(address, a, b, k);
      HexIsShort(GroupValue(address, a + k));
    }
  }

  // The literal contracts this range of bytes, or nothing.
  predicate Contracts(p: Literal, begin: nat, len: int) {
    if len == -1 then p.index == -1 else 2 * p.index == begin && 2 * |p.groups| == 16 - len
  }

  // Short groups of an address, from place a on.
  lemma ShortGroups(address: seq<byte>, gs: seq<seq<byte>>, a: nat)
    requires |address| == 16 && a + |gs| <= 8 && AllShort(gs) && Groups(gs)
    requires forall k :: 0 <= k < |gs| ==> GroupValue(address, a + k) == Value(gs[k], 16)
    ensures gs == HexGroups(address, a, a + |gs|)
  {
    hide Hex, ShortHex, HexGroups, GroupValue, Value;
    forall k | 0 <= k < |gs| ensures gs[k] == HexGroups(address, a, a + |gs|)[k] {
      HexGroupsAt(address, a, a + |gs|, k);
      ShortIsHex(gs[k]);
    }
  }

  // Only one literal of an address has short groups, no IPv4 part, and contracts the leftmost
  // longest run of two or more zero groups; its text is the printed one.
  lemma {:induction false} PrintOnly(address: seq<byte>, p: Literal, begin: nat, len: int)
    requires |address| == 16 && IsContraction(address, begin, len)
    requires WellFormed(p) && p.v4 == None && AllShort(p.groups) && Contracts(p, begin, len)
    requires Address(Host(p)) == Some(address)
    ensures Show(p) == Print(address)
  {
    hide Show, Print, Address, Host, JoinColons, HexGroups, AllShort, Value, IsContraction;
    AddressMeans(p, address);
    PrintShape(address, begin, len);
    ShortParts(address, p);
    if len != -1 { ContractionParts(address, begin, len); }
    ShowParts(p);
  }

  lemma ContractionParts(address: seq<byte>, begin: nat, len: int)
    requires |address| == 16 && IsContraction(address, begin, len) && len != -1
    ensures begin % 2 == 0 && len % 2 == 0 && len >= 4 && begin + len <= 16
  {
  }

  lemma ShowParts(p: Literal)
    requires -1 <= p.index <= |p.groups| && p.v4 == None
    ensures Show(p) == if p.index == -1 then JoinColons(p.groups)
                       else JoinColons(p.groups[..p.index]) + [COLON, COLON] + JoinColons(p.groups[p.index..])
  {
    hide JoinColons;
    assert p.groups + [] == p.groups;
    if p.index != -1 { assert p.groups[p.index..] + [] == p.groups[p.index..]; }
  }

  lemma ShortParts(address: seq<byte>, p: Literal)
    requires WellFormed(p) && p.v4 == None && AllShort(p.groups) && Fits(p) && Denotes(p, address)
    ensures p.index == -1 ==> p.groups == HexGroups(address, 0, 8)
    ensures p.index != -1 ==> p.groups[..p.index] == HexGroups(address, 0, p.index)
    ensures p.index != -1 ==> p.groups[p.index..] == HexGroups(address, 8 - |p.groups| + p.index, 8)
  {
    hide ShortHex, HexGroups, GroupValue, Value;
    var n, m := |p.groups|, if p.index == -1 then |p.groups| else p.index;
    assert forall k :: 0 <= k < m ==> Place(p, k) == k;
    ShortGroups(address, p.groups[..m], 0);
    if p.index == -1 {
      assert p.groups[..m] == p.groups;
    } else {
      forall k | 0 <= k < n - m ensures GroupValue(address, 8 - n + m + k) == Value(p.groups[m..][k], 16) {
        assert Place(p, m + k) == 8 - n + m + k;
      }
      ShortGroups(address, p.groups[m..], 8 - n + m);
    }
  }

  // There is such a literal.
  lemma {:induction false} PrintedLiteral(address: seq<byte>) returns (p: Literal, begin: nat, len: int)
    requires |address| == 16
    ensures IsContraction(address, begin, len) && Contracts(p, begin, len)
    ensures WellFormed(p) && p.v4 == None && AllShort(p.groups)
    ensures Show(p) == Print(address) && Address(Host(p)) == Some(address)
  {
    hide Show, Print, Address, HexGroups, LiteralBytes, IsContraction;
    ContractionExists(address);
    begin, len :| IsContraction(address, begin, len);
    if len != -1 { ContractionParts(address, begin, len); }
    p := Spelling(address, begin, len);
    SpellingBytes(address, begin, len);
    ShowSpelling(address, begin, len);
    PrintShape(address, begin, len);
    PrintParse6(address);
    SpellingShort(address, begin, len);
  }

  lemma SpellingShort(address: seq<byte>, begin: nat, len: int)
    requires |address| == 16 && IsContraction(address, begin, len)
    ensures var p := Spelling(address, begin, len); AllShort(p.groups) && Contracts(p, begin, len)
  {
    hide ShortHex, HexGroups;
    if len == -1 {
      HexGroupsShort(address, 0, 8);
    } else {
      HexGroupsShort(address, 0, begin / 2);
      HexGroupsShort(address, (begin + len) / 2, 8);
    }
  }

  // ---------- the printed text, read between its colons ----------

  // s[i..j] has no colon and ends at colons or at the ends of s.
  predicate ColonRun(s: seq<byte>, i: int, j: int) {
    && 0 <= i <= j <= |s| && COLON !in s[i..j]
    && (i == 0 || s[i - 1] == COLON) && (j == |s| || s[j] == COLON)
  }

  ghost predicate ShortRuns(s: seq<byte>) {
    forall i, j :: ColonRun(s, i, j) ==> s[i..j] == [] || ShortHex(s[i..j])
  }

  lemma RunsAcross(a: seq<byte>, b: seq<byte>)
    requires ShortRuns(a) && ShortRuns(b)
    ensures ShortRuns(a + [COLON] + b)
  {
    hide ShortHex;
    var s, n := a + [COLON] + b, |a| + 1;
    assert s[|a|] == COLON;
    forall i, j | ColonRun(s, i, j) ensures s[i..j] == [] || ShortHex(s[i..j]) {
      if j <= |a| {
        assert s[i..j] == a[i..j];
        assert ColonRun(a, i, j);
      } else if i >= n {
        assert s[i..j] == b[i - n..j - n];
        assert i > n ==> s[i - 1] == b[i - 1 - n];
        assert ColonRun(b, i - n, j - n);
      } else {
        assert false;
      }
    }
  }

  lemma RunsOne(g: seq<byte>)
    requires g == [] || ShortHex(g)
    ensures ShortRuns(g)
  {
    assert COLON !in g && g[0..|g|] == g;
  }

  lemma {:induction false} RunsJoined(gs: seq<seq<byte>>)
    requires AllShort(gs)
    ensures ShortRuns(JoinColons(gs))
  {
    hide ShortHex, ShortRuns;
    var n := |gs| - 1;
    if n < 0 {
      RunsOne([]);
    } else if n == 0 {
      assert Lead(gs[..0]) + gs[0] == gs[0];
      RunsOne(gs[0]);
    } else {
      RunsJoined(gs[..n]);
      RunsOne(gs[n]);
      RunsAcross(JoinColons(gs[..n]), gs[n]);
      LeadIsJoined(gs[..n]);
    }
  }

  lemma LeadIsJoined(gs: seq<seq<byte>>)
    requires gs != []
    ensures Lead(gs) == JoinColons(gs) + [COLON]
  {
  }

  // Between the colons of a printed address stand shortest lower-case numbers, or nothing.
  lemma {:induction false} PrintRuns(address: seq<byte>)
    requires |address| == 16
    ensures ShortRuns(Print(address))
  {
    hide ShortRuns, Print, Show, Address, JoinColons, IsContraction, ShortHex;
    var p, begin, len := PrintedLiteral(address);
    ShowParts(p);
    if p.index == -1 {
      RunsJoined(p.groups);
    } else {
      var left, right := p.groups[..p.index], p.groups[p.index..];
      RunsJoined(left);
      RunsJoined(right);
      RunsOne([]);
      RunsAcross([], JoinColons(right));
      RunsAcross(JoinColons(left), [] + [COLON] + JoinColons(right));
      assert JoinColons(left) + [COLON] + ([] + [COLON] + JoinColons(right)) ==
             JoinColons(left) + [COLON, COLON] + JoinColons(right);
    }
  }
}
