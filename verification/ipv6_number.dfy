/** IPv6 literals as sixteen bytes: the parsing loop, the size check and the conversion. */
module IPv6Number {
  import opened Bytes
  import opened Options
  import opened IPv4
  import opened IPv6Parse

  // ---------- meaning ----------

  function GroupBytes(g: seq<byte>): (b: seq<byte>)
    requires IsGroup(g)
    ensures |b| == 2
  {
    GroupBound(g);
    [Value(g, 16) / 256, Value(g, 16) % 256]
  }

  lemma GroupBound(g: seq<byte>)
    requires IsGroup(g)
    ensures Value(g, 16) < 0x1_0000
  {
    ValueBounds(g, 16);
    assert Pow(16, 1) == 16 && Pow(16, 2) == 0x100 && Pow(16, 3) == 0x1000 && Pow(16, 4) == 0x1_0000;
  }

  function GroupsBytes(gs: seq<seq<byte>>): (b: seq<byte>)
    requires Groups(gs)
    ensures |b| == 2 * |gs|
  {
    if gs == [] then [] else GroupsBytes(gs[..|gs| - 1]) + GroupBytes(gs[|gs| - 1])
  }

  function Zeros(n: nat): (s: seq<byte>)
    ensures |s| == n && forall i :: 0 <= i < n ==> s[i] == 0
  {
    seq(n, _ => 0)
  }

  // The bytes that are spelled out.
  function Spelled(p: Literal): nat {
    2 * |p.groups| + if p.v4.Some? then 4 else 0
  }

  // A contraction stands for at least one group.
  predicate RightSize(p: Literal) {
    if p.index == -1 then Spelled(p) == 16 else Spelled(p) <= 14
  }

  predicate GoodIPv4(p: Literal) {
    p.v4.Some? ==> Meaning(p.v4.value).family == IPV4
  }

  lemma MeaningBytes(host: seq<byte>)
    requires Meaning(host).family == IPV4
    ensures |Meaning(host).bytes| == 4
  {
    hide Components;
    if Components(host).Some? { ComponentsNonempty(host); }
  }

  function EmbeddedBytes(p: Literal): (b: seq<byte>)
    requires GoodIPv4(p)
    ensures |b| == if p.v4.Some? then 4 else 0
  {
    if p.v4.Some? then MeaningBytes(p.v4.value); Meaning(p.v4.value).bytes else []
  }

  // Groups in front of the contraction, zeros for it, groups behind it, embedded address.
  function LiteralBytes(p: Literal): (b: seq<byte>)
    requires WellFormed(p) && RightSize(p) && GoodIPv4(p)
    ensures |b| == 16
  {
    if p.index == -1 then GroupsBytes(p.groups) + EmbeddedBytes(p)
    else GroupsBytes(p.groups[..p.index]) + Zeros(16 - Spelled(p)) + GroupsBytes(p.groups[p.index..]) + EmbeddedBytes(p)
  }

  predicate Bracketed(host: seq<byte>) {
    |host| >= 2 && host[0] == OPEN_BRACKET && host[|host| - 1] == CLOSE_BRACKET
  }

  // The address a bracketed host denotes.
  function Address(host: seq<byte>): Option<seq<byte>> {
    if !Bracketed(host) then None
    else
      match Parse(host[1..|host| - 1], NOTHING)
      case None => None
      case Some(p) =>
        ParseSound(host[1..|host| - 1], NOTHING, p);
        if RightSize(p) && GoodIPv4(p) then Some(LiteralBytes(p)) else None
  }

  // A host denotes an address exactly when it is the bracketed text of a well-formed literal
  // of sixteen bytes, and then it denotes the bytes of that literal.
  lemma {:induction false} AddressIff(host: seq<byte>, b: seq<byte>)
    ensures Address(host) == Some(b) <==>
            exists p :: WellFormed(p) && RightSize(p) && GoodIPv4(p)
                        && host == [OPEN_BRACKET] + Show(p) + [CLOSE_BRACKET] && b == LiteralBytes(p)
  {
    hide Parse, Show, LiteralBytes, GoodIPv4, IsGroup, LooksIPv4;
    if Address(host) == Some(b) {
      var t := host[1..|host| - 1];
      var p := Parse(t, NOTHING).value;
      ParseSound(t, NOTHING, p);
      assert Before(NOTHING) + t == t;
      assert host == [OPEN_BRACKET] + t + [CLOSE_BRACKET];
    }
    if p: Literal :| WellFormed(p) && RightSize(p) && GoodIPv4(p)
                     && host == [OPEN_BRACKET] + Show(p) + [CLOSE_BRACKET] && b == LiteralBytes(p) {
      assert host[1..|host| - 1] == Show(p);
      ParseShow(p);
    }
  }

  // ---------- the methods ----------

  // The components found so far and the rest of the text give the same literal as the whole.
  ghost predicate Scanning(t: seq<byte>, begin: nat, i: nat, parsed: Literal) {
    && begin <= i <= |t| && AllDigits(t[begin..i], 16) && parsed.v4 == None
    && (parsed == NOTHING <==> begin == 0)
    && Parse(t[begin..], parsed) == Parse(t, NOTHING)
  }

  lemma ScanDigit(t: seq<byte>, begin: nat, i: nat, parsed: Literal)
    requires Scanning(t, begin, i, parsed) && i < |t| && IsHexChar(t[i])
    ensures Scanning(t, begin, i + 1, parsed)
  {
    assert t[begin..i + 1] == t[begin..i] + [t[i]];
  }

  lemma ScanRun(t: seq<byte>, begin: nat, i: nat, parsed: Literal)
    requires Scanning(t, begin, i, parsed) && (i < |t| ==> !IsHexChar(t[i]))
    ensures HexRun(t[begin..]) == i - begin && t[begin..][..i - begin] == t[begin..i]
    ensures i < |t| ==> t[begin..][i - begin] == t[i] && t[begin..][i - begin + 1..] == t[i + 1..]
    ensures i + 1 < |t| ==> t[begin..][i - begin + 1] == t[i + 1] && t[begin..][i - begin + 2..] == t[i + 2..]
  {
    var s := t[begin..];
    assert s[..i - begin] == t[begin..i];
    HexRunIs(s, i - begin);
  }

  // A component that ends at i, with a colon or the end of the text behind it.
  method EndComponent(t: seq<byte>, begin: nat, i: nat, parsed: Literal, isContraction: bool)
    returns (ok: bool, next: Literal)
    requires Scanning(t, begin, i, parsed) && (i < |t| ==> t[i] == COLON)
    requires isContraction <==> i + 1 < |t| && t[i + 1] == COLON
    ensures !ok ==> Parse(t, NOTHING) == None
    ensures ok ==> next == AddGroup(parsed, t[begin..i]) && (begin == i ==> isContraction || i == |t|)
    ensures ok && i == |t| ==> Parse(t, NOTHING) == Some(next)
    ensures ok && i < |t| && !isContraction ==> Parse(t[i + 1..], next) == Parse(t, NOTHING)
    ensures ok && isContraction ==>
              Parse(t, NOTHING) == if parsed.index != -1 then None else Parse(t[i + 2..], next.(index := |next.groups|))
  {
    ScanRun(t, begin, i, parsed);
    next := parsed;
    var len := i - begin;
    if len > 4 {
      return false, next;
    }
    if len == 0 {
      if !((isContraction && i == 0) || (i == |t| && parsed.index == |parsed.groups|)) {
        return false, next;
      }
    }
    if len > 0 {
      if |parsed.groups| >= 8 {
        return false, next;
      }
      next := parsed.(groups := parsed.groups + [t[begin..i]]);
    }
    ok := true;
  }

  // The loop reads one character behind the text: the closing bracket, which is no colon.
  method DoParseIPv6(t: seq<byte>) returns (ok: bool, parsed: Literal)
    ensures ok <==> Parse(t, NOTHING).Some?
    ensures ok ==> Parse(t, NOTHING) == Some(parsed)
  {
    hide Parse, HexRun;
    parsed := NOTHING;
    if t == [] {
      ParseEnd(NOTHING);
      return false, parsed;
    }
    var begin, i := 0, 0;
    assert t[0..] == t;
    while true
      invariant Scanning(t, begin, i, parsed)
      decreases |t| - i
    {
      var isColon := i < |t| && t[i] == COLON;
      var isContraction := isColon && i + 1 < |t| && t[i + 1] == COLON;
      if isColon || i == |t| {
        ghost var before := parsed;
        ok, parsed := EndComponent(t, begin, i, parsed, isContraction);
        if !ok || i == |t| {
          return;
        }
        if isContraction {
          if parsed.index != -1 {
            return false, parsed;
          }
          parsed := parsed.(index := |parsed.groups|);
          i := i + 1;
        }
        begin, i := i + 1, i + 1;
      } else if IsHexChar(t[i]) {
        ScanDigit(t, begin, i, parsed);
        i := i + 1;
      } else {
        ScanOther(t, begin, i, parsed);
        if t[i] >= 0x80 || !IsIPv4Char(t[i]) {
          return false, parsed;
        }
        parsed := parsed.(v4 := Some(t[begin..]));
        return true, parsed;
      }
    }
  }

  lemma ScanOther(t: seq<byte>, begin: nat, i: nat, parsed: Literal)
    requires Scanning(t, begin, i, parsed) && i < |t| && !IsHexChar(t[i]) && t[i] != COLON
    ensures Parse(t, NOTHING) == if IsIPv4Char(t[i]) then Some(parsed.(v4 := Some(t[begin..]))) else None
  {
    ScanRun(t, begin, i, parsed);
  }

  method CheckIPv6ComponentsSize(p: Literal) returns (ok: bool, contraction: nat)
    requires p.index >= -1
    ensures ok <==> RightSize(p)
    ensures ok ==> contraction == 16 - Spelled(p)
  {
    var without := 2 * |p.groups|;
    if p.v4.Some? {
      without := without + 4;
    }
    contraction := 0;
    if p.index != -1 {
      contraction := if 16 - without < 2 then 2 else 16 - without;
    }
    ok := without + contraction == 16;
  }

  method IPv6HexComponentToNumber(g: seq<byte>) returns (number: nat)
    requires IsGroup(g)
    ensures number == Value(g, 16) < 0x1_0000
  {
    GroupBound(g);
    number := StrToULL(g, 16) % 0x1_0000;
  }

  // The bytes written when i components have been looked at.
  function Written(p: Literal, i: nat): (b: seq<byte>)
    requires WellFormed(p) && RightSize(p) && i <= |p.groups| + 1
    ensures |b| <= Spelled(p) + if p.index == -1 then 0 else 16 - Spelled(p)
  {
    var m := if i < |p.groups| then i else |p.groups|;
    if p.index == -1 || i <= p.index then GroupsBytes(p.groups[..m])
    else GroupsBytes(p.groups[..p.index]) + Zeros(16 - Spelled(p)) + GroupsBytes(p.groups[p.index..m])
  }

  lemma NoGroupsBytes()
    ensures GroupsBytes([]) == []
  {
  }

  lemma GroupsBytesPush(gs: seq<seq<byte>>, g: seq<byte>)
    requires Groups(gs) && IsGroup(g)
    ensures Groups(gs + [g]) && GroupsBytes(gs + [g]) == GroupsBytes(gs) + GroupBytes(g)
  {
    assert (gs + [g])[..|gs|] == gs;
  }

  // One round of the loop: the contraction if it is here, then the group if there is one.
  lemma WrittenBefore(p: Literal, i: nat)
    requires WellFormed(p) && RightSize(p) && i < |p.groups| && (p.index == -1 || i < p.index)
    ensures Written(p, i + 1) == Written(p, i) + GroupBytes(p.groups[i])
  {
    hide GroupBytes, GroupsBytes, Zeros, RightSize, Spelled;
    assert p.groups[..i + 1] == p.groups[..i] + [p.groups[i]];
    GroupsBytesPush(p.groups[..i], p.groups[i]);
  }

  // What stands in front of the groups behind "::".
  function Front(p: Literal): seq<byte>
    requires WellFormed(p) && RightSize(p) && p.index != -1
  {
    GroupsBytes(p.groups[..p.index]) + Zeros(16 - Spelled(p))
  }

  lemma WrittenBehind(p: Literal, i: nat)
    requires WellFormed(p) && RightSize(p) && p.index != -1 && p.index <= i < |p.groups|
    ensures Written(p, i + 1) == Front(p) + GroupsBytes(p.groups[p.index..i]) + GroupBytes(p.groups[i])
  {
    hide GroupBytes, GroupsBytes, Zeros, RightSize, Spelled;
    assert p.groups[p.index..i + 1] == p.groups[p.index..i] + [p.groups[i]];
    GroupsBytesPush(p.groups[p.index..i], p.groups[i]);
    Assoc(Front(p), GroupsBytes(p.groups[p.index..i]), GroupBytes(p.groups[i]));
  }

  lemma WrittenZeros(p: Literal)
    requires WellFormed(p) && RightSize(p) && p.index != -1
    ensures Written(p, p.index) + Zeros(16 - Spelled(p)) == Front(p)
    ensures Front(p) + GroupsBytes(p.groups[p.index..p.index]) == Front(p)
  {
    hide GroupBytes, GroupsBytes, Zeros, RightSize, Spelled;
    assert p.groups[p.index..p.index] == [];
    NoGroupsBytes();
  }

  lemma WrittenNext(p: Literal, i: nat)
    requires WellFormed(p) && RightSize(p) && i <= |p.groups|
    ensures Written(p, i + 1) ==
            Written(p, i) + (if i == p.index then Zeros(16 - Spelled(p)) else [])
                          + (if i < |p.groups| then GroupBytes(p.groups[i]) else [])
  {
    hide GroupBytes, GroupsBytes, Zeros, RightSize, Spelled;
    if p.index == -1 || i < p.index {
      if i < |p.groups| { WrittenBefore(p, i); }
    } else {
      if i == p.index { WrittenZeros(p); }
      if i < |p.groups| { WrittenBehind(p, i); }
    }
  }

  lemma WrittenAll(p: Literal)
    requires WellFormed(p) && RightSize(p) && GoodIPv4(p)
    ensures LiteralBytes(p) == Written(p, |p.groups| + 1) + EmbeddedBytes(p)
  {
    assert p.groups[..|p.groups|] == p.groups;
  }

  lemma WrittenSize(p: Literal)
    requires WellFormed(p) && RightSize(p)
    ensures |Written(p, |p.groups| + 1)| == 16 - if p.v4.Some? then 4 else 0
  {
  }

  // Writes n zero bytes at cur.
  method WriteZeros(address: array<byte>, cur: nat, n: nat) returns (next: nat)
    requires cur + n <= address.Length
    modifies address
    ensures next == cur + n && address[..next] == old(address[..cur]) + Zeros(n)
  {
    next := cur;
    var j := 0;
    while j < n
      invariant 0 <= j <= n && next == cur + j
      invariant forall k :: 0 <= k < cur ==> address[k] == old(address[k])
      invariant forall k :: cur <= k < next ==> address[k] == 0
    {
      address[next] := 0;
      next := next + 1;
      j := j + 1;
    }
  }

  method WriteGroup(address: array<byte>, cur: nat, g: seq<byte>) returns (next: nat)
    requires cur + 2 <= address.Length && IsGroup(g)
    modifies address
    ensures next == cur + 2 && address[..next] == old(address[..cur]) + GroupBytes(g)
  {
    var number := IPv6HexComponentToNumber(g);
    address[cur] := number / 256;
    address[cur + 1] := number % 256;
    next := cur + 2;
  }

  method IPv6AddressToNumber(host: seq<byte>, address: array<byte>) returns (ok: bool)
    requires address.Length == 16
    modifies address
    ensures ok <==> Address(host).Some?
    ensures ok ==> address[..] == Address(host).value
  {
    hide Parse, LiteralBytes, Written, Show, GoodIPv4;
    if host == [] || host[0] != OPEN_BRACKET || host[|host| - 1] != CLOSE_BRACKET {
      return false;
    }
    var t := host[1..|host| - 1];
    var parsedOk, p := DoParseIPv6(t);
    if !parsedOk {
      return false;
    }
    ParseSound(t, NOTHING, p);
    var sizeOk, contraction := CheckIPv6ComponentsSize(p);
    if !sizeOk {
      return false;
    }
    var cur := WriteComponents(p, contraction, address);
    ok := WriteEmbedded(p, address, cur);
  }

  method WriteEmbedded(p: Literal, address: array<byte>, cur: nat) returns (ok: bool)
    requires WellFormed(p) && RightSize(p) && address.Length == 16
    requires cur == |Written(p, |p.groups| + 1)| && address[..cur] == Written(p, |p.groups| + 1)
    modifies address
    ensures ok <==> GoodIPv4(p)
    ensures ok ==> address[..] == LiteralBytes(p)
  {
    hide Written, LiteralBytes, Meaning;
    WrittenSize(p);
    if p.v4.Some? {
      ghost var front := address[..cur];
      var family, ignored := IPv4AddressToNumber(p.v4.value, address, cur);
      if family != IPV4 {
        return false;
      }
      assert address[..cur] == front;
      assert address[..] == address[..cur] + address[cur..cur + 4];
    } else {
      assert address[..cur] == address[..];
      assert Written(p, |p.groups| + 1) + [] == Written(p, |p.groups| + 1);
    }
    WrittenAll(p);
    ok := true;
  }

  method WriteComponents(p: Literal, contraction: nat, address: array<byte>) returns (cur: nat)
    requires WellFormed(p) && RightSize(p) && contraction == 16 - Spelled(p) && address.Length == 16
    modifies address
    ensures cur == |Written(p, |p.groups| + 1)| && address[..cur] == Written(p, |p.groups| + 1)
  {
    hide Written, Zeros, GroupBytes;
    cur := 0;
    var i := 0;
    NothingWritten(p);
    while i <= |p.groups|
      invariant 0 <= i <= |p.groups| + 1
      invariant cur == |Written(p, i)| && address[..cur] == Written(p, i)
    {
      WrittenNext(p, i);
      if i == p.index {
        cur := WriteZeros(address, cur, contraction);
      }
      if i != |p.groups| {
        cur := WriteGroup(address, cur, p.groups[i]);
      }
      i := i + 1;
    }
  }

  lemma NothingWritten(p: Literal)
    requires WellFormed(p) && RightSize(p)
    ensures Written(p, 0) == []
  {
  }
}
