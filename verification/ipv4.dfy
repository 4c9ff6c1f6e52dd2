/** IPv4 literals: splitting into components, number conversion, and printing. */
module IPv4 {
  import opened Bytes
  import opened Options

  datatype Family = NEUTRAL | BROKEN | IPV4 | IPV6

  // ---------- exact meaning ----------

  function FirstDot(s: seq<byte>): (n: nat)
    ensures n <= |s| && DOT !in s[..n] && (n < |s| ==> s[n] == DOT)
  {
    if s == [] || s[0] == DOT then 0
    else
      var n := 1 + FirstDot(s[1..]);
      assert s[..n] == [s[0]] + s[1..][..n - 1];
      n
  }

  // The texts between the dots.
  function SplitDots(s: seq<byte>): (parts: seq<seq<byte>>)
    ensures parts != []
    decreases |s|
  {
    var n := FirstDot(s);
    if n == |s| then [s] else [s[..n]] + SplitDots(s[n + 1..])
  }

  // A dot at the end adds no component.
  function DropEmptyEnd(parts: seq<seq<byte>>): seq<seq<byte>>
    requires parts != []
  {
    if |parts| >= 2 && parts[|parts| - 1] == [] then parts[..|parts| - 1] else parts
  }

  predicate AllNonempty(parts: seq<seq<byte>>) {
    forall i :: 0 <= i < |parts| ==> parts[i] != []
  }

  predicate AllIPv4Chars(s: seq<byte>) {
    forall i :: 0 <= i < |s| ==> IsIPv4Char(s[i])
  }

  // The components of a host that could be an IPv4 address.
  function Components(host: seq<byte>): Option<seq<seq<byte>>> {
    var parts := DropEmptyEnd(SplitDots(host));
    if AllIPv4Chars(host) && |parts| <= 4 && AllNonempty(parts) then Some(parts) else None
  }

  // The radix a component is written in and the digits behind its prefix.
  function Radix(c: seq<byte>): (r: (nat, seq<byte>))
    requires c != []
    ensures r.0 == 8 || r.0 == 10 || r.0 == 16
  {
    if c[0] != 0x30 || |c| == 1 then (10, c)
    else if c[1] == 0x58 || c[1] == 0x78 then (16, c[2..])
    else (8, c[1..])
  }

  predicate IsDigit(c: byte, radix: nat) {
    if radix == 16 then IsHexChar(c) else if radix == 10 then IsDecChar(c) else IsOctChar(c)
  }

  predicate AllDigits(s: seq<byte>, radix: nat) {
    forall i :: 0 <= i < |s| ==> IsDigit(s[i], radix)
  }

  // The unbounded value of a digit string.
  function Value(s: seq<byte>, radix: nat): nat
    requires AllDigits(s, radix)
  {
    if s == [] then 0 else radix * Value(s[..|s| - 1], radix) + HexCharToValue(s[|s| - 1])
  }

  predicate IsNumeric(c: seq<byte>)
    requires c != []
  {
    AllDigits(Radix(c).1, Radix(c).0)
  }

  function Number(c: seq<byte>): nat
    requires c != [] && IsNumeric(c)
  {
    Value(Radix(c).1, Radix(c).0)
  }

  // The low k bytes of v, most significant first.
  function BigEndian(v: nat, k: nat): (s: seq<byte>)
    ensures |s| == k
  {
    if k == 0 then [] else BigEndian(v / 256, k - 1) + [v % 256]
  }

  function Pow256(k: nat): nat {
    if k == 0 then 1 else 256 * Pow256(k - 1)
  }

  datatype Parsed = Parsed(family: Family, bytes: seq<byte>, count: nat)

  // The verdict from exact values: every component but the last is one byte, the last fills
  // the bytes that are left.
  function Judge(values: seq<nat>): Parsed
    requires 1 <= |values| <= 4
  {
    var n := |values| - 1;
    if (forall i :: 0 <= i < n ==> values[i] < 256) && values[n] < Pow256(4 - n)
    then Parsed(IPV4, values[..n] + BigEndian(values[n], 4 - n), n + 1)
    else Parsed(BROKEN, [], 0)
  }

  function Numbers(parts: seq<seq<byte>>): (ns: seq<nat>)
    requires AllNonempty(parts) && forall i :: 0 <= i < |parts| ==> IsNumeric(parts[i])
    ensures |ns| == |parts|
  {
    seq(|parts|, i requires 0 <= i < |parts| => Number(parts[i]))
  }

  // What a host means as an IPv4 address.
  function Meaning(host: seq<byte>): Parsed {
    match Components(host)
    case None => Parsed(NEUTRAL, [], 0)
    case Some(parts) =>
      if exists i :: 0 <= i < |parts| && !IsNumeric(parts[i]) then Parsed(NEUTRAL, [], 0)
      else Judge(Numbers(parts))
  }

  // ---------- digit strings ----------

  lemma {:induction false} ValuePrefix(s: seq<byte>, k: nat, radix: nat)
    requires k <= |s| && AllDigits(s, radix) && (radix == 8 || radix == 10 || radix == 16)
    ensures AllDigits(s[..k], radix) && Value(s[..k], radix) <= Value(s, radix)
    decreases |s|
  {
    var n := |s| - 1;
    if k == |s| {
      assert s[..k] == s;
    } else {
      assert s[..n][..k] == s[..k];
      ValuePrefix(s[..n], k, radix);
    }
  }

  lemma {:induction false} ValueZeros(s: seq<byte>, k: nat, radix: nat)
    requires k <= |s| && AllDigits(s, radix) && forall i :: 0 <= i < k ==> s[i] == 0x30
    ensures AllDigits(s[k..], radix) && Value(s[k..], radix) == Value(s, radix)
    decreases |s|
  {
    if k == |s| {
      ValueOfZeros(s, radix);
    } else {
      var n := |s| - 1;
      assert s[k..][..n - k] == s[..n][k..];
      ValueZeros(s[..n], k, radix);
    }
  }

  lemma {:induction false} ValueOfZeros(s: seq<byte>, radix: nat)
    requires AllDigits(s, radix) && forall i :: 0 <= i < |s| ==> s[i] == 0x30
    ensures Value(s, radix) == 0
  {
    if s != [] { ValueOfZeros(s[..|s| - 1], radix); }
  }

  function Pow(b: nat, k: nat): nat {
    if k == 0 then 1 else b * Pow(b, k - 1)
  }

  lemma {:induction false} ValueBounds(s: seq<byte>, radix: nat)
    requires AllDigits(s, radix) && (radix == 8 || radix == 10 || radix == 16)
    ensures Value(s, radix) < Pow(16, |s|)
    ensures s != [] && s[0] != 0x30 ==> Value(s, radix) >= Pow(8, |s| - 1)
  {
    if s != [] {
      ValueBounds(s[..|s| - 1], radix);
    }
  }

  lemma Powers()
    ensures Pow(16, 16) == 0x1_0000_0000_0000_0000 && Pow(8, 15) == 0x2000_0000_0000
  {
    assert Pow(16, 4) == 0x1_0000 && Pow(8, 5) == 0x8000;
    assert Pow(16, 8) == 0x1_0000_0000 && Pow(8, 10) == 0x4000_0000;
    assert Pow(16, 12) == 0x1_0000_0000_0000;
  }

  // ---------- components ----------

  // A range of the host; the default is a missing one.
  datatype Component = Component(begin: int, len: int)

  const NO_COMPONENT := Component(0, -1)

  predicate Within(c: Component, host: seq<byte>) {
    c.len > 0 ==> 0 <= c.begin && c.begin + c.len <= |host|
  }

  // The texts of the components that are there.
  function Texts(host: seq<byte>, cs: seq<Component>): seq<seq<byte>>
    requires forall i :: 0 <= i < |cs| ==> Within(cs[i], host)
  {
    if cs == [] then []
    else
      var c := cs[|cs| - 1];
      assert Within(c, host);
      Texts(host, cs[..|cs| - 1]) + if c.len > 0 then [host[c.begin..c.begin + c.len]] else []
  }

  // The parts of the host are those found so far and those of the rest.
  ghost predicate Found(host: seq<byte>, texts: seq<seq<byte>>, begin: nat, i: nat) {
    && begin <= i <= |host| && AllNonempty(texts) && |texts| <= 4
    && SplitDots(host) == texts + SplitDots(host[begin..])
    && DOT !in host[begin..i]
    && AllIPv4Chars(host[..i])
  }

  lemma {:induction false} FirstDotIs(s: seq<byte>, n: nat)
    requires n <= |s| && DOT !in s[..n] && (n < |s| ==> s[n] == DOT)
    ensures FirstDot(s) == n
  {
    if n > 0 {
      assert s[0] == s[..n][0];
      assert s[1..][..n - 1] == s[..n][1..];
      FirstDotIs(s[1..], n - 1);
    }
  }

  lemma SplitStep(s: seq<byte>, n: nat)
    requires n <= |s| && DOT !in s[..n] && (n < |s| ==> s[n] == DOT)
    ensures SplitDots(s) == if n == |s| then [s] else [s[..n]] + SplitDots(s[n + 1..])
  {
    hide FirstDot;
    FirstDotIs(s, n);
  }

  // The part that ends at i.
  lemma PartEnds(host: seq<byte>, texts: seq<seq<byte>>, begin: nat, i: nat)
    requires Found(host, texts, begin, i) && (i < |host| ==> host[i] == DOT)
    ensures i < |host| ==> SplitDots(host) == texts + [host[begin..i]] + SplitDots(host[i + 1..])
    ensures i == |host| ==> SplitDots(host) == texts + [host[begin..i]]
  {
    hide SplitDots, FirstDot, AllIPv4Chars, AllNonempty;
    var rest := host[begin..];
    assert rest[..i - begin] == host[begin..i];
    SplitStep(rest, i - begin);
    if i < |host| {
      assert rest[i - begin + 1..] == host[i + 1..];
      Assoc(texts, [host[begin..i]], SplitDots(host[i + 1..]));
    } else {
      assert rest == host[begin..i];
    }
  }

  // An empty part that is not the last one, or more than four parts.
  lemma NoComponents(host: seq<byte>, texts: seq<seq<byte>>, part: seq<byte>, rest: seq<byte>)
    requires SplitDots(host) == texts + [part] + SplitDots(rest)
    requires part == [] || (|texts| == 3 && rest != [])
    ensures Components(host) == None
  {
    var parts := SplitDots(host);
    assert parts[|texts|] == part;
    if part == [] {
      assert DropEmptyEnd(parts)[|texts|] == [];
    } else if |SplitDots(rest)| == 1 {
      assert SplitDots(rest) == [rest];
      assert parts[|parts| - 1] == rest;
    }
  }

  method FindIPv4Components(host: seq<byte>) returns (ok: bool, components: seq<Component>)
    ensures ok <==> Components(host).Some?
    ensures ok ==> |components| == 4 && (forall j :: 0 <= j < 4 ==> Within(components[j], host))
                   && Texts(host, components) == Components(host).value
  {
    hide SplitDots, FirstDot, Components, Texts;
    components := [];
    NoTexts(host);
    if host == [] {
      NothingToFind();
      return false, components;
    }
    ok := false;
    var begin, i, end := 0, 0, |host|;
    assert host[0..] == host;
    while true
      invariant |components| <= 3 && forall j :: 0 <= j < |components| ==> Within(components[j], host) && components[j].len > 0
      invariant |Texts(host, components)| == |components|
      invariant Found(host, Texts(host, components), begin, i)
      decreases end - i
    {
      ghost var texts, part := Texts(host, components), host[begin..i];
      if i >= end || host[i] == DOT {
        var len := i - begin;
        PartEnds(host, texts, begin, i);
        TextsPush(host, components, Component(begin, len));
        components := components + [Component(begin, len)];
        if len == 0 && (i < end || |components| == 1) {
          FindEmpty(host, texts, begin, i);
          return;
        }
        assert host[..end] == host;
        if i >= end {
          FindLast(host, texts, part);
          break;
        }
        begin := i + 1;
        DotIsIPv4(host, i);
        if |components| == 4 {
          if i + 1 == end {
            assert host[i + 1..] == [];
            FindDotEnd(host, texts, part);
            break;
          }
          NoComponents(host, texts, part, host[i + 1..]);
          return;
        }
      } else if host[i] >= 0x80 || !IsIPv4Char(host[i]) {
        BadCharacter(host, i);
        return;
      } else {
        assert host[begin..i + 1] == host[begin..i] + [host[i]];
      }
      i := i + 1;
    }
    ok := true;
    components := FillUnused(host, components);
  }

  method FillUnused(host: seq<byte>, found: seq<Component>) returns (components: seq<Component>)
    requires |found| <= 4 && forall j :: 0 <= j < |found| ==> Within(found[j], host)
    ensures |components| == 4 && forall j :: 0 <= j < 4 ==> Within(components[j], host)
    ensures Texts(host, components) == Texts(host, found)
  {
    components := found;
    while |components| < 4
      invariant |components| <= 4 && forall j :: 0 <= j < |components| ==> Within(components[j], host)
      invariant Texts(host, components) == Texts(host, found)
    {
      ghost var before := components;
      components := components + [NO_COMPONENT];
      assert components[..|components| - 1] == before;
    }
  }

  lemma NoTexts(host: seq<byte>)
    ensures Texts(host, []) == []
  {
  }

  lemma TextsPush(host: seq<byte>, cs: seq<Component>, c: Component)
    requires (forall i :: 0 <= i < |cs| ==> Within(cs[i], host)) && Within(c, host)
    ensures Texts(host, cs + [c]) == Texts(host, cs) + if c.len > 0 then [host[c.begin..c.begin + c.len]] else []
  {
    assert (cs + [c])[..|cs|] == cs;
  }

  lemma DotIsIPv4(host: seq<byte>, i: nat)
    requires i < |host| && host[i] == DOT && AllIPv4Chars(host[..i])
    ensures AllIPv4Chars(host[..i + 1])
  {
    assert host[..i + 1] == host[..i] + [host[i]];
  }

  lemma BadCharacter(host: seq<byte>, i: nat)
    requires i < |host| && !IsIPv4Char(host[i])
    ensures Components(host) == None
  {
  }

  // The empty part at i is not the last one; the host itself is not empty.
  lemma FindEmpty(host: seq<byte>, texts: seq<seq<byte>>, begin: nat, i: nat)
    requires Found(host, texts, begin, i) && host != [] && begin == i && (i < |host| || texts == [])
    requires i < |host| ==> SplitDots(host) == texts + [host[begin..i]] + SplitDots(host[i + 1..])
    requires i == |host| ==> SplitDots(host) == texts + [host[begin..i]]
    ensures Components(host) == None
  {
    if i < |host| {
      NoComponents(host, texts, host[begin..i], host[i + 1..]);
    }
  }

  lemma FindLast(host: seq<byte>, texts: seq<seq<byte>>, part: seq<byte>)
    requires SplitDots(host) == texts + [part] && AllNonempty(texts) && |texts| <= 3
    requires AllIPv4Chars(host) && (part == [] ==> texts != [])
    ensures Components(host) == Some(if part == [] then texts else texts + [part])
  {
    var parts := SplitDots(host);
    assert parts[|parts| - 1] == part && parts[..|parts| - 1] == texts;
  }

  lemma FindDotEnd(host: seq<byte>, texts: seq<seq<byte>>, part: seq<byte>)
    requires SplitDots(host) == texts + [part] + SplitDots([]) && AllNonempty(texts) && |texts| == 3 && part != []
    requires AllIPv4Chars(host)
    ensures Components(host) == Some(texts + [part])
  {
    assert SplitDots([]) == [[]];
    var parts := SplitDots(host);
    assert parts[|parts| - 1] == [] && parts[..|parts| - 1] == texts + [part];
  }

  lemma NothingToFind()
    ensures Components([]) == None
  {
    var parts := SplitDots([]);
    assert parts == [[]] && parts[0] == [];
  }

  // ---------- numbers ----------

  const UINT32_MAX := 0xFFFF_FFFF
  const ULLONG_MAX := 0xFFFF_FFFF_FFFF_FFFF

  // The C library conversion of a digit string; it saturates.
  function StrToULL(s: seq<byte>, radix: nat): nat
    requires AllDigits(s, radix)
  {
    if Value(s, radix) > ULLONG_MAX then ULLONG_MAX else Value(s, radix)
  }

  const MAX_COMPONENT_LENGTH := 16

  // Cutting to sixteen digits never changes whether the value fits 32 bits, nor the value
  // if it does.
  lemma {:induction false} CutIsHarmless(digits: seq<byte>, radix: nat)
    requires AllDigits(digits, radix) && (radix == 8 || radix == 10 || radix == 16)
    requires digits != [] ==> digits[0] != 0x30
    ensures var cut := if |digits| > MAX_COMPONENT_LENGTH then digits[..MAX_COMPONENT_LENGTH] else digits;
            && AllDigits(cut, radix)
            && (StrToULL(cut, radix) > UINT32_MAX <==> Value(digits, radix) > UINT32_MAX)
            && (StrToULL(cut, radix) <= UINT32_MAX ==> StrToULL(cut, radix) == Value(digits, radix))
  {
    if |digits| > MAX_COMPONENT_LENGTH {
      var cut := digits[..MAX_COMPONENT_LENGTH];
      ValuePrefix(digits, MAX_COMPONENT_LENGTH, radix);
      ValueBounds(cut, radix);
      Powers();
    }
  }

  // Copies the digits, but no more than fit the buffer; the others are only checked.
  method CopyDigits(digits: seq<byte>, radix: nat) returns (ok: bool, buf: seq<byte>)
    ensures ok <==> AllDigits(digits, radix)
    ensures ok ==> buf == if |digits| > MAX_COMPONENT_LENGTH then digits[..MAX_COMPONENT_LENGTH] else digits
  {
    buf := [];
    var i := 0;
    while i < |digits|
      invariant 0 <= i <= |digits|
      invariant forall j :: 0 <= j < i ==> IsDigit(digits[j], radix)
      invariant buf == digits[..if i > MAX_COMPONENT_LENGTH then MAX_COMPONENT_LENGTH else i]
    {
      if !IsDigit(digits[i], radix) {
        return false, buf;
      }
      if |buf| < MAX_COMPONENT_LENGTH {
        buf := buf + [digits[i]];
      }
      i := i + 1;
    }
    ok := true;
  }

  method IPv4ComponentToNumber(component: seq<byte>) returns (family: Family, number: nat)
    requires component != []
    ensures family == if !IsNumeric(component) then NEUTRAL
                      else if Number(component) <= UINT32_MAX then IPV4 else BROKEN
    ensures family == IPV4 ==> number == Number(component)
  {
    hide Value, IsDigit;
    var radix, prefix := 10, 0;
    if component[0] == 0x30 {
      if |component| == 1 {
        radix, prefix := 10, 0;
      } else if component[1] == 0x58 || component[1] == 0x78 {
        radix, prefix := 16, 2;
      } else {
        radix, prefix := 8, 1;
      }
    }
    ghost var start, digits := prefix, component[prefix..];
    assert Radix(component) == (radix, digits);
    while prefix < |component| && component[prefix] == 0x30
      invariant start <= prefix <= |component|
      invariant forall j :: start <= j < prefix ==> component[j] == 0x30
    {
      prefix := prefix + 1;
    }
    var ok, buf := CopyDigits(component[prefix..], radix);
    assert digits[prefix - start..] == component[prefix..];
    StripZeros(digits, prefix - start, radix);
    if !ok {
      return NEUTRAL, 0;
    }
    CutIsHarmless(component[prefix..], radix);
    var num := StrToULL(buf, radix);
    if num > UINT32_MAX {
      return BROKEN, 0;
    }
    return IPV4, num;
  }

  // Leading zeros are digits in every radix and add nothing.
  lemma StripZeros(digits: seq<byte>, k: nat, radix: nat)
    requires k <= |digits| && (forall i :: 0 <= i < k ==> digits[i] == 0x30)
    requires radix == 8 || radix == 10 || radix == 16
    ensures AllDigits(digits, radix) <==> AllDigits(digits[k..], radix)
    ensures AllDigits(digits, radix) ==> Value(digits[k..], radix) == Value(digits, radix)
  {
    if AllDigits(digits[k..], radix) {
      assert forall i :: k <= i < |digits| ==> digits[i] == digits[k..][i - k];
    }
    if AllDigits(digits, radix) { ValueZeros(digits, k, radix); }
  }

  // ---------- the address ----------

  // Writes the low bytes of the last value, the lowest one at address[at + 3].
  method SpreadLast(value: nat, n: nat, address: array<byte>, at: nat) returns (last: nat)
    requires n <= 3 && at + 4 <= address.Length
    modifies address
    ensures value < Pow256(4 - n) <==> last == 0
    ensures address[at + n..at + 4] == BigEndian(value, 4 - n)
    ensures forall j :: 0 <= j < at + n || at + 4 <= j < address.Length ==> address[j] == old(address[j])
  {
    last := value;
    var i := 3;
    while i >= n
      invariant n - 1 <= i <= 3
      invariant BigEndian(value, 4 - n) == BigEndian(last, i + 1 - n) + address[at + i + 1..at + 4]
      invariant value < Pow256(4 - n) <==> last < Pow256(i + 1 - n)
      invariant forall j :: 0 <= j < at + n || at + 4 <= j < address.Length ==> address[j] == old(address[j])
    {
      ghost var tail := address[at + i + 1..at + 4];
      address[at + i] := last % 256;
      assert address[at + i..at + 4] == [last % 256] + tail;
      assert last < 256 * Pow256(i - n) <==> last / 256 < Pow256(i - n);
      last := last / 256;
      i := i - 1;
    }
  }

  // Writes the values into address[at..at + 4]; the last one fills what the others leave.
  method SpreadValues(values: seq<nat>, address: array<byte>, at: nat) returns (ok: bool)
    requires 1 <= |values| <= 4 && at + 4 <= address.Length
    modifies address
    ensures ok <==> Judge(values).family == IPV4
    ensures ok ==> address[at..at + 4] == Judge(values).bytes
    ensures forall j :: 0 <= j < at || at + 4 <= j < address.Length ==> address[j] == old(address[j])
  {
    hide BigEndian, Pow256;
    var n := |values| - 1;
    var i := 0;
    while i < n
      invariant 0 <= i <= n
      invariant forall j :: 0 <= j < i ==> values[j] < 256 && address[at + j] == values[j]
      invariant forall j :: 0 <= j < at || at + 4 <= j < address.Length ==> address[j] == old(address[j])
    {
      if values[i] > 0xFF {
        return false;
      }
      address[at + i] := values[i];
      i := i + 1;
    }
    assert address[at..at + n] == values[..n];
    var last := SpreadLast(values[n], n, address, at);
    ok := last == 0;
    assert address[at..at + n] == values[..n];
    assert address[at..at + 4] == address[at..at + n] + address[at + n..at + 4];
  }

  lemma TooLarge(values: seq<nat>, j: nat)
    requires j < |values| <= 4 && values[j] > UINT32_MAX
    ensures Judge(values).family == BROKEN
  {
    assert Pow256(1) == 0x100 && Pow256(2) == 0x1_0000 && Pow256(3) == 0x100_0000 && Pow256(4) == 0x1_0000_0000;
  }

  // The components read so far: all numeric, and the values of those that fit 32 bits.
  ghost predicate Read(parts: seq<seq<byte>>, values: seq<nat>, broken: bool) {
    && AllNonempty(parts) && |values| == |parts| && (forall j :: 0 <= j < |parts| ==> IsNumeric(parts[j]))
    && (broken <==> exists j :: 0 <= j < |parts| && Number(parts[j]) > UINT32_MAX)
    && forall j :: 0 <= j < |parts| && Number(parts[j]) <= UINT32_MAX ==> values[j] == Number(parts[j])
  }

  lemma ReadNext(parts: seq<seq<byte>>, values: seq<nat>, broken: bool, part: seq<byte>, v: nat)
    requires Read(parts, values, broken) && part != [] && IsNumeric(part)
    requires Number(part) <= UINT32_MAX ==> v == Number(part)
    ensures Read(parts + [part], values + [v], broken || Number(part) > UINT32_MAX)
  {
    hide Number, IsNumeric;
    var ps := parts + [part];
    assert ps[|parts|] == part && forall j :: 0 <= j < |parts| ==> ps[j] == parts[j];
  }

  // Converts the components that are there; stops at one that is no number.
  method ReadComponents(host: seq<byte>, components: seq<Component>)
    returns (numeric: bool, values: seq<nat>, broken: bool)
    requires |components| == 4 && forall j :: 0 <= j < 4 ==> Within(components[j], host)
    ensures numeric ==> Read(Texts(host, components), values, broken)
    ensures !numeric ==> exists j :: 0 <= j < |Texts(host, components)| &&
                                     Texts(host, components)[j] != [] && !IsNumeric(Texts(host, components)[j])
  {
    hide Number, IsNumeric, Texts, Read;
    values, broken := [], false;
    var i := 0;
    ReadNothing(host);
    while i < 4
      invariant 0 <= i <= 4
      invariant Read(Texts(host, components[..i]), values, broken)
    {
      ghost var parts := Texts(host, components[..i]);
      TextsNext(host, components, i);
      assert parts + [] == parts;
      if components[i].len > 0 {
        var part := host[components[i].begin..components[i].begin + components[i].len];
        var family, value := IPv4ComponentToNumber(part);
        ghost var before := broken;
        if family == BROKEN {
          broken := true;
        } else if family != IPV4 {
          TextsPrefix(host, components, i + 1);
          assert Texts(host, components)[|parts|] == part;
          return false, values, broken;
        }
        ReadNext(parts, values, before, part, value);
        values := values + [value];
      }
      i := i + 1;
    }
    assert components[..4] == components;
    numeric := true;
  }

  // Components that are all numbers.
  ghost predicate AreNumbers(parts: Option<seq<seq<byte>>>) {
    parts.Some? && AllNonempty(parts.value) && forall i :: 0 <= i < |parts.value| ==> IsNumeric(parts.value[i])
  }

  // Every number but the last of n is at most 255, and the last is below 256^(5 - n).
  ghost predicate InBounds(parts: seq<seq<byte>>)
    requires AreNumbers(Some(parts))
  {
    1 <= |parts| <= 4 && (forall i :: 0 <= i < |parts| - 1 ==> Number(parts[i]) <= 255)
    && Number(parts[|parts| - 1]) < Pow256(5 - |parts|)
  }

  lemma MeaningInBounds(host: seq<byte>)
    ensures var parts, family := Components(host), Meaning(host).family;
      if AreNumbers(parts) then family == (if InBounds(parts.value) then IPV4 else BROKEN) else family == NEUTRAL
  {
    hide Components, Number, IsNumeric;
    if Components(host).Some? {
      ComponentsNonempty(host);
      ComponentsParts(host);
      var parts := Components(host).value;
      if AreNumbers(Some(parts)) {
        var values := Numbers(parts);
        assert forall i :: 0 <= i < |parts| ==> values[i] == Number(parts[i]);
      }
    }
  }

  lemma ComponentsParts(host: seq<byte>)
    requires Components(host).Some?
    ensures AllNonempty(Components(host).value)
  {
  }

  // Each component is cut to 16 digits and 32 bits, and the verdict is that of the numbers
  // themselves.
  method IPv4AddressToNumber(host: seq<byte>, address: array<byte>, at: nat) returns (family: Family, count: nat)
    requires at + 4 <= address.Length
    modifies address
    ensures family == Meaning(host).family
    ensures family == NEUTRAL <==> !AreNumbers(Components(host))
    ensures family == IPV4 <==> AreNumbers(Components(host)) && InBounds(Components(host).value)
    ensures family == IPV4 ==> address[at..at + 4] == Meaning(host).bytes && count == Meaning(host).count
    ensures forall j :: 0 <= j < at || at + 4 <= j < address.Length ==> address[j] == old(address[j])
  {
    hide Components, Number, IsNumeric, Judge, InBounds, AreNumbers;
    MeaningInBounds(host);
    var ok, components := FindIPv4Components(host);
    if !ok {
      return NEUTRAL, 0;
    }
    var numeric, values, broken := ReadComponents(host, components);
    if !numeric {
      return NEUTRAL, 0;
    }
    ghost var parts := Texts(host, components);
    ComponentsNonempty(host);
    if broken {
      ghost var j :| 0 <= j < |parts| && Number(parts[j]) > UINT32_MAX;
      TooLarge(Numbers(parts), j);
      return BROKEN, 0;
    }
    assert values == Numbers(parts);
    ok := SpreadValues(values, address, at);
    JudgeShape(values);
    return if ok then IPV4 else BROKEN, |values|;
  }

  lemma ReadNothing(host: seq<byte>)
    ensures Read(Texts(host, []), [], false)
  {
  }

  lemma TextsNext(host: seq<byte>, cs: seq<Component>, i: nat)
    requires i < |cs| && forall j :: 0 <= j < |cs| ==> Within(cs[j], host)
    ensures Within(cs[i], host)
    ensures Texts(host, cs[..i + 1]) ==
            Texts(host, cs[..i]) + if cs[i].len > 0 then [host[cs[i].begin..cs[i].begin + cs[i].len]] else []
  {
    assert cs[..i + 1][..i] == cs[..i];
    assert Within(cs[i], host);
  }

  lemma JudgeShape(values: seq<nat>)
    requires 1 <= |values| <= 4
    ensures var p := Judge(values); p.family == BROKEN || (p.family == IPV4 && p.count == |values| && |p.bytes| == 4)
  {
  }

  lemma ComponentsNonempty(host: seq<byte>)
    requires Components(host).Some?
    ensures 1 <= |Components(host).value| <= 4
  {
  }

  lemma {:induction false} TextsPrefix(host: seq<byte>, cs: seq<Component>, k: nat)
    requires k <= |cs| && forall i :: 0 <= i < |cs| ==> Within(cs[i], host)
    ensures Texts(host, cs[..k]) <= Texts(host, cs)
    decreases |cs|
  {
    if k == |cs| {
      assert cs[..k] == cs;
    } else {
      assert cs[..|cs| - 1][..k] == cs[..k];
      TextsPrefix(host, cs[..|cs| - 1], k);
    }
  }

  // ---------- printing ----------

  // The shortest decimal form, as "%d" writes it.
  function Decimal(n: nat): (s: seq<byte>)
    ensures s != [] && AllDigits(s, 10) && (s[0] == 0x30 ==> |s| == 1)
    ensures n > 0 ==> s[0] != 0x30
  {
    if n < 10 then [0x30 + n] else Decimal(n / 10) + [0x30 + n % 10]
  }

  function Dotted(bytes: seq<byte>): seq<byte>
    requires bytes != []
    decreases |bytes|
  {
    var n := |bytes| - 1;
    if n == 0 then Decimal(bytes[0]) else Dotted(bytes[..n]) + [DOT] + Decimal(bytes[n])
  }

  lemma DottedPush(bytes: seq<byte>, i: nat)
    requires i < |bytes|
    ensures Dotted(bytes[..i + 1]) == (if i == 0 then [] else Dotted(bytes[..i]) + [DOT]) + Decimal(bytes[i])
  {
    hide Decimal;
    assert bytes[..i + 1][..i] == bytes[..i];
    if i == 0 { assert [] + Decimal(bytes[0]) == Decimal(bytes[0]); }
  }

  method AppendIPv4Address(address: seq<byte>, output: seq<byte>) returns (out: seq<byte>)
    requires |address| == 4
    ensures out == output + Dotted(address)
  {
    hide Dotted, Decimal;
    out := output;
    var i := 0;
    ghost var front: seq<byte> := [];
    assert output + front == output;
    while i < 4
      invariant 0 <= i <= 4 && out == output + front
      invariant i < 4 ==> front == if i == 0 then [] else Dotted(address[..i]) + [DOT]
      invariant i == 4 ==> front == Dotted(address)
    {
      DottedPush(address, i);
      var str := Decimal(address[i]);
      Assoc(output, front, str);
      out := out + str;
      front := front + str;
      if i != 3 {
        Assoc(output, front, [DOT]);
        out := out + [DOT];
        front := front + [DOT];
      } else {
        assert address[..4] == address;
      }
      i := i + 1;
    }
  }

  lemma {:induction false} DecimalValue(n: nat)
    ensures Value(Decimal(n), 10) == n
  {
    if n >= 10 {
      DecimalValue(n / 10);
      var s := Decimal(n);
      assert s[..|s| - 1] == Decimal(n / 10);
    } else {
      assert Decimal(n)[..0] == [];
    }
  }

  lemma DecimalNumber(n: nat)
    ensures IsNumeric(Decimal(n)) && Number(Decimal(n)) == n && DOT !in Decimal(n) && AllIPv4Chars(Decimal(n))
  {
    DecimalValue(n);
    var s := Decimal(n);
    assert Radix(s) == (10, s);
    assert forall i :: 0 <= i < |s| ==> IsDigit(s[i], 10);
  }

  lemma SplitOne(a: seq<byte>)
    requires DOT !in a
    ensures SplitDots(a) == [a]
  {
    assert a[..|a|] == a;
    FirstDotIs(a, |a|);
  }

  lemma SplitFirst(a: seq<byte>, rest: seq<byte>)
    requires DOT !in a
    ensures SplitDots(a + [DOT] + rest) == [a] + SplitDots(rest)
  {
    var w := a + [DOT] + rest;
    assert w[..|a|] == a && w[|a|] == DOT && w[|a| + 1..] == rest;
    FirstDotIs(w, |a|);
  }

  lemma DottedText(b: seq<byte>)
    requires |b| == 4
    ensures Dotted(b) == Decimal(b[0]) + [DOT] + (Decimal(b[1]) + [DOT] + (Decimal(b[2]) + [DOT] + Decimal(b[3])))
  {
    assert b[..3][..2] == b[..2] && b[..3][..2][..1] == b[..1];
    assert Dotted(b[..1]) == Decimal(b[0]);
    assert Dotted(b[..2]) == Decimal(b[0]) + [DOT] + Decimal(b[1]);
    assert Dotted(b[..3]) == Decimal(b[0]) + [DOT] + Decimal(b[1]) + [DOT] + Decimal(b[2]);
    Assoc(Decimal(b[0]) + [DOT], Decimal(b[1]) + [DOT], Decimal(b[2]) + [DOT] + Decimal(b[3]));
    Assoc(Decimal(b[0]) + [DOT], Decimal(b[1]), [DOT]);
    Assoc(Decimal(b[0]) + [DOT] + (Decimal(b[1]) + [DOT]), Decimal(b[2]) + [DOT], Decimal(b[3]));
    Assoc(Decimal(b[0]) + [DOT] + (Decimal(b[1]) + [DOT]), Decimal(b[2]), [DOT]);
  }

  lemma DottedComponents(b: seq<byte>)
    requires |b| == 4
    ensures Components(Dotted(b)) == Some([Decimal(b[0]), Decimal(b[1]), Decimal(b[2]), Decimal(b[3])])
  {
    hide SplitDots, Decimal, Dotted;
    DottedText(b);
    DecimalNumber(b[0]);
    DecimalNumber(b[1]);
    DecimalNumber(b[2]);
    DecimalNumber(b[3]);
    SplitOne(Decimal(b[3]));
    SplitFirst(Decimal(b[2]), Decimal(b[3]));
    SplitFirst(Decimal(b[1]), Decimal(b[2]) + [DOT] + Decimal(b[3]));
    SplitFirst(Decimal(b[0]), Decimal(b[1]) + [DOT] + (Decimal(b[2]) + [DOT] + Decimal(b[3])));
    var parts := [Decimal(b[0]), Decimal(b[1]), Decimal(b[2]), Decimal(b[3])];
    assert SplitDots(Dotted(b)) == parts;
    CharsConcat(Decimal(b[2]), Decimal(b[3]));
    CharsConcat(Decimal(b[1]), Decimal(b[2]) + [DOT] + Decimal(b[3]));
    CharsConcat(Decimal(b[0]), Decimal(b[1]) + [DOT] + (Decimal(b[2]) + [DOT] + Decimal(b[3])));
  }

  lemma CharsConcat(a: seq<byte>, b: seq<byte>)
    requires AllIPv4Chars(a) && AllIPv4Chars(b)
    ensures AllIPv4Chars(a + [DOT] + b)
  {
  }

  // Printing four bytes and parsing the text gives the four bytes.
  lemma {:induction false} PrintParse(b: seq<byte>)
    requires |b| == 4
    ensures Meaning(Dotted(b)) == Parsed(IPV4, b, 4)
  {
    hide Components, Decimal, Dotted, IsNumeric, Number;
    DottedComponents(b);
    DecimalNumber(b[0]);
    DecimalNumber(b[1]);
    DecimalNumber(b[2]);
    DecimalNumber(b[3]);
    var parts := [Decimal(b[0]), Decimal(b[1]), Decimal(b[2]), Decimal(b[3])];
    assert Numbers(parts) == b;
    assert BigEndian(b[3], 1) == BigEndian(b[3] / 256, 0) + [b[3]];
    assert Pow256(1) == 256;
    assert b[..3] + [b[3]] == b;
  }
}
