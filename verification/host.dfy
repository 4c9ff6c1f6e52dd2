/** The host canonicalizer: unescaping, the host character table, and IP literals. */
module Host {
  import opened Bytes
  import opened Escapes
  import opened IPv4
  import opened IPv6Parse
  import opened IPv6Number
  import opened IPv6Print

  // ---------- the character table ----------

  // Disallowed, allowed but always escaped, or written as the given character.
  datatype CharUse = Disallowed | ToEscape | WriteAs(c: byte)

  function HostChar(c: byte): CharUse
    requires c < 0x80
  {
    if c < 0x20 || c == PERCENT || c == SLASH || c == 0x3B || c == 0x3F || c == BACKSLASH || c == 0x5E || c >= 0x7E
    then Disallowed
    else if c == 0x2B || c == 0x2D || c == DOT || c == COLON || IsDecChar(c) || c == OPEN_BRACKET || c == CLOSE_BRACKET
            || c == 0x5F || 0x61 <= c <= 0x7A then WriteAs(c)
    else if 0x41 <= c <= 0x5A then WriteAs(c + 0x20)
    else ToEscape
  }

  // ---------- DoSimpleHost ----------

  // What is written for an unescaped character, and whether it is acceptable.
  function Emitted(c: byte): seq<byte> {
    if c >= 0x80 then [c] else match HostChar(c) case WriteAs(r) => [r] case _ => Escaped(c)
  }

  predicate Acceptable(c: byte) {
    c < 0x80 ==> !HostChar(c).Disallowed?
  }

  // The first character of a host after unescaping, and its length in the host.  A '%' that
  // starts no escape stands for itself and is disallowed.
  function Source(h: seq<byte>): (r: (byte, nat))
    requires h != []
    ensures 1 <= r.1 <= |h|
  {
    if h[0] == PERCENT && IsEscape(h) then (EscapeValue(h[1], h[2]), 3) else (h[0], 1)
  }

  datatype Simple = Simple(text: seq<byte>, ok: bool, nonAscii: bool)

  function SimpleHost(h: seq<byte>): Simple {
    if h == [] then Simple([], true, false)
    else
      var (c, n) := Source(h);
      var rest := SimpleHost(h[n..]);
      Simple(Emitted(c) + rest.text, Acceptable(c) && rest.ok, c >= 0x80 || rest.nonAscii)
  }

  method DoSimpleHost(host: seq<byte>, output: seq<byte>) returns (out: seq<byte>, success: bool, hasNonAscii: bool)
    ensures out == output + SimpleHost(host).text
    ensures success == SimpleHost(host).ok && hasNonAscii == SimpleHost(host).nonAscii
  {
    hide HostChar, Escaped, EscapeValue;
    out, success, hasNonAscii := output, true, false;
    var i := 0;
    assert host[0..] == host;
    while i < |host|
      invariant 0 <= i <= |host|
      invariant out + SimpleHost(host[i..]).text == output + SimpleHost(host).text
      invariant (success && SimpleHost(host[i..]).ok) == SimpleHost(host).ok
      invariant (hasNonAscii || SimpleHost(host[i..]).nonAscii) == SimpleHost(host).nonAscii
    {
      var source, next := host[i], i + 1;
      ghost var h := host[i..];
      PercentDisallowed();
      if source == PERCENT && IsEscape(host[i..]) {
        source, next := EscapeValue(host[i + 1], host[i + 2]), i + 3;
      }
      assert Source(h) == (source, next - i) && h[next - i..] == host[next..];
      var text;
      if source == PERCENT && next == i + 1 {
        text, success := Escaped(PERCENT), false;
      } else if source < 0x80 {
        match HostChar(source) {
          case Disallowed => text, success := Escaped(source), false;
          case ToEscape => text := Escaped(source);
          case WriteAs(r) => text := [r];
        }
      } else {
        text, hasNonAscii := [source], true;
      }
      Assoc(out, text, SimpleHost(host[next..]).text);
      out, i := out + text, next;
    }
    assert host[|host|..] == [];
  }

  lemma PercentDisallowed()
    ensures HostChar(PERCENT) == Disallowed
  {
  }

  // ---------- running it again ----------

  // What was written for a character is read as a character for which the same is written,
  // with the same verdict.
  lemma SourceOfEmitted(c: byte, w: seq<byte>)
    ensures var (d, n) := Source(Emitted(c) + w);
            n == |Emitted(c)| && Emitted(d) == Emitted(c) && Acceptable(d) == Acceptable(c) && (d >= 0x80 <==> c >= 0x80)
  {
    var h := Emitted(c) + w;
    assert forall i :: 0 <= i < |Emitted(c)| ==> h[i] == Emitted(c)[i];
  }

  lemma {:induction false} SimpleHostAgain(h: seq<byte>)
    ensures SimpleHost(SimpleHost(h).text) == SimpleHost(h)
  {
    hide HostChar, Emitted, Acceptable, Source;
    if h != [] {
      var (c, n) := Source(h);
      var w := SimpleHost(h[n..]).text;
      SimpleHostAgain(h[n..]);
      SourceOfEmitted(c, w);
      assert (Emitted(c) + w)[|Emitted(c)|..] == w;
      EmittedNonempty(c);
    }
  }

  lemma EmittedNonempty(c: byte)
    ensures Emitted(c) != []
  {
  }

  // A host of characters that are written as they are.
  predicate Plain(h: seq<byte>) {
    forall i :: 0 <= i < |h| ==> h[i] < 0x80 && HostChar(h[i]) == WriteAs(h[i])
  }

  lemma {:induction false} SimpleHostPlain(h: seq<byte>)
    requires Plain(h)
    ensures SimpleHost(h) == Simple(h, true, false)
  {
    if h != [] {
      assert HostChar(h[0]) == WriteAs(h[0]);
      SimpleHostPlain(h[1..]);
      assert [h[0]] + h[1..] == h;
    }
  }

  // ---------- IP addresses ----------

  predicate HasIPv6Char(text: seq<byte>) {
    OPEN_BRACKET in text || CLOSE_BRACKET in text || COLON in text
  }

  // The family, the text and the address bytes of a host.
  datatype HostInfo = HostInfo(text: seq<byte>, family: Family, address: seq<byte>)

  ghost function IPAddress(text: seq<byte>): HostInfo {
    var v4 := Meaning(text);
    if v4.family == IPV4 then MeaningBytes(text); HostInfo(Dotted(v4.bytes), IPV4, v4.bytes)
    else if v4.family == BROKEN then HostInfo(text, BROKEN, [])
    else
      match Address(text)
      case Some(b) => AddressSize(text); HostInfo([OPEN_BRACKET] + Print(b) + [CLOSE_BRACKET], IPV6, b)
      case None => HostInfo(text, if HasIPv6Char(text) then BROKEN else NEUTRAL, [])
  }

  lemma AddressSize(text: seq<byte>)
    requires Address(text).Some?
    ensures |Address(text).value| == 16
  {
  }

  // canon is the canonical form when the family is an IP address; otherwise there is none.
  method CanonicalizeIPAddress(text: seq<byte>)
    returns (family: Family, canon: seq<byte>, address: seq<byte>, count: nat)
    ensures family == IPAddress(text).family && address == IPAddress(text).address
    ensures family == IPV4 || family == IPV6 ==> canon == IPAddress(text).text
    ensures family != IPV4 && family != IPV6 ==> IPAddress(text).text == text
    ensures family == IPV4 ==> count == Meaning(text).count
  {
    hide Meaning, Address, Dotted, Print;
    MeaningFamily(text);
    canon, address := [], [];
    var buffer := new byte[16];
    family, count := IPv4AddressToNumber(text, buffer, 0);
    if family == IPV4 {
      MeaningBytes(text);
      address := buffer[0..4];
      canon := AppendIPv4Address(address, canon);
      assert [] + Dotted(address) == Dotted(address);
      return;
    }
    if family == BROKEN {
      return;
    }
    var ok := IPv6AddressToNumber(text, buffer);
    if !ok {
      var i := 0;
      while i < |text|
        invariant 0 <= i <= |text| && !HasIPv6Char(text[..i])
      {
        if text[i] == OPEN_BRACKET || text[i] == CLOSE_BRACKET || text[i] == COLON {
          return BROKEN, canon, address, count;
        }
        assert text[..i + 1] == text[..i] + [text[i]];
        i := i + 1;
      }
      assert text[..|text|] == text;
      return NEUTRAL, canon, address, count;
    }
    address := buffer[..];
    AddressSize(text);
    canon := [OPEN_BRACKET];
    canon := AppendIPv6Address(address, canon);
    canon := canon + [CLOSE_BRACKET];
    family := IPV6;
  }

  lemma MeaningFamily(text: seq<byte>)
    ensures Meaning(text).family != IPV6
  {
    hide Components;
    if Components(text).Some? { ComponentsNonempty(text); }
  }

  // ---------- DoHost ----------

  // The host needs no conversion of non-ASCII characters: there are none after unescaping, or
  // an escape failed already.
  predicate NoIDN(h: seq<byte>) {
    !SimpleHost(h).nonAscii || (PERCENT in h && !SimpleHost(h).ok)
  }

  ghost function HostResult(h: seq<byte>): HostInfo {
    var s := SimpleHost(h);
    if h == [] then HostInfo([], NEUTRAL, [])
    else if s.ok then IPAddress(s.text)
    else HostInfo(s.text, BROKEN, [])
  }

  // A missing range has the length -1.
  method DoHost(host: seq<byte>, output: seq<byte>)
    returns (out: seq<byte>, family: Family, address: seq<byte>, count: nat, outBegin: nat, outLen: int)
    requires NoIDN(host)
    ensures out == output + HostResult(host).text
    ensures family == HostResult(host).family && address == HostResult(host).address
    ensures family == IPV4 ==> count == Meaning(SimpleHost(host).text).count
    ensures if host == [] then outBegin == 0 && outLen == -1
            else outBegin == |output| && outLen == |HostResult(host).text|
  {
    hide SimpleHost, IPAddress, Meaning;
    address, count := [], 0;
    if host == [] {
      return output, NEUTRAL, address, count, 0, -1;
    }
    var outputBegin := |output|;
    var success, hasNonAscii;
    out, success, hasNonAscii := DoSimpleHost(host, output);
    if success {
      var canon;
      assert out[outputBegin..] == SimpleHost(host).text;
      family, canon, address, count := CanonicalizeIPAddress(out[outputBegin..]);
      if family == IPV4 || family == IPV6 {
        out := out[..outputBegin] + canon;
      }
    } else {
      family := BROKEN;
    }
    outBegin, outLen := outputBegin, |out| - outputBegin;
  }

  // ---------- running DoHost again ----------

  lemma DottedPlain(b: seq<byte>)
    requires |b| == 4
    ensures Plain(Dotted(b)) && Dotted(b) != []
  {
    hide Decimal, Dotted;
    DottedText(b);
    DecimalPlain(b[0]);
    DecimalPlain(b[1]);
    DecimalPlain(b[2]);
    DecimalPlain(b[3]);
    assert Plain([DOT]);
  }

  lemma DecimalPlain(n: nat)
    ensures Plain(Decimal(n))
  {
    var s := Decimal(n);
    forall i | 0 <= i < |s| ensures s[i] < 0x80 && HostChar(s[i]) == WriteAs(s[i]) {
      assert IsDigit(s[i], 10);
    }
  }

  lemma {:induction false} HexPlain(v: nat)
    ensures Plain(Hex(v))
  {
    if v >= 16 { HexPlain(v / 16); }
  }

  predicate AllPlain(gs: seq<seq<byte>>) {
    forall i :: 0 <= i < |gs| ==> Plain(gs[i])
  }

  lemma {:induction false} HexGroupsPlain(address: seq<byte>, a: nat, b: nat)
    requires |address| == 16 && a <= b <= 8
    ensures AllPlain(HexGroups(address, a, b))
    decreases b
  {
    hide Hex;
    if a < b {
      HexGroupsPlain(address, a, b - 1);
      HexPlain(GroupValue(address, b - 1));
    }
  }

  lemma {:induction false} JoinPlain(gs: seq<seq<byte>>)
    requires AllPlain(gs)
    ensures Plain(Lead(gs)) && Plain(JoinColons(gs))
  {
    if gs != [] {
      JoinPlain(gs[..|gs| - 1]);
      assert Plain(gs[|gs| - 1]);
    }
  }

  lemma PrintPlain(address: seq<byte>)
    requires |address| == 16
    ensures Plain([OPEN_BRACKET] + Print(address) + [CLOSE_BRACKET])
  {
    hide Print, HexGroups, JoinColons;
    ContractionExists(address);
    var b: nat, l: int :| IsContraction(address, b, l);
    PrintShape(address, b, l);
    if l == -1 {
      HexGroupsPlain(address, 0, 8);
      JoinPlain(HexGroups(address, 0, 8));
    } else {
      HexGroupsPlain(address, 0, b / 2);
      HexGroupsPlain(address, (b + l) / 2, 8);
      JoinPlain(HexGroups(address, 0, b / 2));
      JoinPlain(HexGroups(address, (b + l) / 2, 8));
      assert Plain([COLON, COLON]);
    }
    assert Plain(Print(address));
  }

  // The canonical text of an address is left alone and recognized as the same address.
  lemma {:induction false} IPAddressAgain(text: seq<byte>)
    requires IPAddress(text).family == IPV4 || IPAddress(text).family == IPV6
    ensures var r := IPAddress(text); Plain(r.text) && r.text != [] && IPAddress(r.text) == r
  {
    hide Meaning, Address, Dotted, Print, Plain;
    MeaningFamily(text);
    var r := IPAddress(text);
    if r.family == IPV4 {
      MeaningBytes(text);
      DottedPlain(r.address);
      PrintParse(r.address);
    } else {
      AddressSize(text);
      PrintPlain(r.address);
      PrintParse6(r.address);
      assert r.text[0] == OPEN_BRACKET;
      BracketIsNeutral(r.text);
    }
  }

  lemma BracketIsNeutral(text: seq<byte>)
    requires text != [] && text[0] == OPEN_BRACKET
    ensures Meaning(text).family == NEUTRAL
  {
    BadCharacter(text, 0);
  }

  // Canonicalizing a canonicalized host changes neither its text nor its verdict nor the
  // address, whether it was accepted or not.
  lemma {:induction false} HostAgain(h: seq<byte>)
    requires NoIDN(h)
    ensures var r := HostResult(h); NoIDN(r.text) && HostResult(r.text) == r
  {
    hide SimpleHost, IPAddress, Plain;
    var s, r := SimpleHost(h), HostResult(h);
    SimpleHostAgain(h);
    if h == [] {
      SimpleHostNothing();
    } else {
      SimpleHostNonempty(h);
      if s.ok && (r.family == IPV4 || r.family == IPV6) {
        IPAddressAgain(s.text);
        SimpleHostPlain(r.text);
      } else {
        if s.ok { IPAddressText(s.text); } else { FailureEscapes(h); }
      }
    }
  }

  // The count of components is the one thing that may change: the second run finds four.
  lemma {:induction false} CountAgain(h: seq<byte>)
    requires NoIDN(h) && HostResult(h).family == IPV4
    ensures Meaning(SimpleHost(HostResult(h).text).text).count == 4
  {
    hide Meaning, Address, Dotted, SimpleHost, Plain;
    var text, r := SimpleHost(h).text, HostResult(h);
    MeaningFamily(text);
    MeaningBytes(text);
    DottedPlain(r.address);
    SimpleHostPlain(r.text);
    PrintParse(r.address);
  }

  lemma SimpleHostNothing()
    ensures SimpleHost([]) == Simple([], true, false)
  {
  }

  lemma SimpleHostNonempty(h: seq<byte>)
    requires h != []
    ensures SimpleHost(h).text != []
  {
    EmittedNonempty(Source(h).0);
  }

  lemma IPAddressText(text: seq<byte>)
    ensures IPAddress(text).family != IPV4 && IPAddress(text).family != IPV6 ==> IPAddress(text).text == text
  {
    MeaningFamily(text);
  }

  // A failure leaves an escape in the text.
  lemma {:induction false} FailureEscapes(h: seq<byte>)
    requires !SimpleHost(h).ok
    ensures PERCENT in SimpleHost(h).text
  {
    if h != [] {
      var (c, n) := Source(h);
      if Acceptable(c) {
        FailureEscapes(h[n..]);
      } else {
        assert Emitted(c)[0] == PERCENT;
      }
    }
  }
}
