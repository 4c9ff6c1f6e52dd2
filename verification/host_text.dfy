/** What the host canonicalizer writes and rejects, character by character. */
module HostText {
  import opened Bytes
  import opened Escapes
  import opened CharSets
  import opened IPv4
  import opened Host

  // An accepted or rejected character as it is written: letters in lower case, the plain ones
  // as they are, non-ASCII bytes as they are, all others escaped.
  function Shown(c: byte): seq<byte> {
    if c >= 0x80 then [c] else if IsHostPlain(c) then [ToLower(c)] else PercentForm(c)
  }

  function ShownAll(s: seq<byte>): seq<byte> {
    if s == [] then [] else Shown(s[0]) + ShownAll(s[1..])
  }

  predicate NoneForbidden(s: seq<byte>) {
    s == [] || (!IsHostForbidden(s[0]) && NoneForbidden(s[1..]))
  }

  predicate AnyNonAscii(s: seq<byte>) {
    s != [] && (s[0] >= 0x80 || AnyNonAscii(s[1..]))
  }

  lemma EscapedText(c: byte)
    ensures Escaped(c) == PercentForm(c)
  {
  }

  lemma ShownIsEmitted(c: byte)
    ensures Emitted(c) == Shown(c) && (Acceptable(c) <==> !IsHostForbidden(c))
  {
    EscapedText(c);
  }

  lemma FirstDecoded(h: seq<byte>)
    requires h != []
    ensures var (c, n) := Source(h); PercentDecode(h) == [c] + PercentDecode(h[n..])
  {
  }

  // The pass over the host in terms of the bytes that the host stands for.
  lemma {:induction false} SimpleHostText(h: seq<byte>)
    ensures SimpleHost(h).text == ShownAll(PercentDecode(h))
    ensures SimpleHost(h).ok <==> NoneForbidden(PercentDecode(h))
    ensures SimpleHost(h).nonAscii <==> AnyNonAscii(PercentDecode(h))
    decreases |h|
  {
    hide PercentDecode, Source, Emitted, Acceptable, Shown;
    if h == [] {
      DecodeEmpty();
    } else {
      var (c, n) := Source(h);
      FirstDecoded(h);
      ShownIsEmitted(c);
      SimpleHostText(h[n..]);
      assert ([c] + PercentDecode(h[n..]))[1..] == PercentDecode(h[n..]);
    }
  }

  lemma DecodeEmpty()
    ensures PercentDecode([]) == []
  {
  }

  // ---------- case ----------

  lemma HexCase(a: byte, b: byte)
    requires ToLower(a) == ToLower(b)
    ensures IsHexChar(a) == IsHexChar(b) && (IsHexChar(a) ==> HexCharToValue(a) == HexCharToValue(b))
    ensures (a == PERCENT) == (b == PERCENT)
  {
  }

  lemma {:induction false} DecodeCase(a: seq<byte>, b: seq<byte>)
    requires SameButCase(a, b)
    ensures SameButCase(PercentDecode(a), PercentDecode(b))
  {
    hide HexCharToValue, IsHexChar, ToLower;
    if a != [] {
      HexCase(a[0], b[0]);
      if |a| >= 3 {
        HexCase(a[1], b[1]);
        HexCase(a[2], b[2]);
      }
      if a[0] == PERCENT && IsEscape(a) {
        DecodeCase(a[3..], b[3..]);
      } else {
        DecodeCase(a[1..], b[1..]);
      }
    }
  }

  lemma ShownCase(c: byte, d: byte)
    requires ToLower(c) == ToLower(d)
    ensures Shown(c) == Shown(d) && IsHostForbidden(c) == IsHostForbidden(d) && (c >= 0x80) == (d >= 0x80)
  {
  }

  lemma {:induction false} ShownAllCase(a: seq<byte>, b: seq<byte>)
    requires SameButCase(a, b)
    ensures ShownAll(a) == ShownAll(b) && NoneForbidden(a) == NoneForbidden(b) && AnyNonAscii(a) == AnyNonAscii(b)
  {
    hide Shown, IsHostForbidden, ToLower;
    if a != [] {
      ShownCase(a[0], b[0]);
      ShownAllCase(a[1..], b[1..]);
    }
  }

  // The case of letters in a host, escaped letters and the digits of escapes included, changes
  // nothing about its canonical form, its family or its address.
  lemma {:induction false} HostCase(a: seq<byte>, b: seq<byte>)
    requires SameButCase(a, b)
    ensures HostResult(a) == HostResult(b) && NoIDN(a) == NoIDN(b)
  {
    hide SimpleHost, IPAddress, PercentDecode, ToLower;
    DecodeCase(a, b);
    ShownAllCase(PercentDecode(a), PercentDecode(b));
    SimpleHostText(a);
    SimpleHostText(b);
    assert forall i :: 0 <= i < |a| ==> (a[i] == PERCENT <==> b[i] == PERCENT) by { PercentCase(a, b); }
  }

  lemma PercentCase(a: seq<byte>, b: seq<byte>)
    requires SameButCase(a, b)
    ensures forall i :: 0 <= i < |a| ==> (a[i] == PERCENT <==> b[i] == PERCENT)
  {
  }

  // ---------- no capitals ----------

  // Right behind a '%', or one further.
  predicate InEscape(s: seq<byte>, i: nat)
    requires i < |s|
  {
    (i >= 1 && s[i - 1] == PERCENT) || (i >= 2 && s[i - 2] == PERCENT)
  }

  // An upper-case letter is a digit of an escape.
  predicate CapitalsInEscapes(s: seq<byte>) {
    forall i :: 0 <= i < |s| && IsUpper(s[i]) ==> InEscape(s, i)
  }

  lemma CapitalsConcat(a: seq<byte>, b: seq<byte>)
    requires CapitalsInEscapes(a) && CapitalsInEscapes(b)
    ensures CapitalsInEscapes(a + b)
  {
    hide IsUpper;
    var w := a + b;
    forall i | 0 <= i < |w| && IsUpper(w[i]) ensures InEscape(w, i) {
      if i < |a| {
        assert IsUpper(a[i]) && InEscape(a, i);
      } else {
        assert IsUpper(b[i - |a|]) && InEscape(b, i - |a|);
      }
    }
  }

  lemma ShownCapitals(c: byte)
    ensures CapitalsInEscapes(Shown(c))
  {
    var s := Shown(c);
    if |s| == 3 {
      assert s[0] == PERCENT && InEscape(s, 1) && InEscape(s, 2) && !IsUpper(s[0]);
    } else {
      assert !IsUpper(s[0]);
    }
  }

  lemma {:induction false} ShownAllCapitals(s: seq<byte>)
    ensures CapitalsInEscapes(ShownAll(s))
  {
    hide Shown, CapitalsInEscapes;
    if s == [] {
      NoCapitals();
    } else {
      ShownCapitals(s[0]);
      ShownAllCapitals(s[1..]);
      CapitalsConcat(Shown(s[0]), ShownAll(s[1..]));
    }
  }

  lemma NoCapitals()
    ensures CapitalsInEscapes([])
  {
  }

  lemma PlainCapitals(h: seq<byte>)
    requires Plain(h)
    ensures CapitalsInEscapes(h)
  {
    forall i | 0 <= i < |h| ensures !IsUpper(h[i]) {
      assert HostChar(h[i]) == WriteAs(h[i]);
    }
  }

  lemma {:induction false} HostCapitals(h: seq<byte>)
    ensures CapitalsInEscapes(HostResult(h).text)
  {
    hide SimpleHost, IPAddress, CapitalsInEscapes, Plain, ShownAll, PercentDecode;
    var text, r := SimpleHost(h).text, HostResult(h);
    SimpleHostText(h);
    ShownAllCapitals(PercentDecode(h));
    NoCapitals();
    if h != [] && SimpleHost(h).ok {
      IPAddressText(text);
      if r.family == IPV4 || r.family == IPV6 {
        IPAddressAgain(text);
        PlainCapitals(r.text);
      }
    }
  }
}
