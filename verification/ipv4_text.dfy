/** What IPv4 components and hosts mean, measured against digits written out and sums. */
module IPv4Text {
  import opened Bytes
  import opened Options
  import opened IPv4

  // ---------- numbers ----------

  function Digit(d: nat, upper: bool): byte
    requires d < 16
  {
    if d < 10 then 0x30 + d else if upper then 0x37 + d else 0x57 + d
  }

  // n written in the given radix.
  function Digits(n: nat, radix: nat, upper: bool): (s: seq<byte>)
    requires 2 <= radix <= 16
    ensures s != []
  {
    if n < radix then [Digit(n, upper)] else Digits(n / radix, radix, upper) + [Digit(n % radix, upper)]
  }

  lemma DigitValue(d: nat, radix: nat, upper: bool)
    requires d < radix && (radix == 8 || radix == 10 || radix == 16)
    ensures IsDigit(Digit(d, upper), radix) && HexCharToValue(Digit(d, upper)) == d
    ensures Digit(d, upper) == 0x30 <==> d == 0
  {
  }

  lemma {:induction false} DigitsValue(n: nat, radix: nat, upper: bool)
    requires radix == 8 || radix == 10 || radix == 16
    ensures var s := Digits(n, radix, upper);
      && AllDigits(s, radix) && Value(s, radix) == n && (s[0] == 0x30 ==> n == 0 && |s| == 1)
  {
    hide Digit, IsDigit, HexCharToValue, Value;
    if n < radix {
      DigitValue(n, radix, upper);
      ValueOne(Digit(n, upper), radix);
    } else {
      DigitsValue(n / radix, radix, upper);
      DigitValue(n % radix, radix, upper);
      ValuePush(Digits(n / radix, radix, upper), Digit(n % radix, upper), radix);
      Quotient(n, radix);
    }
  }

  lemma Quotient(n: nat, radix: nat)
    requires radix == 8 || radix == 10 || radix == 16
    ensures n == radix * (n / radix) + n % radix && (n >= radix ==> n / radix > 0)
  {
  }

  lemma ValuePush(s: seq<byte>, c: byte, radix: nat)
    requires AllDigits(s, radix) && IsDigit(c, radix)
    ensures AllDigits(s + [c], radix) && Value(s + [c], radix) == radix * Value(s, radix) + HexCharToValue(c)
  {
    hide IsDigit, HexCharToValue;
    assert (s + [c])[..|s|] == s;
  }

  lemma ValueOne(c: byte, radix: nat)
    requires IsDigit(c, radix)
    ensures AllDigits([c], radix) && Value([c], radix) == HexCharToValue(c)
  {
    hide IsDigit, HexCharToValue;
    assert [c][..0] == [];
  }

  // Decimal without a leading zero, octal behind "0", hexadecimal behind "0x" or "0X".
  lemma {:induction false} NumberSpellings(n: nat, upper: bool)
    ensures var s := Digits(n, 10, upper); IsNumeric(s) && Number(s) == n
    ensures var s := [0x30] + Digits(n, 8, upper); IsNumeric(s) && Number(s) == n
    ensures var s := [0x30, 0x78] + Digits(n, 16, upper); IsNumeric(s) && Number(s) == n
    ensures var s := [0x30, 0x58] + Digits(n, 16, upper); IsNumeric(s) && Number(s) == n
  {
    hide Digits, Value;
    DigitsValue(n, 10, upper);
    DigitsValue(n, 8, upper);
    DigitsValue(n, 16, upper);
    var octal, hex := Digits(n, 8, upper), Digits(n, 16, upper);
    assert ([0x30] + octal)[1..] == octal && IsDigit(octal[0], 8);
    assert ([0x30, 0x78] + hex)[2..] == hex && ([0x30, 0x58] + hex)[2..] == hex;
  }

  predicate AllBetween(s: seq<byte>, low: byte, high: byte) {
    forall i :: 0 <= i < |s| ==> low <= s[i] <= high
  }

  predicate AllHexadecimal(s: seq<byte>) {
    forall i :: 0 <= i < |s| ==> 0x30 <= s[i] <= 0x39 || 0x41 <= s[i] <= 0x46 || 0x61 <= s[i] <= 0x66
  }

  // The prefix decides which digits a component may have.
  lemma {:induction false} NumericIff(s: seq<byte>)
    ensures s != [] && s[0] != 0x30 ==> (IsNumeric(s) <==> AllBetween(s, 0x30, 0x39))
    ensures s != [] && s[0] != 0x78 && s[0] != 0x58 ==> (IsNumeric([0x30] + s) <==> AllBetween(s, 0x30, 0x37))
    ensures IsNumeric([0x30, 0x78] + s) <==> AllHexadecimal(s)
    ensures IsNumeric([0x30, 0x58] + s) <==> AllHexadecimal(s)
  {
    assert ([0x30] + s)[1..] == s;
    assert ([0x30, 0x78] + s)[2..] == s && ([0x30, 0x58] + s)[2..] == s;
  }

  // ---------- components ----------

  // Digits of any radix, 'x', 'X' and '.'.
  predicate AllIPv4Text(s: seq<byte>) {
    forall i :: 0 <= i < |s| ==>
      0x30 <= s[i] <= 0x39 || 0x41 <= s[i] <= 0x46 || 0x61 <= s[i] <= 0x66 || s[i] in [0x2E, 0x58, 0x78]
  }

  predicate DotFree(parts: seq<seq<byte>>) {
    forall i :: 0 <= i < |parts| ==> DOT !in parts[i]
  }

  function JoinDots(parts: seq<seq<byte>>): seq<byte>
    requires parts != []
  {
    if |parts| == 1 then parts[0] else parts[0] + [DOT] + JoinDots(parts[1..])
  }

  lemma {:induction false} JoinOfSplit(s: seq<byte>)
    ensures DotFree(SplitDots(s)) && JoinDots(SplitDots(s)) == s
    decreases |s|
  {
    hide FirstDot;
    var n := FirstDot(s);
    if n < |s| {
      var rest := SplitDots(s[n + 1..]);
      JoinOfSplit(s[n + 1..]);
      assert SplitDots(s)[1..] == rest;
      Around(s, n);
    } else {
      assert s[..n] == s;
    }
  }

  lemma {:induction false} SplitOfJoin(parts: seq<seq<byte>>)
    requires parts != [] && DotFree(parts)
    ensures SplitDots(JoinDots(parts)) == parts
    decreases |parts|
  {
    hide SplitDots;
    if |parts| == 1 {
      SplitOne(parts[0]);
    } else {
      SplitOfJoin(parts[1..]);
      SplitFirst(parts[0], JoinDots(parts[1..]));
      assert parts == [parts[0]] + parts[1..];
    }
  }

  lemma {:induction false} JoinEmptyEnd(parts: seq<seq<byte>>)
    requires parts != []
    ensures JoinDots(parts + [[]]) == JoinDots(parts) + [DOT]
    decreases |parts|
  {
    var q := parts + [[]];
    if |parts| == 1 {
      assert q[1..] == [[]] && JoinDots(q[1..]) == [];
      assert q[0] + [DOT] + [] == parts[0] + [DOT];
    } else {
      JoinEmptyEnd(parts[1..]);
      assert q[1..] == parts[1..] + [[]];
      Assoc(parts[0] + [DOT], JoinDots(parts[1..]), [DOT]);
    }
  }

  lemma SameChars(host: seq<byte>)
    ensures AllIPv4Chars(host) <==> AllIPv4Text(host)
  {
    forall i | 0 <= i < |host|
      ensures IsIPv4Char(host[i]) <==> 0x30 <= host[i] <= 0x39 || 0x41 <= host[i] <= 0x46
                                       || 0x61 <= host[i] <= 0x66 || host[i] in [0x2E, 0x58, 0x78] {
    }
  }

  // A host has these components exactly when it is made of IPv4 characters only and is one to
  // four nonempty texts with single dots between them, and possibly a dot at the end.
  lemma {:induction false} ComponentsIff(host: seq<byte>, parts: seq<seq<byte>>)
    ensures Components(host) == Some(parts) <==>
            && 1 <= |parts| <= 4 && AllNonempty(parts) && DotFree(parts) && AllIPv4Text(host)
            && (host == JoinDots(parts) || host == JoinDots(parts) + [DOT])
  {
    hide SplitDots, JoinDots, AllIPv4Chars, AllIPv4Text;
    SameChars(host);
    var q := SplitDots(host);
    JoinOfSplit(host);
    if Components(host) == Some(parts) {
      if parts != q {
        assert q == parts + [[]];
        JoinEmptyEnd(parts);
      }
    }
    if 1 <= |parts| <= 4 && AllNonempty(parts) && DotFree(parts) {
      var dotted := parts + [[]];
      assert DotFree(dotted) && dotted[..|parts|] == parts && dotted[|parts|] == [];
      SplitOfJoin(parts);
      SplitOfJoin(dotted);
      JoinEmptyEnd(parts);
    }
  }

  // ---------- addresses ----------

  // The number that four bytes make.
  function Weighted(b: seq<byte>): nat
    requires |b| == 4
  {
    (b[0] as int) * 0x100_0000 + (b[1] as int) * 0x1_0000 + (b[2] as int) * 0x100 + b[3]
  }

  // The number that one to four components make: a byte each, and the last what is left.
  function Total(ns: seq<nat>): nat
    requires 1 <= |ns| <= 4
  {
    if |ns| == 1 then ns[0]
    else if |ns| == 2 then ns[0] * 0x100_0000 + ns[1]
    else if |ns| == 3 then ns[0] * 0x100_0000 + ns[1] * 0x1_0000 + ns[2]
    else ns[0] * 0x100_0000 + ns[1] * 0x1_0000 + ns[2] * 0x100 + ns[3]
  }

  // Bytes read as one number.
  function Reading(s: seq<byte>): nat {
    if s == [] then 0 else 0x100 * Reading(s[..|s| - 1]) + s[|s| - 1]
  }

  lemma ReadingPush(s: seq<byte>, b: byte)
    ensures Reading(s + [b]) == 0x100 * Reading(s) + b
  {
    assert (s + [b])[..|s|] == s;
  }

  lemma {:induction false} ReadingBigEndian(v: nat, k: nat)
    requires v < Pow256(k)
    ensures Reading(BigEndian(v, k)) == v
  {
    if k > 0 {
      ReadingBigEndian(v / 0x100, k - 1);
      ReadingPush(BigEndian(v / 0x100, k - 1), v % 0x100);
    }
  }

  lemma ReadingTwo(s: seq<byte>)
    requires 1 <= |s| <= 2
    ensures |s| == 1 ==> Reading(s) == s[0]
    ensures |s| == 2 ==> Reading(s) == (s[0] as int) * 0x100 + s[1]
  {
    assert |s| == 2 ==> s[..1][..0] == [];
    assert s[..0] == [];
  }

  lemma ReadingShort(s: seq<byte>)
    requires 1 <= |s| <= 4
    ensures |s| == 1 ==> Reading(s) == s[0]
    ensures |s| == 2 ==> Reading(s) == (s[0] as int) * 0x100 + s[1]
    ensures |s| == 3 ==> Reading(s) == (s[0] as int) * 0x1_0000 + (s[1] as int) * 0x100 + s[2]
    ensures |s| == 4 ==> Reading(s) == Weighted(s)
  {
    if |s| <= 2 {
      ReadingTwo(s);
    } else {
      var t := s[..|s| - 1];
      assert Reading(s) == 0x100 * Reading(t) + s[|s| - 1];
      if |s| == 3 { ReadingTwo(t); } else { ReadingTwo(t[..2]); }
    }
  }

  lemma JudgeSum(values: seq<nat>)
    requires 1 <= |values| <= 4 && Judge(values).family == IPV4
    ensures |Judge(values).bytes| == 4 && Weighted(Judge(values).bytes) == Total(values)
  {
    hide BigEndian, Pow256, Reading;
    var n := |values| - 1;
    var s := BigEndian(values[n], 4 - n);
    ReadingBigEndian(values[n], 4 - n);
    ReadingShort(s);
  }

  // The address of a host is the number that its components make together.
  lemma {:induction false} AddressSum(host: seq<byte>)
    requires Meaning(host).family == IPV4
    ensures AreNumbers(Components(host)) && 1 <= |Components(host).value| <= 4
    ensures |Meaning(host).bytes| == 4
    ensures Weighted(Meaning(host).bytes) == Total(Numbers(Components(host).value))
    ensures Meaning(host).count == |Components(host).value|
  {
    hide Components, Number, IsNumeric, Judge, Weighted, Total;
    MeaningInBounds(host);
    ComponentsNonempty(host);
    var values := Numbers(Components(host).value);
    JudgeSum(values);
    JudgeShape(values);
  }
}
