/** Printing IPv6 addresses: the choice of the contraction and the text. */
module IPv6Print {
  import opened Bytes
  import opened Options
  import opened IPv4
  import opened IPv6Parse
  import opened IPv6Number

  // Groups a to a + n of the address are zero.
  predicate ZeroRun(address: seq<byte>, a: nat, n: nat)
    requires |address| == 16
  {
    a + n <= 8 && forall k :: 2 * a <= k < 2 * (a + n) ==> address[k] == 0
  }

  predicate ZeroGroup(address: seq<byte>, a: nat)
    requires |address| == 16 && a < 8
  {
    address[2 * a] == 0 && address[2 * a + 1] == 0
  }

  // A run of n groups at a is no candidate besides (begin, len): shorter, or as long and not
  // further left.  Lengths are in bytes.
  predicate Beaten(begin: nat, len: int, a: nat, n: nat) {
    2 * n <= len && (2 * n == len ==> begin <= 2 * a)
  }

  // (begin, len) is the leftmost longest run of at least two zero groups, or len is -1 and
  // there is none.
  ghost predicate IsContraction(address: seq<byte>, begin: nat, len: int)
    requires |address| == 16
  {
    && (len == -1 || (begin % 2 == 0 && len % 2 == 0 && len >= 4 && ZeroRun(address, begin / 2, len / 2)))
    && forall a: nat, n: nat :: n >= 2 && ZeroRun(address, a, n) ==> Beaten(begin, len, a, n)
  }

  // All runs in front of group k - cur have been compared; groups k - cur to k are zero and
  // the one in front of them is not.
  ghost predicate Searched(address: seq<byte>, k: nat, cur: nat, begin: nat, len: int)
    requires |address| == 16
  {
    && cur <= k <= 8 && ZeroRun(address, k - cur, cur) && (cur < k ==> !ZeroGroup(address, k - cur - 1))
    && (len == -1 || (begin % 2 == 0 && len % 2 == 0 && len >= 4 && ZeroRun(address, begin / 2, len / 2) && begin <= 2 * k))
    && forall a: nat, n: nat :: n >= 2 && ZeroRun(address, a, n) && a + n <= k - cur ==> Beaten(begin, len, a, n)
  }

  lemma NotAcross(address: seq<byte>, a: nat, n: nat, k: nat)
    requires |address| == 16 && ZeroRun(address, a, n) && k < 8 && !ZeroGroup(address, k)
    ensures k < a || a + n <= k
  {
  }

  lemma RunExtend(address: seq<byte>, a: nat, n: nat)
    requires |address| == 16 && a + n < 8 && ZeroRun(address, a, n) && ZeroGroup(address, a + n)
    ensures ZeroRun(address, a, n + 1)
  {
    forall k | 2 * a <= k < 2 * (a + n + 1) ensures address[k] == 0 {
      if k >= 2 * (a + n) { assert k == 2 * (a + n) || k == 2 * (a + n) + 1; }
    }
  }

  // The run that ends at group k is complete.
  lemma Compare(address: seq<byte>, k: nat, cur: nat, begin: nat, len: int)
    requires |address| == 16 && Searched(address, k, cur, begin, len) && (k < 8 ==> !ZeroGroup(address, k))
    ensures var better := 2 * cur > 2 && 2 * cur > len;
            var b, l := if better then 2 * (k - cur) else begin, if better then 2 * cur else len;
            && (k < 8 ==> Searched(address, k + 1, 0, b, l))
            && (k == 8 ==> IsContraction(address, b, l))
  {
    var better := 2 * cur > 2 && 2 * cur > len;
    var b, l := if better then 2 * (k - cur) else begin, if better then 2 * cur else len;
    forall a: nat, n: nat | n >= 2 && ZeroRun(address, a, n) && a + n <= k + 1
      ensures Beaten(b, l, a, n)
    {
      CompareRun(address, k, cur, begin, len, a, n);
    }
    if k < 8 { assert ZeroRun(address, k + 1, 0); }
  }

  lemma CompareRun(address: seq<byte>, k: nat, cur: nat, begin: nat, len: int, a: nat, n: nat)
    requires |address| == 16 && Searched(address, k, cur, begin, len) && (k < 8 ==> !ZeroGroup(address, k))
    requires n >= 2 && ZeroRun(address, a, n) && a + n <= k + 1
    ensures var better := 2 * cur > 2 && 2 * cur > len;
            Beaten(if better then 2 * (k - cur) else begin, if better then 2 * cur else len, a, n)
  {
    if k < 8 { NotAcross(address, a, n, k); }
    if cur < k { NotAcross(address, a, n, k - cur - 1); }
    if a + n > k - cur {
      assert a >= k - cur && n <= cur;
    }
  }

  method ChooseIPv6ContractionRange(address: seq<byte>) returns (begin: nat, len: int)
    requires |address| == 16
    ensures IsContraction(address, begin, len)
  {
    hide ZeroRun, ZeroGroup, Searched, IsContraction;
    begin, len := 0, -1;
    var curBegin, curLen := 0, -1;
    var i := 0;
    SearchStart(address);
    while i < 16
      invariant 0 <= i <= 16 && i % 2 == 0 && (curLen == -1 || (curLen >= 2 && curLen % 2 == 0 && curBegin == i - curLen))
      invariant i < 16 ==> Searched(address, i / 2, if curLen == -1 then 0 else curLen / 2, begin, len)
      invariant i == 16 ==> IsContraction(address, begin, len)
    {
      var isZero := address[i] == 0 && address[i + 1] == 0;
      ghost var k, cur := i / 2, if curLen == -1 then 0 else curLen / 2;
      GroupAt(address, i);
      if isZero {
        SearchZero(address, k, cur, begin, len);
        if curLen == -1 {
          curBegin, curLen := i, 0;
        }
        curLen := curLen + 2;
      }
      if !isZero || i == 14 {
        if isZero { Compare(address, 8, curLen / 2, begin, len); } else { Compare(address, k, cur, begin, len); }
        if curLen > 2 && curLen > len {
          begin, len := curBegin, curLen;
        }
        curLen := -1;
        if !isZero && i == 14 { Compare(address, 8, 0, begin, len); }
      }
      i := i + 2;
    }
  }

  lemma GroupAt(address: seq<byte>, i: nat)
    requires |address| == 16 && i < 16 && i % 2 == 0
    ensures ZeroGroup(address, i / 2) <==> address[i] == 0 && address[i + 1] == 0
  {
  }

  lemma SearchStart(address: seq<byte>)
    requires |address| == 16
    ensures Searched(address, 0, 0, 0, -1)
  {
  }

  lemma SearchZero(address: seq<byte>, k: nat, cur: nat, begin: nat, len: int)
    requires |address| == 16 && Searched(address, k, cur, begin, len) && k < 8 && ZeroGroup(address, k)
    ensures Searched(address, k + 1, cur + 1, begin, len)
  {
    RunExtend(address, k - cur, cur);
  }

  lemma {:induction false} ContractionExists(address: seq<byte>)
    requires |address| == 16
    ensures exists begin: nat, len: int :: IsContraction(address, begin, len)
  {
    hide ZeroRun, ZeroGroup, Searched, IsContraction;
    var begin, len, cur, k := 0, -1, 0, 0;
    SearchStart(address);
    while k < 8
      invariant 0 <= cur <= k <= 8 && begin >= 0 && Searched(address, k, cur, begin, len)
    {
      if ZeroGroup(address, k) {
        SearchZero(address, k, cur, begin, len);
        cur := cur + 1;
      } else {
        Compare(address, k, cur, begin, len);
        if 2 * cur > 2 && 2 * cur > len { begin, len := 2 * (k - cur), 2 * cur; }
        cur := 0;
      }
      k := k + 1;
    }
    Compare(address, 8, cur, begin, len);
  }

  lemma {:induction false} ContractionUnique(address: seq<byte>, b1: nat, l1: int, b2: nat, l2: int)
    requires |address| == 16 && IsContraction(address, b1, l1) && IsContraction(address, b2, l2)
    ensures l1 == l2 && (l1 != -1 ==> b1 == b2)
  {
    if l1 != -1 { assert Beaten(b2, l2, b1 / 2, l1 / 2); }
    if l2 != -1 { assert Beaten(b1, l1, b2 / 2, l2 / 2); }
  }

  // ---------- the text ----------

  // The shortest lower-case hexadecimal form, as "%x" writes it.
  function Hex(v: nat): (s: seq<byte>)
    ensures s != [] && AllDigits(s, 16)
  {
    if v < 16 then [HexDigit(v, false)] else Hex(v / 16) + [HexDigit(v % 16, false)]
  }

  lemma {:induction false} HexValue(v: nat)
    ensures Value(Hex(v), 16) == v
  {
    if v >= 16 {
      HexValue(v / 16);
      var s := Hex(v);
      assert s[..|s| - 1] == Hex(v / 16);
    } else {
      assert Hex(v)[..0] == [];
    }
  }

  lemma HexIsGroup(v: nat)
    requires v < 0x1_0000
    ensures IsGroup(Hex(v))
  {
    assert v >= 16 ==> Hex(v) == Hex(v / 16) + [HexDigit(v % 16, false)];
    assert v >= 0x100 ==> Hex(v / 16) == Hex(v / 0x100) + [HexDigit(v / 16 % 16, false)];
    assert v >= 0x1000 ==> Hex(v / 0x100) == Hex(v / 0x1000) + [HexDigit(v / 0x100 % 16, false)];
  }

  function GroupValue(address: seq<byte>, k: nat): (v: nat)
    requires |address| == 16 && k < 8
    ensures v < 0x1_0000
  {
    var high: int, low: int := address[2 * k], address[2 * k + 1];
    256 * high + low
  }

  // The texts of groups a to b.
  function HexGroups(address: seq<byte>, a: nat, b: nat): (gs: seq<seq<byte>>)
    requires |address| == 16 && a <= b <= 8
    ensures |gs| == b - a
    decreases b
  {
    if a == b then [] else HexGroups(address, a, b - 1) + [Hex(GroupValue(address, b - 1))]
  }

  lemma HexGroupBytes(address: seq<byte>, k: nat)
    requires |address| == 16 && k < 8
    ensures var g := Hex(GroupValue(address, k)); IsGroup(g) && GroupBytes(g) == [address[2 * k], address[2 * k + 1]]
  {
    hide Hex, Value;
    HexIsGroup(GroupValue(address, k));
    HexValue(GroupValue(address, k));
  }

  lemma {:induction false} HexGroupsBytes(address: seq<byte>, a: nat, b: nat)
    requires |address| == 16 && a <= b <= 8
    ensures Groups(HexGroups(address, a, b)) && GroupsBytes(HexGroups(address, a, b)) == address[2 * a..2 * b]
    decreases b
  {
    hide Hex, GroupBytes, GroupsBytes, IsGroup;
    if a == b {
      NoGroupsBytes();
    } else {
      HexGroupsBytes(address, a, b - 1);
      var v := GroupValue(address, b - 1);
      HexGroupBytes(address, b - 1);
      GroupsBytesPush(HexGroups(address, a, b - 1), Hex(v));
      assert address[2 * a..2 * b] == address[2 * a..2 * (b - 1)] + [address[2 * b - 2], address[2 * b - 1]];
    }
  }

  // The literal that spells out everything but the contraction.
  function Spelling(address: seq<byte>, begin: nat, len: int): Literal
    requires |address| == 16 && (len == -1 || (len >= 0 && begin + len <= 16))
  {
    if len == -1 then Literal(HexGroups(address, 0, 8), -1, None)
    else Literal(HexGroups(address, 0, begin / 2) + HexGroups(address, (begin + len) / 2, 8), begin / 2, None)
  }

  ghost function Print(address: seq<byte>): seq<byte>
    requires |address| == 16
  {
    ContractionExists(address);
    var begin: nat, len: int :| IsContraction(address, begin, len);
    Show(Spelling(address, begin, len))
  }

  // The spelling with a contraction, shown.
  lemma ShowSpelling(address: seq<byte>, begin: nat, len: int)
    requires |address| == 16 && IsContraction(address, begin, len)
    ensures Show(Spelling(address, begin, len)) ==
            if len == -1 then JoinColons(HexGroups(address, 0, 8))
            else JoinColons(HexGroups(address, 0, begin / 2)) + [COLON, COLON]
                 + JoinColons(HexGroups(address, (begin + len) / 2, 8))
  {
    hide JoinColons, HexGroups;
    var all := HexGroups(address, 0, 8);
    assert all + [] == all;
    if len != -1 {
      var left, right := HexGroups(address, 0, begin / 2), HexGroups(address, (begin + len) / 2, 8);
      Parts(left, right);
      assert right + [] == right;
    }
  }

  // The printed text contracts exactly the leftmost longest run of two or more zero groups.
  lemma {:induction false} PrintShape(address: seq<byte>, begin: nat, len: int)
    requires |address| == 16 && IsContraction(address, begin, len)
    ensures Print(address) ==
            if len == -1 then JoinColons(HexGroups(address, 0, 8))
            else JoinColons(HexGroups(address, 0, begin / 2)) + [COLON, COLON]
                 + JoinColons(HexGroups(address, (begin + len) / 2, 8))
  {
    hide JoinColons, HexGroups, Show;
    ContractionExists(address);
    var b: nat, l: int :| IsContraction(address, b, l) && Print(address) == Show(Spelling(address, b, l));
    ContractionUnique(address, b, l, begin, len);
    ShowSpelling(address, b, l);
  }

  lemma SpellingBytes(address: seq<byte>, begin: nat, len: int)
    requires |address| == 16 && IsContraction(address, begin, len)
    ensures var p := Spelling(address, begin, len); WellFormed(p) && RightSize(p) && GoodIPv4(p) && LiteralBytes(p) == address
  {
    hide HexGroups, GroupsBytes, Meaning;
    var p := Spelling(address, begin, len);
    if len == -1 {
      HexGroupsBytes(address, 0, 8);
      assert address[0..16] == address;
    } else {
      var m, e := begin / 2, (begin + len) / 2;
      HexGroupsBytes(address, 0, m);
      HexGroupsBytes(address, e, 8);
      var left, right := HexGroups(address, 0, m), HexGroups(address, e, 8);
      assert p.groups[..m] == left && p.groups[m..] == right;
      assert Zeros(16 - Spelled(p)) == address[2 * m..2 * e];
      assert address == address[..2 * m] + address[2 * m..2 * e] + address[2 * e..];
    }
  }

  lemma PrintWitness(address: seq<byte>) returns (p: Literal)
    requires |address| == 16
    ensures WellFormed(p) && RightSize(p) && GoodIPv4(p) && LiteralBytes(p) == address && Print(address) == Show(p)
  {
    hide Show, LiteralBytes, HexGroups;
    ContractionExists(address);
    var b: nat, l: int :| IsContraction(address, b, l) && Print(address) == Show(Spelling(address, b, l));
    SpellingBytes(address, b, l);
    p := Spelling(address, b, l);
  }

  // Parsing the bracketed text of an address gives the address back.
  lemma {:induction false} PrintParse6(address: seq<byte>)
    requires |address| == 16
    ensures Address([OPEN_BRACKET] + Print(address) + [CLOSE_BRACKET]) == Some(address)
  {
    hide Show, Address, LiteralBytes, Print;
    var p := PrintWitness(address);
    AddressIff([OPEN_BRACKET] + Print(address) + [CLOSE_BRACKET], address);
  }

  // Two accepted literals get the same text exactly when they denote the same address.
  lemma {:induction false} SameTextIff(h1: seq<byte>, h2: seq<byte>)
    requires Address(h1).Some? && Address(h2).Some?
    ensures |Address(h1).value| == |Address(h2).value| == 16
    ensures Print(Address(h1).value) == Print(Address(h2).value) <==> Address(h1) == Address(h2)
  {
    hide Print, Parse, Show, LiteralBytes;
    assert |Address(h1).value| == 16 && |Address(h2).value| == 16;
    PrintParse6(Address(h1).value);
    PrintParse6(Address(h2).value);
  }

  // ---------- the method ----------

  // The text written when the loop is at group k.
  function Printed(address: seq<byte>, begin: nat, len: int, k: nat): seq<byte>
    requires |address| == 16 && k <= 8 && (len == -1 || (len >= 0 && begin + len <= 16))
  {
    if len == -1 || k <= begin / 2 then
      if k == 8 then JoinColons(HexGroups(address, 0, 8)) else Lead(HexGroups(address, 0, k))
    else if k < (begin + len) / 2 then []
    else
      JoinColons(HexGroups(address, 0, begin / 2)) + [COLON, COLON]
      + var right := HexGroups(address, (begin + len) / 2, k); if k == 8 then JoinColons(right) else Lead(right)
  }

  lemma PrintedGroup(address: seq<byte>, begin: nat, len: int, k: nat)
    requires |address| == 16 && k < 8 && (len == -1 || (len >= 4 && begin % 2 == 0 && len % 2 == 0 && begin + len <= 16))
    requires len == -1 || k < begin / 2 || k >= (begin + len) / 2
    ensures Printed(address, begin, len, k + 1) ==
            Printed(address, begin, len, k) + Hex(GroupValue(address, k)) + if k + 1 < 8 then [COLON] else []
  {
    hide Hex, Lead, JoinColons;
    var g := Hex(GroupValue(address, k));
    var start := if len == -1 || k < begin / 2 then 0 else (begin + len) / 2;
    var gs := HexGroups(address, start, k);
    LeadPush(gs, g);
    if !(len == -1 || k < begin / 2) {
      var front := JoinColons(HexGroups(address, 0, begin / 2)) + [COLON, COLON];
      Assoc(front, Lead(gs), g);
      Assoc(front, Lead(gs) + g, [COLON]);
    }
  }

  lemma PrintedJump(address: seq<byte>, begin: nat, len: int)
    requires |address| == 16 && len >= 4 && begin % 2 == 0 && len % 2 == 0 && begin + len <= 16
    ensures Printed(address, begin, len, (begin + len) / 2) ==
            Printed(address, begin, len, begin / 2) + if begin == 0 then [COLON, COLON] else [COLON]
  {
    hide Hex;
    var m := begin / 2;
    var left := HexGroups(address, 0, m);
    assert HexGroups(address, (begin + len) / 2, (begin + len) / 2) == [];
    if m > 0 {
      assert left == HexGroups(address, 0, m - 1) + [Hex(GroupValue(address, m - 1))];
      LeadPush(HexGroups(address, 0, m - 1), Hex(GroupValue(address, m - 1)));
      assert [COLON] + [COLON] == [COLON, COLON];
    }
  }

  method AppendIPv6Address(address: seq<byte>, output: seq<byte>) returns (out: seq<byte>)
    requires |address| == 16
    ensures out == output + Print(address)
  {
    hide Printed, Hex, ZeroRun, Print;
    var begin, len := ChooseIPv6ContractionRange(address);
    out := output;
    var i := 0;
    PrintedStart(address, begin, len);
    while i <= 14
      invariant 0 <= i <= 16 && i % 2 == 0
      invariant len == -1 || i <= begin || i >= begin + len
      invariant out == output + Printed(address, begin, len, i / 2)
      decreases 16 - i
    {
      ghost var k := i / 2;
      if i == begin && len > 0 {
        PrintedJump(address, begin, len);
        if i == 0 {
          out := out + [COLON];
        }
        out := out + [COLON];
        i := begin + len;
        assert [COLON] + [COLON] == [COLON, COLON];
      } else {
        PrintedGroup(address, begin, len, k);
        var high: int, low: int := address[i], address[i + 1];
        var x := high * 256 + low;
        i := i + 2;
        out := out + Hex(x);
        if i < 16 {
          out := out + [COLON];
        }
      }
    }
    PrintedEnd(address, begin, len);
  }

  lemma PrintedStart(address: seq<byte>, begin: nat, len: int)
    requires |address| == 16 && IsContraction(address, begin, len)
    ensures Printed(address, begin, len, 0) == []
    ensures len == -1 || (len >= 4 && begin % 2 == 0 && len % 2 == 0 && begin + len <= 16)
  {
  }

  lemma PrintedEnd(address: seq<byte>, begin: nat, len: int)
    requires |address| == 16 && IsContraction(address, begin, len)
    ensures Printed(address, begin, len, 8) == Print(address)
  {
    PrintShape(address, begin, len);
  }
}
