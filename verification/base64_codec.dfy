/**
 The codec's loops over single characters.  Each is followed through a continuation: what
 the characters still to come make of the state reached so far.
 */
module Base64Codec {
  import opened Bytes
  import opened Options
  import opened Base64

  // ---------- encoding ----------

  // The bits carried over are those that the next character's 6 bits start with.
  predicate Carries(phase: nat, next: bv8) {
    match phase
    case 0 => next == 0
    case 1 => next & 0xCF == 0
    case 2 => next & 0xC3 == 0
    case _ => false
  }

  function Carry(phase: nat, c: bv8): (r: bv8)
    requires phase < 3
    ensures Carries((phase + 1) % 3, r)
  {
    if phase == 0 then (c & 0x03) << 4 else if phase == 1 then (c & 0x0f) << 2 else 0
  }

  function Front(phase: nat, next: bv8, c: bv8): (r: bv8)
    requires Carries(phase, next)
    ensures r < 64
  {
    if phase == 0 then c >> 2 else if phase == 1 then next | (c >> 4) else next | (c >> 6)
  }

  function Low(c: bv8): (r: bv8)
    ensures r < 64
  {
    c & 0x3f
  }

  function Emitted(a: Alphabet, phase: nat, next: bv8, c: bv8): seq<bv8>
    requires Carries(phase, next)
  {
    [Char(a, Front(phase, next, c))] + if phase == 2 then [Char(a, Low(c))] else []
  }

  lemma CarriesSmall(phase: nat, next: bv8)
    requires Carries(phase, next)
    ensures phase < 3 && next < 64
  {
  }

  function EncodeRest(a: Alphabet, rest: seq<bv8>, phase: nat, next: bv8, pad: bool): seq<bv8>
    requires Carries(phase, next)
  {
    CarriesSmall(phase, next);
    if rest == [] then
      (if phase == 0 then [] else [Char(a, next)] + Pads(pad, 3 - phase))
    else
      Emitted(a, phase, next, rest[0]) + EncodeRest(a, rest[1..], (phase + 1) % 3, Carry(phase, rest[0]), pad)
  }

  lemma SextetsByStep(x: bv8, y: bv8, z: bv8)
    ensures Sextets(x, y, z)
         == (Front(0, 0, x), Front(1, Carry(0, x), y), Front(2, Carry(1, y), z), Low(z))
    ensures Sextets(x, 0, 0).1 == Carry(0, x) && Sextets(x, y, 0).2 == Carry(1, y)
  {
  }

  lemma Unfold(a: Alphabet, c: bv8, rest: seq<bv8>, phase: nat, next: bv8, pad: bool)
    requires Carries(phase, next)
    ensures phase < 3
    ensures EncodeRest(a, [c] + rest, phase, next, pad)
         == Emitted(a, phase, next, c) + EncodeRest(a, rest, (phase + 1) % 3, Carry(phase, c), pad)
  {
    hide Char, Emitted, Carry;
    CarriesSmall(phase, next);
    assert ([c] + rest)[1..] == rest;
  }

  lemma FoldLast(a: Alphabet, phase: nat, next: bv8, pad: bool)
    requires Carries(phase, next) && next < 64 && phase != 0
    ensures phase < 3 && EncodeRest(a, [], phase, next, pad) == [Char(a, next)] + Pads(pad, 3 - phase)
  {
    CarriesSmall(phase, next);
  }

  lemma EncodeRestOne(a: Alphabet, x: bv8, pad: bool)
    ensures EncodeRest(a, [x], 0, 0, pad) == EncodedGroup(a, [x]) + Pads(pad, 2)
  {
    hide Char, Pads, Sextets, Front, Carry, Low, EncodeRest, Carries;
    CarryZero();
    SextetsByStep(x, 0, 0);
    assert [x] == [x] + [];
    Unfold(a, x, [], 0, 0, pad);
    FoldLast(a, 1, Carry(0, x), pad);
    Assoc(Emitted(a, 0, 0, x), [Char(a, Carry(0, x))], Pads(pad, 2));
  }

  lemma EncodeRestTwo(a: Alphabet, x: bv8, y: bv8, pad: bool)
    ensures EncodeRest(a, [x, y], 0, 0, pad) == EncodedGroup(a, [x, y]) + Pads(pad, 1)
  {
    hide Char, Pads, Sextets, Front, Carry, Low, EncodeRest, Carries;
    CarryZero();
    SextetsByStep(x, y, 0);
    assert [x, y] == [x] + [y] && [y] == [y] + [];
    Unfold(a, x, [y], 0, 0, pad);
    Unfold(a, y, [], 1, Carry(0, x), pad);
    FoldLast(a, 2, Carry(1, y), pad);
    var first, second, third := Emitted(a, 0, 0, x), Emitted(a, 1, Carry(0, x), y), [Char(a, Carry(1, y))];
    Assoc(second, third, Pads(pad, 1));
    Assoc(first, second + third, Pads(pad, 1));
    assert first + (second + third) == EncodedGroup(a, [x, y]);
  }

  lemma GroupByStep(a: Alphabet, x: bv8, y: bv8, z: bv8)
    ensures Carries(0, 0) && Emitted(a, 0, 0, x) + (Emitted(a, 1, Carry(0, x), y) + Emitted(a, 2, Carry(1, y), z))
         == EncodedGroup(a, [x, y, z])
  {
    hide Char, Sextets, Front, Carry, Low, Carries;
    CarryZero();
    SextetsByStep(x, y, z);
  }

  lemma EncodeRestThree(a: Alphabet, s: seq<bv8>, pad: bool)
    requires |s| >= 3
    ensures EncodeRest(a, s, 0, 0, pad) == EncodedGroup(a, s[..3]) + EncodeRest(a, s[3..], 0, 0, pad)
  {
    hide Emitted, EncodedGroup, Carry, EncodeRest, Carries;
    CarryZero();
    var x, y, z, tail := s[0], s[1], s[2], s[3..];
    assert s[..3] == [x, y, z];
    assert s == [x] + ([y] + ([z] + tail));
    Unfold(a, x, [y] + ([z] + tail), 0, 0, pad);
    Unfold(a, y, [z] + tail, 1, Carry(0, x), pad);
    Unfold(a, z, tail, 2, Carry(1, y), pad);
    CarryWraps(z);
    GroupByStep(a, x, y, z);
    var first, second, third := Emitted(a, 0, 0, x), Emitted(a, 1, Carry(0, x), y), Emitted(a, 2, Carry(1, y), z);
    var end := EncodeRest(a, tail, 0, 0, pad);
    Assoc(second, third, end);
    Assoc(first, second + third, end);
  }

  lemma CarryZero()
    ensures Carries(0, 0)
  {
  }

  lemma CarryWraps(c: bv8)
    ensures Carry(2, c) == 0
  {
  }

  lemma {:induction false} EncodeRestIsEncoded(a: Alphabet, s: seq<bv8>, pad: bool)
    ensures EncodeRest(a, s, 0, 0, pad) == Encoded(a, s, pad)
    decreases |s|
  {
    hide EncodedGroup, Char;
    if |s| == 1 {
      assert s == [s[0]];
      EncodeRestOne(a, s[0], pad);
    } else if |s| == 2 {
      assert s == [s[0], s[1]];
      EncodeRestTwo(a, s[0], s[1], pad);
    } else if |s| >= 3 {
      EncodeRestThree(a, s, pad);
      EncodeRestIsEncoded(a, s[3..], pad);
      if |s| == 3 { assert s[..3] == s && s[3..] == []; }
    }
  }

  method EncodeBase(a: Alphabet, c: bv8, pos: nat, nextIn: bv8, ret: seq<bv8>) returns (next: bv8, r: seq<bv8>)
    requires Carries(pos % 3, nextIn)
    ensures next == Carry(pos % 3, c) && r == ret + Emitted(a, pos % 3, nextIn, c)
  {
    if pos % 3 == 0 {
      r := ret + [Char(a, c >> 2)];
      next := (c & 0x03) << 4;
    } else if pos % 3 == 1 {
      r := ret + [Char(a, nextIn | (c >> 4))];
      next := (c & 0x0f) << 2;
    } else {
      r := ret + [Char(a, nextIn | (c >> 6))];
      r := r + [Char(a, c & 0x3f)];
      next := 0;
    }
  }

  lemma PadsAre()
    ensures Pads(true, 1) == [PAD] && Pads(true, 2) == [PAD] + [PAD]
    ensures forall k: nat :: Pads(false, k) == []
  {
  }

  lemma FoldNothing(a: Alphabet, next: bv8, pad: bool)
    requires Carries(0, next)
    ensures EncodeRest(a, [], 0, next, pad) == []
  {
  }

  method EncodeLast(a: Alphabet, pos: nat, next: bv8, ret: seq<bv8>, pad: bool) returns (r: seq<bv8>)
    requires Carries(pos % 3, next)
    ensures r == ret + EncodeRest(a, [], pos % 3, next, pad)
  {
    hide EncodeRest, Carries, Char, Pads;
    CarriesSmall(pos % 3, next);
    PadsAre();
    r := ret;
    if pos % 3 == 0 { FoldNothing(a, next, pad); } else { FoldLast(a, pos % 3, next, pad); }
    if pos % 3 == 1 {
      r := r + [Char(a, next)];
      if pad {
        r := r + [PAD];
        r := r + [PAD];
      }
    } else if pos % 3 == 2 {
      r := r + [Char(a, next)];
      if pad { r := r + [PAD]; }
    }
  }

  // Base64::encode, and Base64Url::encode with its alphabet and without padding.
  method Encode(a: Alphabet, input: seq<bv8>, pad: bool) returns (ret: seq<bv8>)
    ensures ret == Encoded(a, input, pad)
  {
    hide Encoded, Emitted, Carry, EncodeRest, Carries;
    CarryZero();
    ret := [];
    var pos := 0;
    var next: bv8 := 0;
    EncodeRestIsEncoded(a, input, pad);
    assert input[0..] == input;
    while pos < |input|
      invariant 0 <= pos <= |input| && Carries(pos % 3, next)
      invariant ret + EncodeRest(a, input[pos..], pos % 3, next, pad) == Encoded(a, input, pad)
    {
      assert input[pos..] == [input[pos]] + input[pos + 1..];
      Unfold(a, input[pos], input[pos + 1..], pos % 3, next, pad);
      Assoc(ret, Emitted(a, pos % 3, next, input[pos]),
            EncodeRest(a, input[pos + 1..], (pos + 1) % 3, Carry(pos % 3, input[pos]), pad));
      next, ret := EncodeBase(a, input[pos], pos, next, ret);
      pos := pos + 1;
    }
    assert input[pos..] == [];
    ret := EncodeLast(a, pos, next, ret, pad);
  }

  // ---------- decoding ----------

  // A byte begun with back takes its remaining bits from the 6 bits c.
  function Fill(phase: nat, back: bv8, c: bv8): bv8 {
    if phase == 1 then back | (c >> 4) else if phase == 2 then back | (c >> 2) else back | c
  }

  // The byte that the bits left over begin.
  function Begin(phase: nat, c: bv8): bv8 {
    if phase == 0 then c << 2 else if phase == 1 then c << 4 else if phase == 2 then c << 6 else 0
  }

  // Whether the text may end here.
  predicate Ends(phase: nat, c: bv8) {
    if phase == 0 then false else if phase == 1 then c & 0x0f == 0 else if phase == 2 then c & 0x03 == 0 else true
  }

  // The bytes that the characters still to come make, the one begun first.
  function DecodeRest(a: Alphabet, rest: seq<bv8>, phase: nat, back: bv8): Option<seq<bv8>>
    requires rest != [] && phase < 4
  {
    var c := Reverse(a, rest[0]);
    if c == INVALID then None
    else if |rest| == 1 then
      (if Ends(phase, c) then Some([Fill(phase, back, c)]) else None)
    else if phase == 0 then DecodeRest(a, rest[1..], 1, Begin(0, c))
    else Prepend([Fill(phase, back, c)], DecodeRest(a, rest[1..], (phase + 1) % 4, Begin(phase, c)))
  }

  // The bytes so far, the last of them begun only, after one more character.
  function Grown(ret: seq<bv8>, phase: nat, c: bv8): seq<bv8>
    requires phase != 0 ==> ret != []
  {
    (if phase == 0 then ret else ret[..|ret| - 1] + [Fill(phase, ret[|ret| - 1], c)])
    + if phase == 3 then [] else [Begin(phase, c)]
  }

  // The whole result, with the byte begun at the end of ret.
  ghost function Resume(a: Alphabet, ret: seq<bv8>, rest: seq<bv8>, phase: nat): Option<seq<bv8>>
    requires rest != [] && phase < 4 && (phase != 0 ==> ret != [])
  {
    if phase == 0 then Prepend(ret, DecodeRest(a, rest, 0, 0))
    else Prepend(ret[..|ret| - 1], DecodeRest(a, rest, phase, ret[|ret| - 1]))
  }

  lemma BeginWraps(c: bv8)
    ensures Begin(3, c) == 0
  {
  }

  lemma PrependTwice(p: seq<bv8>, q: seq<bv8>, r: Option<seq<bv8>>)
    ensures Prepend(p, Prepend(q, r)) == Prepend(p + q, r)
  {
    if r.Some? { Assoc(p, q, r.value); }
  }

  lemma ResumeGrown(a: Alphabet, ret: seq<bv8>, rest: seq<bv8>, phase: nat)
    requires |rest| > 1 && phase < 4 && (phase != 0 ==> ret != [])
    ensures var c := Reverse(a, rest[0]);
      && (c == INVALID ==> Resume(a, ret, rest, phase) == None)
      && ((phase + 1) % 4 != 0 ==> Grown(ret, phase, c) != [])
      && (c != INVALID ==> Resume(a, Grown(ret, phase, c), rest[1..], (phase + 1) % 4) == Resume(a, ret, rest, phase))
  {
    hide Reverse, Fill, Begin, Prepend;
    var c := Reverse(a, rest[0]);
    var r := Grown(ret, phase, c);
    BeginWraps(c);
    PrependNone(ret);
    if phase == 0 {
      assert r[..|r| - 1] == ret;
    } else {
      var done, filled := ret[..|ret| - 1], Fill(phase, ret[|ret| - 1], c);
      PrependNone(done);
      PrependTwice(done, [filled], DecodeRest(a, rest[1..], (phase + 1) % 4, Begin(phase, c)));
      if phase < 3 { assert r[..|r| - 1] == done + [filled]; }
      else { assert r == done + [filled]; }
    }
  }

  lemma PrependNone(p: seq<bv8>)
    ensures Prepend(p, None) == None
  {
  }

  function OrBack(ret: seq<bv8>, bits: bv8): (r: seq<bv8>)
    requires ret != []
    ensures r == ret[..|ret| - 1] + [ret[|ret| - 1] | bits]
  {
    ret[|ret| - 1 := ret[|ret| - 1] | bits]
  }

  lemma Shifts(ret: seq<bv8>, c: bv8)
    ensures Begin(0, c) == c << 2 && Begin(1, c) == c << 4 && Begin(2, c) == c << 6
    ensures Ends(1, c) == (c & 0x0f == 0) && Ends(2, c) == (c & 0x03 == 0) && Ends(3, c)
    ensures ret != [] ==> var back := ret[|ret| - 1];
      Fill(1, back, c) == back | (c >> 4) && Fill(2, back, c) == back | (c >> 2) && Fill(3, back, c) == back | c
  {
  }

  method DecodeBase(a: Alphabet, cur: bv8, pos: nat, ret: seq<bv8>) returns (ok: bool, r: seq<bv8>)
    requires pos % 4 != 0 ==> ret != []
    ensures ok == (Reverse(a, cur) != INVALID)
    ensures ok ==> r == Grown(ret, pos % 4, Reverse(a, cur))
  {
    hide Reverse, OrBack, Fill, Begin;
    r := ret;
    var c := Reverse(a, cur);
    Shifts(ret, c);
    if c == INVALID { return false, r; }
    ok := true;
    if pos % 4 == 0 {
      r := r + [c << 2];
    } else if pos % 4 == 1 {
      r := OrBack(r, c >> 4);
      r := r + [c << 4];
    } else if pos % 4 == 2 {
      r := OrBack(r, c >> 2);
      r := r + [c << 6];
    } else {
      r := OrBack(r, c);
    }
  }

  lemma ResumeLast(a: Alphabet, ret: seq<bv8>, cur: bv8, phase: nat)
    requires phase < 4 && (phase != 0 ==> ret != [])
    ensures phase == 0 ==> Resume(a, ret, [cur], 0) == None
    ensures phase != 0 ==> var c := Reverse(a, cur);
      Resume(a, ret, [cur], phase)
      == if c != INVALID && Ends(phase, c) then Some(ret[..|ret| - 1] + [Fill(phase, ret[|ret| - 1], c)]) else None
  {
    hide Reverse, Fill;
  }

  method DecodeLast(a: Alphabet, cur: bv8, pos: nat, ret: seq<bv8>) returns (ok: bool, r: seq<bv8>)
    requires pos % 4 != 0 ==> ret != []
    ensures Resume(a, ret, [cur], pos % 4) == if ok then Some(r) else None
  {
    hide Reverse, OrBack, Fill, Begin, Ends, Resume;
    r := ret;
    ResumeLast(a, ret, cur, pos % 4);
    var c := Reverse(a, cur);
    Shifts(ret, c);
    if c == INVALID { return false, r; }
    ok := true;
    if pos % 4 == 0 {
      ok := false;
    } else if pos % 4 == 1 {
      r := OrBack(r, c >> 4);
      ok := c & 0x0f == 0;
    } else if pos % 4 == 2 {
      r := OrBack(r, c >> 2);
      ok := c & 0x03 == 0;
    } else {
      r := OrBack(r, c);
    }
  }

  lemma OctetsByStep(u: bv8, v: bv8, w: bv8, x: bv8)
    ensures Octets(u, v, w, x) == (Fill(1, Begin(0, u), v), Fill(2, Begin(1, v), w), Fill(3, Begin(2, w), x))
    ensures Ends(1, v) <==> Octets(u, v, 0, 0).1 == 0
    ensures Ends(2, w) <==> Octets(u, v, w, 0).2 == 0
    ensures Ends(3, x) && !Ends(0, x)
  {
  }

  lemma Next(a: Alphabet, c: bv8, rest: seq<bv8>, phase: nat, back: bv8)
    requires rest != [] && phase < 4
    ensures DecodeRest(a, [c] + rest, phase, back)
         == var v := Reverse(a, c);
            if v == INVALID then None
            else if phase == 0 then DecodeRest(a, rest, 1, Begin(0, v))
            else Prepend([Fill(phase, back, v)], DecodeRest(a, rest, (phase + 1) % 4, Begin(phase, v)))
  {
    hide Reverse, Fill, Begin;
    assert ([c] + rest)[1..] == rest;
  }

  // A group decodes if its characters are in the alphabet and its unused bits are zero.
  lemma GroupCases(a: Alphabet, t: seq<bv8>)
    requires 2 <= |t| <= 4
    ensures var u, v := Reverse(a, t[0]), Reverse(a, t[1]);
      var w, x := if |t| > 2 then Reverse(a, t[2]) else 0, if |t| > 3 then Reverse(a, t[3]) else 0;
      var o := Octets(u, v, w, x);
      var valid := INVALID !in [u, v, w, x];
      && (|t| == 2 ==> DecodedGroup(a, t) == if valid && o.1 == 0 then Some([o.0]) else None)
      && (|t| == 3 ==> DecodedGroup(a, t) == if valid && o.2 == 0 then Some([o.0] + [o.1]) else None)
      && (|t| == 4 ==> DecodedGroup(a, t) == if valid then Some([o.0] + [o.1] + [o.2]) else None)
  {
    hide Reverse, Octets;
    var u, v := Reverse(a, t[0]), Reverse(a, t[1]);
    var w, x := if |t| > 2 then Reverse(a, t[2]) else 0, if |t| > 3 then Reverse(a, t[3]) else 0;
    assert INVALID in [u, v, w, x] <==> u == INVALID || v == INVALID || w == INVALID || x == INVALID;
    var o := Octets(u, v, w, x);
    assert [o.0, o.1, o.2][..1] == [o.0];
    assert [o.0, o.1, o.2][..2] == [o.0] + [o.1];
    assert [o.0, o.1, o.2][..3] == [o.0] + [o.1] + [o.2];
  }

  lemma DecodeRestTwo(a: Alphabet, t: seq<bv8>)
    requires |t| == 2
    ensures DecodeRest(a, t, 0, 0) == DecodedGroup(a, t)
  {
    hide Reverse, Fill, Begin, Ends, Octets, DecodedGroup;
    GroupCases(a, t);
    var u, v := Reverse(a, t[0]), Reverse(a, t[1]);
    OctetsByStep(u, v, 0, 0);
    assert t == [t[0]] + [t[1]];
    Next(a, t[0], [t[1]], 0, 0);
  }

  lemma DecodeRestThree(a: Alphabet, t: seq<bv8>)
    requires |t| == 3
    ensures DecodeRest(a, t, 0, 0) == DecodedGroup(a, t)
  {
    hide Reverse, Fill, Begin, Ends, Octets, DecodedGroup;
    GroupCases(a, t);
    var u, v, w := Reverse(a, t[0]), Reverse(a, t[1]), Reverse(a, t[2]);
    OctetsByStep(u, v, w, 0);
    assert t == [t[0]] + ([t[1]] + [t[2]]);
    Next(a, t[0], [t[1]] + [t[2]], 0, 0);
    Next(a, t[1], [t[2]], 1, Begin(0, u));
  }

  // Four characters with tail behind them, or with nothing.
  lemma DecodeRestFour(a: Alphabet, t: seq<bv8>, tail: seq<bv8>)
    requires |t| == 4
    ensures DecodeRest(a, t + tail, 0, 0)
         == var group := DecodedGroup(a, t);
            if tail == [] || group.None? then group else Prepend(group.value, DecodeRest(a, tail, 0, 0))
  {
    hide Reverse, Fill, Begin, Ends, Octets, Prepend, DecodeRest, DecodedGroup;
    GroupCases(a, t);
    var u, v, w, x := Reverse(a, t[0]), Reverse(a, t[1]), Reverse(a, t[2]), Reverse(a, t[3]);
    OctetsByStep(u, v, w, x);
    var rest3 := [t[3]] + tail;
    assert t + tail == [t[0]] + ([t[1]] + ([t[2]] + rest3));
    FirstThree(a, t[0], t[1], t[2], rest3);
    var o := Octets(u, v, w, x);
    PrependNone([o.0] + [o.1]);
    if tail == [] {
      assert rest3 == [t[3]];
      LastOfFour(a, t[3], Begin(2, w));
      PrependSome([o.0] + [o.1], [o.2]);
    } else {
      BeginWraps(x);
      Next(a, t[3], tail, 3, Begin(2, w));
      PrependTwice([o.0] + [o.1], [o.2], DecodeRest(a, tail, 0, 0));
    }
  }

  lemma FirstThree(a: Alphabet, c0: bv8, c1: bv8, c2: bv8, rest: seq<bv8>)
    requires rest != []
    ensures var u, v, w := Reverse(a, c0), Reverse(a, c1), Reverse(a, c2);
      DecodeRest(a, [c0] + ([c1] + ([c2] + rest)), 0, 0)
      == if u == INVALID || v == INVALID || w == INVALID then None
         else Prepend([Fill(1, Begin(0, u), v)] + [Fill(2, Begin(1, v), w)], DecodeRest(a, rest, 3, Begin(2, w)))
  {
    hide Reverse, Fill, Begin, Prepend, DecodeRest;
    var u := Reverse(a, c0);
    Next(a, c0, [c1] + ([c2] + rest), 0, 0);
    if u != INVALID { SecondTwo(a, c1, c2, rest, Begin(0, u)); }
  }

  lemma SecondTwo(a: Alphabet, c1: bv8, c2: bv8, rest: seq<bv8>, back: bv8)
    requires rest != []
    ensures var v, w := Reverse(a, c1), Reverse(a, c2);
      DecodeRest(a, [c1] + ([c2] + rest), 1, back)
      == if v == INVALID || w == INVALID then None
         else Prepend([Fill(1, back, v)] + [Fill(2, Begin(1, v), w)], DecodeRest(a, rest, 3, Begin(2, w)))
  {
    hide Reverse, Fill, Begin, Prepend, DecodeRest;
    var v, w := Reverse(a, c1), Reverse(a, c2);
    var first, second, last := [Fill(1, back, v)], [Fill(2, Begin(1, v), w)], DecodeRest(a, rest, 3, Begin(2, w));
    Next(a, c1, [c2] + rest, 1, back);
    Next(a, c2, rest, 2, Begin(1, v));
    PrependNone(first);
    PrependTwice(first, second, last);
  }

  lemma LastOfFour(a: Alphabet, c: bv8, back: bv8)
    ensures DecodeRest(a, [c], 3, back)
         == if Reverse(a, c) == INVALID then None else Some([Fill(3, back, Reverse(a, c))])
  {
    hide Reverse, Fill;
  }

  lemma PrependSome(p: seq<bv8>, q: seq<bv8>)
    ensures Prepend(p, Some(q)) == Some(p + q)
  {
  }

  lemma {:induction false} DecodeRestIsDecoded(a: Alphabet, t: seq<bv8>)
    requires t != []
    ensures DecodeRest(a, t, 0, 0) == Decoded(a, t)
    decreases |t|
  {
    hide DecodedGroup, DecodeRest;
    if |t| == 1 {
      DecodeRestOne(a, t);
    } else if |t| == 2 {
      DecodeRestTwo(a, t);
    } else if |t| == 3 {
      DecodeRestThree(a, t);
    } else {
      assert t == t[..4] + t[4..];
      DecodeRestFour(a, t[..4], t[4..]);
      if |t| == 4 { assert t[..4] == t; } else { DecodeRestIsDecoded(a, t[4..]); }
    }
  }

  lemma DecodeRestOne(a: Alphabet, t: seq<bv8>)
    requires |t| == 1
    ensures DecodeRest(a, t, 0, 0) == DecodedGroup(a, t) == None
  {
    hide Reverse;
  }

  // ---------- the entry points ----------

  // The empty string stands for failure.
  ghost predicate Result(a: Alphabet, t: seq<bv8>, ret: seq<bv8>) {
    ret == match Decoded(a, t) case Some(d) => d case None => []
  }

  method CutPadding(input: seq<bv8>) returns (n: nat)
    requires input != []
    ensures n <= |input| && Unpadded(input) == input[..n]
    ensures n == 0 ==> input[0] == PAD
  {
    n := |input|;
    if input[n - 1] == PAD {
      n := n - 1;
      if n > 0 && input[n - 1] == PAD { n := n - 1; }
    }
    assert input[..|input|] == input;
  }

  // At most two padding characters are cut off.  When they are all there is, n is 0 and last
  // wraps around; the first character then ends the loop.
  method DecodeStandard(input: seq<bv8>) returns (ret: seq<bv8>)
    ensures Result(Standard, Unpadded(input), ret)
  {
    hide Decoded, Resume, DecodeRest, Grown, Unpadded, Reverse;
    EmptyDecodes(Standard);
    if input == [] { return []; }
    var n := CutPadding(input);
    var last := if n == 0 then UINT64_MAX else n - 1;
    ret := [];
    ghost var t := input[..n];
    PadInvalid(Standard);
    if n > 0 {
      DecodeRestIsDecoded(Standard, t);
      ResumeStart(Standard, t);
      assert t[0..] == t;
    }
    var i := 0;
    while i < last
      invariant 0 <= i && (i % 4 != 0 ==> ret != [])
      invariant n == 0 ==> i == 0 && last == UINT64_MAX
      invariant n > 0 ==> i <= last == n - 1 && Resume(Standard, ret, t[i..], i % 4) == Decoded(Standard, t)
    {
      if n > 0 {
        ResumeGrown(Standard, ret, t[i..], i % 4);
        assert t[i..][1..] == t[i + 1..] && t[i..][0] == input[i];
      }
      var ok;
      ok, ret := DecodeBase(Standard, input[i], i, ret);
      if !ok { return []; }
      i := i + 1;
    }
    assert t[i..] == [input[last]];
    var ok;
    ok, ret := DecodeLast(Standard, input[last], last, ret);
    if !ok { return []; }
  }

  lemma EmptyDecodes(a: Alphabet)
    ensures Unpadded([]) == [] && Decoded(a, []) == Some([])
  {
  }

  lemma PadInvalid(a: Alphabet)
    ensures Reverse(a, PAD) == INVALID
  {
  }

  lemma ResumeStart(a: Alphabet, t: seq<bv8>)
    requires t != []
    ensures Resume(a, [], t, 0) == DecodeRest(a, t, 0, 0)
  {
    hide DecodeRest;
    var r := DecodeRest(a, t, 0, 0);
    if r.Some? { assert [] + r.value == r.value; }
  }

  method DecodeWithoutPadding(input: seq<bv8>) returns (ret: seq<bv8>)
    ensures ret != [] ==> PaddedFreely(Encoded(Standard, ret, false), input)
    ensures forall d :: PaddedFreely(Encoded(Standard, d, false), input) ==> ret == d
  {
    hide Encoded, Decoded, Unpadded, PaddedFreely;
    forall d ensures PaddedFreely(Encoded(Standard, d, false), input) <==> Decoded(Standard, Unpadded(input)) == Some(d) {
      FreelyPaddedExactly(Standard, input, d);
    }
    ret := DecodeStandard(input);
  }

  method DecodePadded(input: seq<bv8>) returns (ret: seq<bv8>)
    ensures ret != [] ==> input == Encoded(Standard, ret, true)
    ensures forall d :: input == Encoded(Standard, d, true) ==> ret == d
  {
    hide Encoded, Decoded, Unpadded;
    forall d ensures input == Encoded(Standard, d, true)
                <==> |input| % 4 == 0 && Decoded(Standard, Unpadded(input)) == Some(d) {
      PaddedExactly(Standard, input, d);
    }
    if |input| % 4 != 0 { return []; }
    ret := DecodeStandard(input);
  }

  method DecodeUrl(input: seq<bv8>) returns (ret: seq<bv8>)
    ensures ret != [] ==> input == Encoded(Url, ret, false)
    ensures forall d :: input == Encoded(Url, d, false) ==> ret == d
  {
    hide Encoded, Decoded, Resume, DecodeRest, Grown;
    forall d ensures input == Encoded(Url, d, false) <==> Decoded(Url, input) == Some(d) {
      UnpaddedExactly(Url, input, d);
    }
    EmptyDecodes(Url);
    if input == [] { return []; }
    ret := [];
    DecodeRestIsDecoded(Url, input);
    ResumeStart(Url, input);
    var last := |input| - 1;
    var i := 0;
    assert input[0..] == input;
    while i < last
      invariant 0 <= i <= last && (i % 4 != 0 ==> ret != [])
      invariant Resume(Url, ret, input[i..], i % 4) == Decoded(Url, input)
    {
      ResumeGrown(Url, ret, input[i..], i % 4);
      assert input[i..][1..] == input[i + 1..];
      var ok;
      ok, ret := DecodeBase(Url, input[i], i, ret);
      if !ok { return []; }
      i := i + 1;
    }
    assert input[i..] == [input[last]];
    var ok;
    ok, ret := DecodeLast(Url, input[last], last, ret);
    if !ok { return []; }
  }
}
