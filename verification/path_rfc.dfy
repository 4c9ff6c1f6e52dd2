/** The dot-segment removal of section 5.2.4 of RFC 3986, and its agreement with the stack. */
module PathRfc {
  import opened PathTokens
  import opened PathSegment
  import opened PathBuffer

  // ts starts with "/", a dot or two, and "/"; k counts the dots.
  predicate DotsAhead(ts: seq<Token>, k: nat) {
    |ts| >= k + 2 && ts[0].Slash? && (forall i :: 1 <= i <= k ==> ts[i].Dot?) && ts[k + 1].Slash?
  }

  // ts is "/" and a dot or two.
  predicate OnlyDots(ts: seq<Token>, k: nat) {
    |ts| == k + 1 && ts[0].Slash? && forall i :: 1 <= i <= k ==> ts[i].Dot?
  }

  // Step C: the last segment of the output and the slash in front of it, if any.
  function DropLastSegment(output: seq<Token>): (r: seq<Token>)
    ensures |r| <= |output|
  {
    if output == [] || output[|output| - 1].Slash? then output[..if output == [] then 0 else |output| - 1]
    else DropLastSegment(output[..|output| - 1])
  }

  // Steps A to E, in their order.
  function RemoveDotSegments(input: seq<Token>, output: seq<Token>): seq<Token>
    decreases |input|
  {
    if input == [] then output
    else if [Dot, Dot, Slash] <= input then RemoveDotSegments(input[3..], output)
    else if [Dot, Slash] <= input then RemoveDotSegments(input[2..], output)
    else if DotsAhead(input, 1) then RemoveDotSegments(input[2..], output)
    else if OnlyDots(input, 1) then RemoveDotSegments([Slash], output)
    else if DotsAhead(input, 2) then RemoveDotSegments(input[3..], DropLastSegment(output))
    else if OnlyDots(input, 2) then RemoveDotSegments([Slash], DropLastSegment(output))
    else if input == [Dot] || input == [Dot, Dot] then output
    else
      var n := if input[0].Slash? then 1 + SegmentLength(input[1..]) else SegmentLength(input);
      RemoveDotSegments(input[n..], output + input[..n])
  }

  lemma {:induction false} DropSegment(a: seq<Token>, seg: seq<Token>)
    requires OneSegment(seg)
    ensures DropLastSegment(a + [Slash] + seg) == a
  {
    var w := a + [Slash] + seg;
    if seg == [] {
      assert w == a + [Slash];
    } else {
      var k := |seg| - 1;
      assert w[..|w| - 1] == a + [Slash] + seg[..k];
      DropSegment(a, seg[..k]);
    }
  }

  // What is left of the stack is the output; the root is the empty segment at the bottom.
  ghost predicate Stack(segs: seq<seq<Token>>) {
    segs != [] && segs[0] == [] && forall i :: 0 <= i < |segs| ==> OneSegment(segs[i])
  }

  lemma JoinPush(segs: seq<seq<Token>>, seg: seq<Token>)
    requires segs != []
    ensures Join(segs + [seg]) == Join(segs) + [Slash] + seg
  {
    assert (segs + [seg])[..|segs|] == segs;
  }

  lemma PopIsDrop(segs: seq<seq<Token>>)
    requires Stack(segs)
    ensures Stack(Pop(segs)) && DropLastSegment(Join(segs)) == Join(Pop(segs))
  {
    if |segs| > 1 {
      DropSegment(Join(segs[..|segs| - 1]), segs[|segs| - 1]);
    }
  }

  lemma {:induction false} RemoveIsResolve(ts: seq<Token>, segs: seq<seq<Token>>)
    requires Stack(segs)
    ensures RemoveDotSegments([Slash] + ts, Join(segs)) == Join(Resolve(ts, segs))
    decreases |ts|
  {
    var n := SegmentLength(ts);
    var seg, rest := ts[..n], ts[n..];
    RemoveStep(ts, Join(segs));
    if IsCurrent(seg) || IsUp(seg) {
      if IsUp(seg) { PopIsDrop(segs); }
      var s := if IsUp(seg) then Pop(segs) else segs;
      if n == |ts| {
        JoinPush(s, []);
        RemoveSlash(Join(s));
      } else {
        assert rest == [Slash] + ts[n + 1..];
        RemoveIsResolve(ts[n + 1..], s);
      }
    } else {
      JoinPush(segs, seg);
      if n == |ts| {
        assert rest == [];
      } else {
        assert rest == [Slash] + ts[n + 1..];
        RemoveIsResolve(ts[n + 1..], segs + [seg]);
      }
    }
  }

  lemma RemoveSlash(output: seq<Token>)
    ensures RemoveDotSegments([Slash], output) == output + [Slash] + []
  {
    assert [Slash][1..] == [];
  }

  // One round: a slash, a segment and what is behind it.
  lemma RemoveStep(ts: seq<Token>, output: seq<Token>)
    ensures var n := SegmentLength(ts);
            var seg, rest := ts[..n], ts[n..];
            RemoveDotSegments([Slash] + ts, output) ==
            if IsCurrent(seg) then RemoveDotSegments(if rest == [] then [Slash] else rest, output)
            else if IsUp(seg) then RemoveDotSegments(if rest == [] then [Slash] else rest, DropLastSegment(output))
            else RemoveDotSegments(rest, output + [Slash] + seg)
  {
    var n := SegmentLength(ts);
    var seg, rest := ts[..n], ts[n..];
    assert ts == seg + rest;
    assert IsCurrent(seg) <==> Dots(seg, 1);
    assert IsUp(seg) <==> Dots(seg, 2);
    if IsCurrent(seg) || IsUp(seg) {
      RemoveDots(seg, rest, output, n);
    } else {
      RemoveSegment(ts, output);
    }
  }

  lemma RemoveDots(seg: seq<Token>, rest: seq<Token>, output: seq<Token>, k: nat)
    requires OneSegment(seg) && Ends(rest) && 1 <= k <= 2 && Dots(seg, k)
    ensures RemoveDotSegments([Slash] + (seg + rest), output) ==
            RemoveDotSegments(if rest == [] then [Slash] else rest, if k == 1 then output else DropLastSegment(output))
  {
    hide DropLastSegment, SegmentLength;
    var input := [Slash] + (seg + rest);
    assert input[0] == Slash && input[k + 1..] == rest;
    Shape(seg, rest, 1);
    Shape(seg, rest, 2);
  }

  lemma RemoveSegment(ts: seq<Token>, output: seq<Token>)
    requires var seg := ts[..SegmentLength(ts)]; !Dots(seg, 1) && !Dots(seg, 2)
    ensures var n := SegmentLength(ts);
            RemoveDotSegments([Slash] + ts, output) == RemoveDotSegments(ts[n..], output + [Slash] + ts[..n])
  {
    hide DropLastSegment, SegmentLength, RemoveDotSegments, DotsAhead, OnlyDots;
    var n := SegmentLength(ts);
    var input := [Slash] + ts;
    assert ts == ts[..n] + ts[n..];
    assert input[0] == Slash && input[1..] == ts && input[n + 1..] == ts[n..];
    assert input[..n + 1] == [Slash] + ts[..n];
    Shape(ts[..n], ts[n..], 1);
    Shape(ts[..n], ts[n..], 2);
    StepE(input, output);
    assert output + ([Slash] + ts[..n]) == output + [Slash] + ts[..n];
  }

  // Step E, on a rooted input that the steps before leave alone.
  lemma StepE(input: seq<Token>, output: seq<Token>)
    requires input != [] && input[0].Slash?
    requires forall k: nat :: 1 <= k <= 2 ==> !DotsAhead(input, k) && !OnlyDots(input, k)
    ensures var n := 1 + SegmentLength(input[1..]);
            RemoveDotSegments(input, output) == RemoveDotSegments(input[n..], output + input[..n])
  {
    hide DropLastSegment, SegmentLength, DotsAhead, OnlyDots;
  }

  predicate Dots(seg: seq<Token>, k: nat) {
    |seg| == k && forall i :: 0 <= i < k ==> seg[i].Dot?
  }

  lemma Shape(seg: seq<Token>, rest: seq<Token>, k: nat)
    requires OneSegment(seg) && Ends(rest) && k > 0
    ensures var input := [Slash] + (seg + rest);
            && (DotsAhead(input, k) <==> Dots(seg, k) && rest != [])
            && (OnlyDots(input, k) <==> Dots(seg, k) && rest == [])
  {
    var input := [Slash] + (seg + rest);
    assert forall i :: 0 <= i < |seg| ==> input[i + 1] == seg[i];
    assert forall i :: 0 <= i < |rest| ==> input[i + 1 + |seg|] == rest[i];
    assert rest != [] ==> input[|seg| + 1] == rest[0];
    assert |seg| > k ==> input[k + 1] == seg[k];
    if DotsAhead(input, k) || OnlyDots(input, k) {
      assert |seg| == k;
      forall i | 0 <= i < k ensures seg[i].Dot? { assert seg[i] == input[i + 1]; }
    }
  }

  // Removing the dot segments of a rooted path with the stack is what the RFC describes.
  lemma {:induction false} NormalizeIsRfc(ts: seq<Token>)
    requires ts != [] && ts[0].Slash?
    ensures Normalize(ts) == RemoveDotSegments(ts, [])
  {
    assert ts == [Slash] + ts[1..];
    assert Resolve(ts, []) == Resolve(ts[1..], [[]]) by {
      assert SegmentLength(ts) == 0;
      assert [] + [ts[..0]] == [[]];
    }
    RemoveIsResolve(ts[1..], [[]]);
    assert Join([[]]) == [];
  }
}
