/** POSIX file paths: DirName, BaseName, GetComponents and ReferencesParent. */
module FilePaths {
  import opened Bytes

  predicate IsSeparator(c: char) {
    c == '/'
  }

  predicate AreAllSeparators(s: string) {
    forall i :: 0 <= i < |s| ==> IsSeparator(s[i])
  }

  // ---------- what the string operations compute ----------

  // s without the separators at its end.
  function TrimEnd(s: string): (r: string)
    ensures r <= s && AreAllSeparators(s[|r|..]) && (r != "" ==> !IsSeparator(r[|r| - 1]))
  {
    if s == "" || !IsSeparator(s[|s| - 1]) then s
    else
      var r := TrimEnd(s[..|s| - 1]);
      assert s[|r|..] == s[..|s| - 1][|r|..] + [s[|s| - 1]];
      r
  }

  // The index behind the last separator, 0 if there is none.
  function LastStart(s: string): (k: nat)
    ensures k <= |s| && (k > 0 ==> IsSeparator(s[k - 1])) && forall i :: k <= i < |s| ==> !IsSeparator(s[i])
  {
    if s == "" then 0 else if IsSeparator(s[|s| - 1]) then |s| else LastStart(s[..|s| - 1])
  }

  // Trailing separators go; of a path that is nothing else, "//" stays as it is and any
  // other keeps one.
  function Strip(p: string): string {
    if TrimEnd(p) != "" || p == "" then TrimEnd(p) else if |p| == 2 then p else p[..1]
  }

  function Dir(p: string): string {
    var q := Strip(p);
    var last := LastStart(q) - 1;
    var r := Strip(if last == -1 then "" else if last == 0 then q[..1]
                   else if last == 1 && IsSeparator(q[0]) then q[..2] else q[..last]);
    if r == "" then "." else r
  }

  function Base(p: string): string {
    var q := Strip(p);
    var last := LastStart(q) - 1;
    if last != -1 && last < |q| - 1 then q[last + 1..] else q
  }

  // ---------- what the components should be ----------

  function RunLength(s: string): (n: nat)
    ensures n <= |s| && (forall i :: 0 <= i < n ==> !IsSeparator(s[i])) && (n < |s| ==> IsSeparator(s[n]))
  {
    if s == "" || IsSeparator(s[0]) then 0 else 1 + RunLength(s[1..])
  }

  // The maximal separator-free runs, in order.
  function Runs(p: string): seq<string>
    decreases |p|
  {
    if p == "" then []
    else
      var n := RunLength(p);
      if n == 0 then Runs(p[1..]) else [p[..n]] + Runs(p[n..])
  }

  function LeadingSeparators(p: string): (k: nat)
    ensures k <= |p| && AreAllSeparators(p[..k]) && (k < |p| ==> !IsSeparator(p[k]))
  {
    if p == "" || !IsSeparator(p[0]) then 0
    else
      var k := 1 + LeadingSeparators(p[1..]);
      assert p[..k] == [p[0]] + p[1..][..k - 1];
      k
  }

  // Two leading separators are an alternate root.  Three are taken for two as well when
  // something follows them, but for one when nothing does; four and more are one root.
  function Root(p: string): seq<string> {
    var k := LeadingSeparators(p);
    if k == 0 then [] else if k == 2 || (k == 3 && |p| > 3) then ["//"] else ["/"]
  }

  // A leading "." is dropped, unless it is all there is and separators follow it.
  predicate DropsDot(p: string) {
    var runs := Runs(p);
    LeadingSeparators(p) == 0 && runs != [] && runs[0] == "." && (|runs| > 1 || |p| == 1)
  }

  function Components(p: string): seq<string> {
    Root(p) + if DropsDot(p) then Runs(p)[1..] else Runs(p)
  }

  // ---------- the walk ----------

  function Weight(p: string): nat {
    |p| + if p == "." then 0 else 1
  }

  lemma {:induction false} TrimSeparators(s: string)
    ensures TrimEnd(s) == "" <==> AreAllSeparators(s)
  {
    if s != "" && IsSeparator(s[|s| - 1]) { TrimSeparators(s[..|s| - 1]); }
    assert TrimEnd(s) == "" ==> s[0..] == s;
  }

  lemma Separators(s: string)
    requires AreAllSeparators(s)
    ensures |s| == 1 ==> s == "/"
    ensures |s| == 2 ==> s == "//"
    ensures LastStart(s) == |s|
    ensures |s| == 2 ==> Strip(s) == "//"
    ensures |s| == 1 || |s| > 2 ==> Strip(s) == "/"
  {
    TrimSeparators(s);
    assert s != "" ==> IsSeparator(s[|s| - 1]) && s[0] == '/';
  }

  // A path of separators only.
  lemma {:induction false} DirOfSeparators(p: string)
    requires p != "" && AreAllSeparators(p)
    ensures Dir(p) == Base(p) == (if |p| == 2 then "//" else "/")
  {
    hide TrimEnd, LastStart, Strip;
    Separators(p);
    Separators(Strip(p));
    Separators("/");
    Separators("//");
    assert "/"[..1] == "/" && "//"[..2] == "//";
  }

  // A path that ends in a name: the directories d, which are nothing or end in a separator,
  // and the name b.
  lemma BaseOfName(q: string, d: string, b: string)
    requires q == d + b && b != "" && (d != "" ==> IsSeparator(d[|d| - 1]))
    requires forall i :: 0 <= i < |b| ==> !IsSeparator(b[i])
    ensures LastStart(q) == |d| && q[|d|..] == b
  {
    hide LastStart;
    LastStartIs(q, |d|);
  }

  // What the directory is cut to before it is stripped again.
  function DirCut(q: string): string {
    var last := LastStart(q) - 1;
    if last == -1 then "" else if last == 0 then q[..1]
    else if last == 1 && IsSeparator(q[0]) then q[..2] else q[..last]
  }

  lemma DirIsCut(p: string)
    ensures Dir(p) == var r := Strip(DirCut(Strip(p))); if r == "" then "." else r
  {
    hide Strip, LastStart;
  }

  lemma CutOfName(q: string, d: string, b: string)
    requires q == d + b && LastStart(q) == |d| && b != "" && d != ""
    ensures DirCut(q) == if |d| == 1 || (|d| == 2 && IsSeparator(d[0])) then d else d[..|d| - 1]
  {
    hide LastStart;
    assert q[0] == d[0];
    assert q[..|d|] == d && q[..|d| - 1] == d[..|d| - 1];
  }

  lemma StripCut(d: string)
    requires d != "" && IsSeparator(d[|d| - 1])
    ensures var r := Strip(if |d| == 1 || (|d| == 2 && IsSeparator(d[0])) then d else d[..|d| - 1]);
      if AreAllSeparators(d) then r == (if |d| == 2 || |d| == 3 then "//" else "/")
      else r == TrimEnd(d) != ""
  {
    hide TrimEnd, LastStart;
    TrimSeparators(d);
    if AreAllSeparators(d) {
      Separators(d);
      Separators(d[..|d| - 1]);
    } else {
      TrimLast(d);
    }
  }

  lemma {:induction false} DirOfName(p: string, d: string, b: string)
    requires TrimEnd(p) == d + b && b != "" && (d != "" ==> IsSeparator(d[|d| - 1]))
    requires forall i :: 0 <= i < |b| ==> !IsSeparator(b[i])
    ensures Base(p) == b
    ensures d == "" ==> Dir(p) == "."
    ensures d != "" && AreAllSeparators(d) ==> Dir(p) == if |d| == 2 || |d| == 3 then "//" else "/"
    ensures d != "" && !AreAllSeparators(d) ==> Dir(p) == TrimEnd(d)
  {
    hide TrimEnd, LastStart, Dir, AreAllSeparators;
    var q := d + b;
    BaseOfName(q, d, b);
    assert Strip(p) == q;
    hide Strip;
    DirIsCut(p);
    if d == "" {
      EmptyStrip();
    } else {
      CutOfName(q, d, b);
      StripCut(d);
    }
  }

  lemma EmptyStrip()
    ensures Strip("") == ""
  {
  }

  lemma TrimLast(d: string)
    requires d != "" && IsSeparator(d[|d| - 1])
    ensures TrimEnd(d) == TrimEnd(d[..|d| - 1])
  {
  }

  lemma {:induction false} LastStartIs(s: string, k: nat)
    requires k <= |s| && (k > 0 ==> IsSeparator(s[k - 1])) && forall i :: k <= i < |s| ==> !IsSeparator(s[i])
    ensures LastStart(s) == k
  {
    if k < |s| { LastStartIs(s[..|s| - 1], k); }
  }

  lemma {:induction false} TrimIs(s: string, r: string)
    requires r <= s && AreAllSeparators(s[|r|..]) && (r != "" ==> !IsSeparator(r[|r| - 1]))
    ensures TrimEnd(s) == r
  {
    if |r| < |s| {
      var t := s[..|s| - 1];
      assert s[|s| - 1] == s[|r|..][|s| - 1 - |r|];
      assert t[|r|..] == s[|r|..][..|s| - 1 - |r|];
      TrimIs(t, r);
    }
  }

  lemma {:induction false} RunLengthIs(s: string, n: nat)
    requires n <= |s| && (forall i :: 0 <= i < n ==> !IsSeparator(s[i])) && (n < |s| ==> IsSeparator(s[n]))
    ensures RunLength(s) == n
  {
    if n > 0 { RunLengthIs(s[1..], n - 1); }
  }

  lemma {:induction false} LeadingIs(s: string, k: nat)
    requires k <= |s| && AreAllSeparators(s[..k]) && (k < |s| ==> !IsSeparator(s[k]))
    ensures LeadingSeparators(s) == k
  {
    if k > 0 {
      assert s[..k][0] == s[0];
      assert s[1..][..k - 1] == s[..k][1..];
      LeadingIs(s[1..], k - 1);
    }
  }

  lemma RunsStep(p: string)
    requires p != ""
    ensures var n := RunLength(p); Runs(p) == if n == 0 then Runs(p[1..]) else [p[..n]] + Runs(p[n..])
  {
  }

  lemma NoRuns()
    ensures Runs("") == []
  {
  }

  // Cutting at an edge of a separator cuts no run.
  lemma {:induction false} RunsSplit(x: string, y: string)
    requires x == "" || y == "" || IsSeparator(x[|x| - 1]) || IsSeparator(y[0])
    ensures Runs(x + y) == Runs(x) + Runs(y)
    decreases |x|
  {
    hide Runs, RunLength;
    if x == "" {
      NoRuns();
      assert x + y == y;
    } else {
      var n := RunLength(x);
      RunsStep(x);
      RunsStep(x + y);
      RunLengthIs(x + y, n);
      if n == 0 {
        assert (x + y)[1..] == x[1..] + y;
        RunsSplit(x[1..], y);
      } else {
        assert (x + y)[..n] == x[..n] && (x + y)[n..] == x[n..] + y;
        RunsSplit(x[n..], y);
        Assoc([x[..n]], Runs(x[n..]), Runs(y));
      }
    }
  }

  lemma {:induction false} RunsOfSeparators(s: string)
    requires AreAllSeparators(s)
    ensures Runs(s) == []
  {
    if s != "" { RunsOfSeparators(s[1..]); }
  }

  lemma RunsOfName(b: string)
    requires b != "" && forall i :: 0 <= i < |b| ==> !IsSeparator(b[i])
    ensures Runs(b) == [b]
  {
    RunLengthIs(b, |b|);
    assert b[|b|..] == "" && b[..|b|] == b;
  }

  // A name behind e and separators, with separators behind it, is one more run.
  lemma RunsAppend(e: string, s: string, b: string, t: string)
    requires AreAllSeparators(s) && AreAllSeparators(t) && (e == "" || s != "")
    requires b != "" && forall i :: 0 <= i < |b| ==> !IsSeparator(b[i])
    ensures Runs(e + s + b + t) == Runs(e) + [b]
  {
    hide Runs;
    RunsSplit(e + s + b, t);
    RunsSplit(e + s, b);
    RunsSplit(e, s);
    RunsOfSeparators(s);
    RunsOfSeparators(t);
    RunsOfName(b);
  }

  // The last name of a path, what stands in front of it, and the separators around it.
  lemma Anatomy(p: string) returns (e: string, s: string, b: string, t: string)
    requires !AreAllSeparators(p)
    ensures p == e + s + b + t && TrimEnd(p) == e + s + b
    ensures AreAllSeparators(s) && AreAllSeparators(t) && (e == "" || s != "")
    ensures e == TrimEnd(e + s) && (e != "" ==> !IsSeparator(e[|e| - 1]))
    ensures b != "" && forall i :: 0 <= i < |b| ==> !IsSeparator(b[i])
  {
    hide TrimEnd, LastStart;
    TrimSeparators(p);
    var q := TrimEnd(p);
    var k := LastStart(q);
    t, b, e := p[|q|..], q[k..], TrimEnd(q[..k]);
    s := q[..k][|e|..];
    assert e + s == q[..k];
  }

  lemma DirOfAnatomy(p: string, e: string, s: string, b: string)
    requires TrimEnd(p) == e + s + b && AreAllSeparators(s) && (e == "" || s != "")
    requires e == TrimEnd(e + s)
    requires b != "" && forall i :: 0 <= i < |b| ==> !IsSeparator(b[i])
    ensures Base(p) == b && !AreAllSeparators(b)
    ensures e != "" ==> Dir(p) == e
    ensures e == "" && s == "" ==> Dir(p) == "."
    ensures e == "" && s != "" ==> Dir(p) == if |s| == 2 || |s| == 3 then "//" else "/"
  {
    hide TrimEnd, Dir, Base;
    var d := e + s;
    TrimSeparators(d);
    assert s != "" ==> d[|d| - 1] == s[|s| - 1];
    assert e == "" ==> d == s;
    DirOfName(p, d, b);
    assert !IsSeparator(b[0]);
  }

  // Every step of the walk stays at ".", "/" or "//" or makes the path lighter.
  lemma {:induction false} DirDecreases(p: string)
    requires p != ""
    ensures Dir(p) == p || Weight(Dir(p)) < Weight(p)
    ensures Dir(p) == p <==> p == "." || p == "/" || p == "//"
  {
    hide Dir, Base, TrimEnd;
    if AreAllSeparators(p) {
      DirOfSeparators(p);
      Separators(p);
    } else {
      var e, s, b, t := Anatomy(p);
      DirOfAnatomy(p, e, s, b);
      assert e == "" && s == "" ==> p[0] == b[0] && (p == "." || |p| > 1 || p[0] != '.');
      assert e == "" && s != "" ==> |p| >= |s| + 1;
      assert e == "" && s == "" ==> p != "/" && p != "//";
      assert p == "." ==> e == "" && s == "";
    }
  }

  // The last name and the root come out of Dir and Base; this collects all of them.
  function Walk(p: string): seq<string>
    requires p != ""
    decreases Weight(p)
  {
    DirDecreases(p);
    if Dir(p) == p then (if Base(p) == "" || Base(p) == "." then [] else [Base(p)])
    else Walk(Dir(p)) + if AreAllSeparators(Base(p)) then [] else [Base(p)]
  }

  lemma LeadingOfAnatomy(e: string, s: string, b: string, t: string)
    requires AreAllSeparators(s) && b != "" && !IsSeparator(b[0])
    ensures e != "" && !IsSeparator(e[|e| - 1]) ==>
      LeadingSeparators(e + s + b + t) == LeadingSeparators(e) < |e|
    ensures e == "" ==> LeadingSeparators(e + s + b + t) == |s|
  {
    hide LeadingSeparators;
    var p := e + s + b + t;
    if e == "" {
      assert p[..|s|] == s && p[|s|] == b[0];
      LeadingIs(p, |s|);
    } else if !IsSeparator(e[|e| - 1]) {
      var k := LeadingSeparators(e);
      assert e[..k] == p[..k];
      assert k < |e| && p[k] == e[k];
      LeadingIs(p, k);
    }
  }

  // A path of one run with no separator on either side is that run.
  lemma OneRun(e: string)
    requires e != "" && LeadingSeparators(e) == 0 && !IsSeparator(e[|e| - 1])
    ensures Runs(e) != [] && (|Runs(e)| == 1 ==> Runs(e)[0] == e)
  {
    var n := RunLength(e);
    var rest := e[n..];
    if rest == "" {
      assert e[..n] == e;
    } else {
      assert rest[|rest| - 1] == e[|e| - 1] && !AreAllSeparators(rest);
      SomeRun(rest);
    }
  }

  lemma {:induction false} SomeRun(p: string)
    requires !AreAllSeparators(p)
    ensures Runs(p) != []
  {
    if IsSeparator(p[0]) {
      assert p == [p[0]] + p[1..];
      SomeRun(p[1..]);
    }
  }

  lemma ComponentsAppend(p: string, e: string, b: string)
    requires e != "" && !IsSeparator(e[|e| - 1]) && |e| < |p|
    requires Runs(p) == Runs(e) + [b] && LeadingSeparators(p) == LeadingSeparators(e) < |e|
    ensures Components(p) == Components(e) + [b]
  {
    hide Runs, LeadingSeparators;
    assert Root(p) == Root(e);
    if LeadingSeparators(e) == 0 {
      OneRun(e);
      assert (Runs(e) + [b])[1..] == Runs(e)[1..] + [b];
      Assoc(Root(e), Runs(e)[1..], [b]);
    }
    Assoc(Root(e), Runs(e), [b]);
  }

  lemma ComponentsOfOne(p: string, s: string, b: string, t: string)
    requires p == s + b + t && AreAllSeparators(s) && AreAllSeparators(t)
    requires Runs(p) == [b] && LeadingSeparators(p) == |s| && b != ""
    ensures s != "" ==> Components(p) == [if |s| == 2 || |s| == 3 then "//" else "/", b]
    ensures s == "" ==> Components(p) == if p == "." then [] else [b]
  {
    hide Runs, LeadingSeparators;
    if s == "" && b == "." && |p| == 1 { assert p[0] == b[0]; }
    if p == "." { assert |b| == 1 && s == "" && p[0] == b[0]; }
  }

  lemma ComponentsOfSeparators(p: string)
    requires p != "" && AreAllSeparators(p)
    ensures Components(p) == [if |p| == 2 then "//" else "/"]
  {
    hide LeadingSeparators;
    RunsOfSeparators(p);
    LeadingIs(p, |p|);
  }

  lemma WalkOfRoot(p: string)
    requires p == "." || p == "/" || p == "//"
    ensures Walk(p) == if p == "." then [] else [p]
  {
    hide Dir, Base;
    DirDecreases(p);
    if p == "." {
      RunLengthIs(p, 1);
      TrimIs(p, p);
      DirOfName(p, "", ".");
    } else {
      DirOfSeparators(p);
    }
  }

  // Walking up from the end collects the root and the separator-free runs, in order.
  lemma {:induction false} WalkIsComponents(p: string)
    requires p != ""
    ensures Walk(p) == Components(p)
    decreases Weight(p)
  {
    hide Dir, Base, Components, TrimEnd, LeadingSeparators;
    DirDecreases(p);
    if AreAllSeparators(p) {
      DirOfSeparators(p);
      ComponentsOfSeparators(p);
      WalkOfRoot(Dir(p));
      Separators(p);
    } else {
      var e, s, b, t := Anatomy(p);
      DirOfAnatomy(p, e, s, b);
      RunsAppend(e, s, b, t);
      LeadingOfAnatomy(e, s, b, t);
      if e == "" {
        RunsOfSeparators(e);
        assert e + s == s;
        ComponentsOfOne(p, s, b, t);
        WalkOfRoot(Dir(p));
        if s == "" && p == "." { WalkOfRoot(p); }
      } else {
        WalkIsComponents(e);
        ComponentsAppend(p, e, b);
      }
    }
  }

  // ---------- parent references ----------

  predicate MatchesAt(s: string, t: string, i: int) {
    0 <= i <= |s| - |t| && s[i..i + |t|] == t
  }

  ghost predicate Mentions(s: string, t: string) {
    exists i :: MatchesAt(s, t, i)
  }

  // Dots and white space only, with ".." among them.
  ghost predicate IsParentReference(c: string) {
    (forall i :: 0 <= i < |c| ==> c[i] in ". \n\r\t") && Mentions(c, "..")
  }

  lemma {:induction false} RunWithin(p: string, k: nat) returns (at: nat)
    requires k < |Runs(p)|
    ensures at + |Runs(p)[k]| <= |p| && Runs(p)[k] == p[at..at + |Runs(p)[k]|]
    decreases |p|
  {
    hide Runs, RunLength;
    assert p != "" by { NoRuns(); }
    var n := RunLength(p);
    RunsStep(p);
    if n == 0 {
      var i := RunWithin(p[1..], k);
      at := i + 1;
      SliceOfSlice(p, 1, |p|, i, i + |Runs(p)[k]|);
      assert p[1..|p|] == p[1..];
    } else if k == 0 {
      at := 0;
    } else {
      var i := RunWithin(p[n..], k - 1);
      at := i + n;
      SliceOfSlice(p, n, |p|, i, i + |Runs(p)[k]|);
      assert p[n..|p|] == p[n..];
    }
  }

  lemma SliceOfSlice(p: string, a: nat, b: nat, i: nat, j: nat)
    requires a <= b <= |p| && i <= j <= b - a
    ensures p[a..b][i..j] == p[a + i..a + j]
  {
    forall k | 0 <= k < j - i ensures p[a..b][i..j][k] == p[a + i..a + j][k] {
      assert p[a..b][i + k] == p[a + i + k];
    }
  }

  lemma MentionsWithin(p: string, at: nat, c: string, t: string)
    requires at + |c| <= |p| && c == p[at..at + |c|] && Mentions(c, t)
    ensures Mentions(p, t)
  {
    var i :| MatchesAt(c, t, i);
    SliceOfSlice(p, at, at + |c|, i, i + |t|);
    assert MatchesAt(p, t, at + i);
  }

  ghost predicate HasParentReference(p: string) {
    exists c :: c in Runs(p) && IsParentReference(c)
  }

  // A path without ".." in it has no run that refers to the parent.
  lemma {:induction false} NoMentionNoReference(p: string)
    requires !Mentions(p, "..")
    ensures !HasParentReference(p)
  {
    hide Runs, Mentions;
    forall c | c in Runs(p) ensures !IsParentReference(c) {
      var k :| 0 <= k < |Runs(p)| && Runs(p)[k] == c;
      var at := RunWithin(p, k);
      if Mentions(c, "..") { MentionsWithin(p, at, c, ".."); }
    }
  }

  // The root and the dropped "." refer to no parent, so runs and components agree.
  lemma {:induction false} ReferencesAgree(p: string)
    ensures HasParentReference(p) <==> exists c :: c in Components(p) && IsParentReference(c)
  {
    hide Runs, LeadingSeparators;
    assert !IsParentReference("/") by { assert "/"[0] == '/'; }
    assert !IsParentReference("//") by { assert "//"[0] == '/'; }
    assert !IsParentReference(".");
    assert DropsDot(p) ==> forall c :: c in Runs(p) ==> c == "." || c in Runs(p)[1..];
  }

  predicate NulFree(s: string) {
    forall i :: 0 <= i < |s| ==> s[i] != '\0'
  }

  // The index of the last separator, -1 if there is none.
  method FindLastSeparator(s: string) returns (last: int)
    ensures last == LastStart(s) - 1
  {
    last := |s| - 1;
    while last >= 0 && !IsSeparator(s[last])
      invariant -1 <= last < |s| && forall i :: last < i < |s| ==> !IsSeparator(s[i])
    {
      last := last - 1;
    }
    LastStartIs(s, last + 1);
  }

  method Contains(s: string, t: string) returns (found: bool)
    ensures found == Mentions(s, t)
  {
    var i := 0;
    while i + |t| <= |s|
      invariant 0 <= i && forall j :: 0 <= j < i ==> !MatchesAt(s, t, j)
    {
      if MatchesAt(s, t, i) { return true; }
      i := i + 1;
    }
    return false;
  }

  method RefersToParent(component: string) returns (parent: bool)
    ensures parent == IsParentReference(component)
  {
    var i := 0;
    while i < |component| && component[i] in ". \n\r\t"
      invariant 0 <= i <= |component| && forall j :: 0 <= j < i ==> component[j] in ". \n\r\t"
    {
      i := i + 1;
    }
    if i < |component| { return false; }
    parent := Contains(component, "..");
  }

  // How far stripping has come: path is the first pos characters of the whole, or the whole
  // is "//" and stays.
  ghost predicate Stripping(whole: string, path: string, pos: int, lastStripped: int) {
    && 0 <= pos <= |whole| && (whole != "" ==> pos > 0)
    && AreAllSeparators(whole[pos..])
    && if path == whole == "//" then pos == 1 || (pos == 2 && lastStripped == -1)
       else path == whole[..pos] && lastStripped == (if pos == |whole| then -1 else pos + 1)
            && (pos == 1 && |whole| == 2 ==> !IsSeparator(whole[0]))
  }

  lemma StripBegin(whole: string)
    ensures Stripping(whole, whole, |whole|, -1)
  {
  }

  lemma StripStep(whole: string, path: string, pos: int, lastStripped: int)
    requires Stripping(whole, path, pos, lastStripped) && 1 < pos <= |path| && IsSeparator(path[pos - 1])
    ensures if pos != 2 || lastStripped == 3 || !IsSeparator(path[0])
            then Stripping(whole, path[..pos - 1], pos - 1, pos)
            else Stripping(whole, path, pos - 1, lastStripped)
  {
    assert path[pos - 1] == whole[pos - 1];
    assert whole[pos - 1..] == [whole[pos - 1]] + whole[pos..];
    assert pos == |whole| == 2 && IsSeparator(path[0]) ==> whole == "//" by {
      assert pos == |whole| == 2 && IsSeparator(path[0]) ==> whole[0] == '/' && whole[1] == '/';
    }
  }

  lemma StripDone(whole: string, path: string, pos: int, lastStripped: int)
    requires Stripping(whole, path, pos, lastStripped) && pos <= |path|
    requires pos <= 1 || !IsSeparator(path[pos - 1])
    ensures path == Strip(whole)
  {
    hide TrimEnd;
    if path == whole == "//" {
      TrimSeparators(whole);
    } else if pos == 0 || !IsSeparator(whole[pos - 1]) {
      TrimIs(whole, path);
    } else {
      assert forall i :: 1 <= i < |whole| ==> whole[i] == whole[1..][i - 1];
      TrimSeparators(whole);
    }
  }

  class FilePath {
    var path: string

    predicate Valid()
      reads this
    {
      NulFree(path)
    }

    // Everything from the first NUL on is cut off.
    constructor (text: string)
      ensures Valid() && path <= text && (path < text ==> text[|path|] == '\0')
    {
      var nul := 0;
      while nul < |text| && text[nul] != '\0'
        invariant 0 <= nul <= |text| && forall i :: 0 <= i < nul ==> text[i] != '\0'
      {
        nul := nul + 1;
      }
      path := text[..nul];
    }

    method StripTrailingSeparatorsInternal()
      requires Valid()
      modifies this
      ensures Valid() && path == Strip(old(path))
    {
      hide Stripping, Strip;
      ghost var whole := path;
      var start := 1;
      var lastStripped := -1;
      var pos := |path|;
      StripBegin(whole);
      while pos > start && IsSeparator(path[pos - 1])
        invariant 0 <= pos <= |path| && Stripping(whole, path, pos, lastStripped)
        invariant Valid()
      {
        StripStep(whole, path, pos, lastStripped);
        if pos != start + 1 || lastStripped == start + 2 || !IsSeparator(path[start - 1]) {
          path := path[..pos - 1];
          lastStripped := pos;
        }
        pos := pos - 1;
      }
      StripDone(whole, path, pos, lastStripped);
    }

    method DirName() returns (dir: FilePath)
      requires Valid()
      ensures fresh(dir) && dir.Valid() && dir.path == Dir(path)
    {
      hide TrimEnd, LastStart, Strip;
      dir := new FilePath(path);
      assert dir.path == path;
      dir.StripTrailingSeparatorsInternal();
      var last := FindLastSeparator(dir.path);
      if last == -1 {
        dir.path := "";
      } else if last == 0 {
        dir.path := dir.path[..1];
      } else if last == 1 && IsSeparator(dir.path[0]) {
        dir.path := dir.path[..2];
      } else if last != 0 {
        dir.path := dir.path[..last];
      }
      dir.StripTrailingSeparatorsInternal();
      if |dir.path| == 0 { dir.path := "."; }
    }

    method BaseName() returns (base: FilePath)
      requires Valid()
      ensures fresh(base) && base.Valid() && base.path == Base(path)
    {
      hide TrimEnd, LastStart, Strip;
      base := new FilePath(path);
      assert base.path == path;
      base.StripTrailingSeparatorsInternal();
      var last := FindLastSeparator(base.path);
      if last != -1 && last < |base.path| - 1 {
        base.path := base.path[last + 1..];
      }
    }

    method GetComponents() returns (components: seq<string>)
      requires Valid()
      ensures components == Components(path)
    {
      hide Dir, Base, Components;
      if path == "" {
        EmptyComponents();
        return [];
      }
      components := [];
      var current := this;
      var dir := current.DirName();
      DirDecreases(current.path);
      while current.path != dir.path
        invariant current.Valid() && current.path != "" && unchanged(this)
        invariant dir.Valid() && dir.path == Dir(current.path)
        invariant Walk(path) == Walk(current.path) + components
        decreases Weight(current.path)
      {
        DirDecreases(current.path);
        DirNonempty(current.path);
        var base := current.BaseName();
        if !AreAllSeparators(base.path) {
          Assoc(Walk(dir.path), [base.path], components);
          components := [base.path] + components;
        }
        current := dir;
        dir := current.DirName();
      }
      var base := current.BaseName();
      if base.path != "" && base.path != "." {
        components := [base.path] + components;
      }
      WalkIsComponents(path);
    }

    method ReferencesParent() returns (parent: bool)
      requires Valid()
      ensures parent == HasParentReference(path)
    {
      hide Runs, Components, IsParentReference, Mentions;
      var found := Contains(path, "..");
      if !found {
        NoMentionNoReference(path);
        return false;
      }
      var components := GetComponents();
      ReferencesAgree(path);
      for i := 0 to |components|
        invariant forall j :: 0 <= j < i ==> !IsParentReference(components[j])
      {
        parent := RefersToParent(components[i]);
        if parent { return; }
      }
      return false;
    }
  }

  lemma EmptyComponents()
    ensures Components("") == []
  {
  }

  lemma DirNonempty(p: string)
    ensures Dir(p) != ""
  {
  }
}
