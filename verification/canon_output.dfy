/**
 The canonicalizer's output buffer: an array that doubles when it is full.  To its users it
 is a sequence with a bound, and the bound follows from the first capacity alone.
 */
module CanonOutputs {
  const INT_MAX := 0x7FFF_FFFF
  const GROWTH_LIMIT := 0x4000_0000
  const MIN_BUFFER_LEN := 16

  // The first doubling of capacity that reaches the growth limit, beyond which nothing grows.
  function Limit(capacity: nat): (n: nat)
    ensures n >= capacity && n >= GROWTH_LIMIT
    ensures capacity <= INT_MAX ==> n <= INT_MAX
    decreases if capacity == 0 then GROWTH_LIMIT else if capacity < GROWTH_LIMIT then GROWTH_LIMIT - capacity else 0
  {
    if capacity == 0 then Limit(MIN_BUFFER_LEN)
    else if capacity >= GROWTH_LIMIT then capacity
    else Limit(2 * capacity)
  }

  // A text that does not fit any more is dropped as a whole.
  function Added<T>(contents: seq<T>, bound: nat, text: seq<T>): seq<T> {
    if |contents| + |text| <= bound then contents + text else contents
  }

  class CanonOutput<T(0)> {
    var buffer: array<T>
    var bufferLen: int
    var curLen: int

    ghost predicate Valid()
      reads this
    {
      0 <= curLen <= bufferLen == buffer.Length <= INT_MAX
    }

    ghost function Contents(): seq<T>
      requires Valid()
      reads this, buffer
    {
      buffer[..curLen]
    }

    ghost function Bound(): nat
      requires Valid()
      reads this
    {
      Limit(bufferLen)
    }

    constructor (fixedCapacity: nat)
      requires fixedCapacity <= INT_MAX
      ensures Valid() && fresh(buffer) && Contents() == [] && Bound() == Limit(fixedCapacity)
    {
      buffer := new T[fixedCapacity];
      bufferLen := fixedCapacity;
      curLen := 0;
    }

    // Only what fits is copied; the length stays, so a size below it leaves no valid buffer.
    method Resize(size: nat)
      requires Valid() && size <= INT_MAX
      modifies this
      ensures fresh(buffer) && bufferLen == buffer.Length == size && curLen == old(curLen)
      ensures buffer[..if curLen < size then curLen else size]
           == old(buffer[..if curLen < size then curLen else size])
    {
      var newBuffer := new T[size];
      var n := if curLen < size then curLen else size;
      forall i | 0 <= i < n { newBuffer[i] := buffer[i]; }
      buffer := newBuffer;
      bufferLen := size;
    }

    // Room for at least minAdditional more than the capacity, and no int on the way too large.
    method Grow(minAdditional: nat) returns (ok: bool)
      requires Valid() && (bufferLen < GROWTH_LIMIT ==> bufferLen + minAdditional <= INT_MAX)
      modifies this
      ensures Valid() && Contents() == old(Contents()) && Bound() == old(Bound())
      ensures ok <==> old(bufferLen) < GROWTH_LIMIT && old(bufferLen) + minAdditional <= Bound()
      ensures minAdditional > 0 ==> (ok <==> old(bufferLen) + minAdditional <= Bound())
      ensures ok ==> fresh(buffer) && bufferLen >= old(bufferLen) + minAdditional && bufferLen > old(bufferLen)
      ensures !ok ==> buffer == old(buffer)
    {
      var start := if bufferLen == 0 then MIN_BUFFER_LEN else bufferLen;
      var newLen := start;
      while true
        invariant unchanged(this) && start <= newLen <= INT_MAX && Limit(newLen) == Limit(bufferLen)
        invariant newLen == start || newLen < bufferLen + minAdditional
        decreases GROWTH_LIMIT - newLen
      {
        if newLen >= GROWTH_LIMIT { return false; }
        newLen := newLen * 2;
        if newLen >= bufferLen + minAdditional { break; }
      }
      Resize(newLen);
      ok := true;
    }

    method PushBack(c: T)
      requires Valid()
      modifies this, buffer
      ensures Valid() && Bound() == old(Bound()) && (buffer == old(buffer) || fresh(buffer))
      ensures Contents() == Added(old(Contents()), Bound(), [c])
    {
      if curLen < bufferLen {
        buffer[curLen] := c;
        curLen := curLen + 1;
        return;
      }
      var grown := Grow(1);
      if !grown { return; }
      buffer[curLen] := c;
      curLen := curLen + 1;
    }

    method Append(text: seq<T>)
      requires Valid() && curLen + |text| <= INT_MAX
      modifies this, buffer
      ensures Valid() && Bound() == old(Bound()) && (buffer == old(buffer) || fresh(buffer))
      ensures Contents() == Added(old(Contents()), Bound(), text)
    {
      hide Limit;
      if curLen + |text| > bufferLen {
        var grown := Grow(curLen + |text| - bufferLen);
        if !grown { return; }
      }
      for i := 0 to |text|
        invariant Valid() && bufferLen >= curLen + |text| && curLen == old(curLen) && Bound() == old(Bound())
        invariant buffer == old(buffer) || fresh(buffer)
        invariant buffer[..curLen + i] == old(Contents()) + text[..i]
      {
        buffer[curLen + i] := text[i];
        assert text[..i + 1] == text[..i] + [text[i]];
      }
      curLen := curLen + |text|;
    }

    // Shortens the text; up to the capacity it may also take in what others have written
    // behind the end.
    method SetLength(newLen: nat)
      requires Valid() && newLen <= bufferLen
      modifies this`curLen
      ensures Valid() && Bound() == old(Bound()) && Contents() == buffer[..newLen]
      ensures newLen <= old(curLen) ==> Contents() == old(Contents())[..newLen]
    {
      curLen := newLen;
    }

    method ReserveSizeIfNeeded(estimatedSize: int)
      requires Valid() && estimatedSize + 8 <= INT_MAX
      modifies this
      ensures Valid() && Contents() == old(Contents()) && (buffer == old(buffer) || fresh(buffer))
      ensures bufferLen >= estimatedSize
      ensures Bound() == if estimatedSize > old(bufferLen) then Limit(estimatedSize + 8) else old(Bound())
    {
      if estimatedSize > bufferLen {
        Resize(estimatedSize + 8);
      }
    }
  }

  // ---------- runs ----------

  datatype Op<T> = Push(c: T) | Add(text: seq<T>) | Shorten(newLen: nat)

  function Step<T>(contents: seq<T>, bound: nat, op: Op<T>): seq<T> {
    match op
    case Push(c) => Added(contents, bound, [c])
    case Add(text) => Added(contents, bound, text)
    case Shorten(newLen) => if newLen <= |contents| then contents[..newLen] else contents
  }

  function Replay<T>(contents: seq<T>, bound: nat, ops: seq<Op<T>>): seq<T>
    decreases |ops|
  {
    if ops == [] then contents else Replay(Step(contents, bound, ops[0]), bound, ops[1..])
  }

  // What is appended keeps the length an int, and what is shortened gets no longer.
  ghost predicate Permitted<T>(contents: seq<T>, bound: nat, ops: seq<Op<T>>)
    decreases |ops|
  {
    ops != [] ==>
      && (ops[0].Add? ==> |contents| + |ops[0].text| <= INT_MAX)
      && (ops[0].Shorten? ==> ops[0].newLen <= |contents|)
      && Permitted(Step(contents, bound, ops[0]), bound, ops[1..])
  }

  // Any interleaving leaves what a plain sequence with the bound of the first buffer holds.
  method Perform<T(0)>(output: CanonOutput<T>, ops: seq<Op<T>>)
    requires output.Valid() && Permitted(output.Contents(), output.Bound(), ops)
    modifies output, output.buffer
    ensures output.Valid() && output.Bound() == old(output.Bound())
    ensures output.Contents() == Replay(old(output.Contents()), output.Bound(), ops)
  {
    hide Limit, Added;
    assert ops[0..] == ops;
    for i := 0 to |ops|
      invariant output.Valid() && output.Bound() == old(output.Bound())
      invariant output.buffer == old(output.buffer) || fresh(output.buffer)
      invariant Permitted(output.Contents(), output.Bound(), ops[i..])
      invariant Replay(output.Contents(), output.Bound(), ops[i..]) == Replay(old(output.Contents()), output.Bound(), ops)
    {
      assert ops[i..][0] == ops[i] && ops[i..][1..] == ops[i + 1..];
      match ops[i]
      case Push(c) => output.PushBack(c);
      case Add(text) => output.Append(text);
      case Shorten(newLen) => output.SetLength(newLen);
    }
  }

  function Text<T>(ops: seq<Op<T>>): seq<T> {
    if ops == [] then []
    else (match ops[0] case Push(c) => [c] case Add(text) => text case Shorten(_) => []) + Text(ops[1..])
  }

  lemma {:induction false} ReplayStaysWithin<T>(contents: seq<T>, bound: nat, ops: seq<Op<T>>)
    requires |contents| <= bound
    ensures |Replay(contents, bound, ops)| <= bound
    decreases |ops|
  {
    if ops != [] { ReplayStaysWithin(Step(contents, bound, ops[0]), bound, ops[1..]); }
  }

  lemma {:induction false} ReplayOfFitting<T>(contents: seq<T>, bound: nat, ops: seq<Op<T>>)
    requires forall i :: 0 <= i < |ops| ==> !ops[i].Shorten?
    requires |contents| + |Text(ops)| <= bound
    ensures Replay(contents, bound, ops) == contents + Text(ops)
    decreases |ops|
  {
    if ops != [] {
      var text := match ops[0] case Push(c) => [c] case Add(text) => text case Shorten(_) => [];
      ReplayOfFitting(contents + text, bound, ops[1..]);
      assert (contents + text) + Text(ops[1..]) == contents + (text + Text(ops[1..]));
    }
  }

  // Appending loses something exactly when all of it together is longer than the bound.
  lemma {:induction false} NothingLostIff<T>(contents: seq<T>, bound: nat, ops: seq<Op<T>>)
    requires |contents| <= bound
    requires forall i :: 0 <= i < |ops| ==> !ops[i].Shorten?
    ensures Replay(contents, bound, ops) == contents + Text(ops) <==> |contents| + |Text(ops)| <= bound
  {
    ReplayStaysWithin(contents, bound, ops);
    if |contents| + |Text(ops)| <= bound { ReplayOfFitting(contents, bound, ops); }
  }
}
