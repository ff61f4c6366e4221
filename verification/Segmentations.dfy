/** A segmentation: the list of segments an input is divided into. */
module Segmentations {

  type Status = s: int | 0 <= s <= 3

  const VOID: Status := 0
  const GUESS: Status := 1
  const SELECTED: Status := 2
  const CONFIRMED: Status := 3

  datatype Segment = Segment(status: Status, start: nat, end: nat, tags: set<string>, hasMenu: bool, selectedIndex: nat, prompt: string)
  {
    predicate HasTag(tag: string) { tag in tags }

    function Cleared(): Segment {
      Segment(VOID, start, end, {}, false, 0, "")
    }
  }

  function NewSegment(start: nat, end: nat): Segment {
    Segment(VOID, start, end, {}, false, 0, "")
  }

  // ----- positions -----

  function StartOf(segs: seq<Segment>): nat {
    if |segs| == 0 then 0 else segs[|segs| - 1].start
  }

  function EndOf(segs: seq<Segment>): nat {
    if |segs| == 0 then 0 else segs[|segs| - 1].end
  }

  /** There is nothing in the current segment yet. */
  predicate AtRest(segs: seq<Segment>) {
    StartOf(segs) == EndOf(segs)
  }

  // ----- tilings -----

  /** The segments lie side by side from the start of the input; only the last may be empty. */
  ghost predicate Tiles(segs: seq<Segment>) {
    && (|segs| > 0 ==> segs[0].start == 0)
    && (forall i, j :: 0 <= i && j == i + 1 < |segs| ==> segs[i].end == segs[j].start)
    && (forall i :: 0 <= i < |segs| - 1 ==> segs[i].start < segs[i].end)
    && StartOf(segs) <= EndOf(segs)
  }

  lemma {:induction false} TilesAscend(segs: seq<Segment>, i: nat, j: nat)
    requires Tiles(segs) && i <= j < |segs|
    ensures segs[i].start <= segs[j].start && segs[i].end <= segs[j].end
    ensures i < j ==> segs[i].end <= segs[j].start
    decreases j - i
  {
    if i < j { TilesAscend(segs, i + 1, j); }
  }

  /** Every position up to the end lies in exactly one segment. */
  lemma {:induction false} TileAt(segs: seq<Segment>, p: nat) returns (i: nat)
    requires Tiles(segs) && p < EndOf(segs)
    ensures i < |segs| && segs[i].start <= p < segs[i].end
    ensures forall j :: 0 <= j < |segs| && segs[j].start <= p < segs[j].end ==> j == i
  {
    i := |segs| - 1;
    while p < segs[i].start
      invariant i < |segs| && p < segs[i].end
    {
      i := i - 1;
    }
    forall j | 0 <= j < |segs| && segs[j].start <= p < segs[j].end
      ensures j == i
    {
      if j < i { TilesAscend(segs, j, i); }
      if i < j { TilesAscend(segs, i, j); }
    }
  }

  lemma TilesPrefix(segs: seq<Segment>, n: nat)
    requires Tiles(segs) && n <= |segs|
    ensures Tiles(segs[..n]) && EndOf(segs[..n]) <= EndOf(segs)
    ensures 0 < n < |segs| ==> !AtRest(segs[..n])
  {
    if 0 < n { TilesAscend(segs, n - 1, |segs| - 1); }
  }

  lemma TilesAppend(segs: seq<Segment>, s: Segment)
    requires Tiles(segs) && (|segs| > 0 ==> !AtRest(segs)) && s.start == EndOf(segs) && s.start <= s.end
    ensures Tiles(segs + [s])
  {
  }

  lemma TilesReplaced(segs: seq<Segment>, s: Segment)
    requires Tiles(segs) && |segs| > 0 && s.start == StartOf(segs) && s.start <= s.end
    ensures Tiles(segs[..|segs| - 1] + [s])
  {
  }

  // ----- operations -----

  /** The longer segment prevails; segments of equal length share their tags. */
  function Added(segs: seq<Segment>, s: Segment): seq<Segment> {
    if s.start != StartOf(segs) then segs
    else if |segs| == 0 then [s]
    else
      var last := segs[|segs| - 1];
      if last.end > s.end then segs
      else if last.end < s.end then segs[..|segs| - 1] + [s]
      else segs[..|segs| - 1] + [last.(tags := last.tags + s.tags)]
  }

  lemma AddedTiles(segs: seq<Segment>, s: Segment)
    requires Tiles(segs) && s.start <= s.end
    ensures Tiles(Added(segs, s))
    ensures EndOf(Added(segs, s)) == if s.start == StartOf(segs) && s.end > EndOf(segs) then s.end else EndOf(segs)
  {
  }

  function Forwarded(segs: seq<Segment>): seq<Segment> {
    if |segs| == 0 || AtRest(segs) then segs else segs + [NewSegment(EndOf(segs), EndOf(segs))]
  }

  lemma ForwardedTiles(segs: seq<Segment>)
    requires Tiles(segs)
    ensures Tiles(Forwarded(segs)) && AtRest(Forwarded(segs)) && EndOf(Forwarded(segs)) == EndOf(segs)
  {
  }

  function Trimmed(segs: seq<Segment>): seq<Segment> {
    if |segs| > 0 && AtRest(segs) then segs[..|segs| - 1] else segs
  }

  /** The position up to which the user has made a choice. */
  function ConfirmedPosition(segs: seq<Segment>): nat {
    if |segs| == 0 then 0
    else if segs[|segs| - 1].status >= SELECTED then segs[|segs| - 1].end
    else ConfirmedPosition(segs[..|segs| - 1])
  }

  lemma {:induction false} ConfirmedWithin(segs: seq<Segment>)
    requires Tiles(segs)
    ensures ConfirmedPosition(segs) <= EndOf(segs)
    ensures forall i :: 0 <= i < |segs| && segs[i].status >= SELECTED ==> segs[i].end <= ConfirmedPosition(segs)
  {
    if |segs| > 0 {
      var init := segs[..|segs| - 1];
      TilesPrefix(segs, |segs| - 1);
      ConfirmedWithin(init);
      forall i | 0 <= i < |segs|
        ensures segs[i].end <= EndOf(segs)
      {
        TilesAscend(segs, i, |segs| - 1);
      }
      assert forall i :: 0 <= i < |init| ==> segs[i] == init[i];
    }
  }

  function CommonPrefix(a: string, b: string): (n: nat)
    ensures n <= |a| && n <= |b| && a[..n] == b[..n]
    ensures n < |a| && n < |b| ==> a[n] != b[n]
  {
    if |a| == 0 || |b| == 0 || a[0] != b[0] then 0
    else
      var n := CommonPrefix(a[1..], b[1..]);
      assert a[..n + 1] == [a[0]] + a[1..][..n] && b[..n + 1] == [b[0]] + b[1..][..n];
      n + 1
  }

  lemma CommonPrefixIs(a: string, b: string, n: nat)
    requires n <= |a| && n <= |b| && a[..n] == b[..n]
    requires n < |a| && n < |b| ==> a[n] != b[n]
    ensures n == CommonPrefix(a, b)
  {
    var m := CommonPrefix(a, b);
    assert forall k :: 0 <= k < n ==> a[k] == a[..n][k] == b[..n][k] == b[k];
    assert forall k :: 0 <= k < m ==> a[k] == a[..m][k] == b[..m][k] == b[k];
  }

  /** The segments are those of `before` that end by `diff`, followed, if some were disposed
      of, by a fresh empty one. */
  ghost predicate ResetFrom(before: seq<Segment>, diff: nat, after: seq<Segment>) {
    exists n: nat :: CutAt(before, diff, n, after)
  }

  /** Exactly the first `n` segments end by `diff`. */
  ghost predicate CutAt(before: seq<Segment>, diff: nat, n: nat, after: seq<Segment>) {
    && n <= |before| && (forall i :: 0 <= i < |before| ==> (i < n <==> before[i].end <= diff))
    && after == if n == |before| then before else Forwarded(before[..n])
  }

  class Segmentation {
    var segments: seq<Segment>
    var input: string

    constructor ()
      ensures segments == [] && input == ""
    {
      segments, input := [], "";
    }

    ghost predicate Valid()
      reads this
    {
      Tiles(segments) && EndOf(segments) <= |input|
    }

    predicate HasFinishedSegmentation()
      reads this
    {
      EndOf(segments) >= |input|
    }

    /** Adopts a new input, and disposes of the segments that it changes. */
    method Reset(newInput: string)
      requires Tiles(segments)
      modifies this
      ensures input == newInput
      ensures ResetFrom(old(segments), CommonPrefix(old(input), newInput), segments)
    {
      hide CommonPrefix;
      var diffPos := DiffPosition(input, newInput);
      var disposed := Dispose(diffPos);
      if disposed > 0 {
        var _ := Forward();
      }
      assert CutAt(old(segments), diffPos, |old(segments)| - disposed, segments);
      input := newInput;
    }

    /** Where two inputs first differ. */
    static method DiffPosition(a: string, b: string) returns (diffPos: nat)
      ensures diffPos == CommonPrefix(a, b)
    {
      diffPos := 0;
      while diffPos < |a| && diffPos < |b| && a[diffPos] == b[diffPos]
        invariant diffPos <= |a| && diffPos <= |b| && a[..diffPos] == b[..diffPos]
      {
        diffPos := diffPos + 1;
      }
      CommonPrefixIs(a, b, diffPos);
    }

    /** Disposes of the segments that reach beyond `diffPos`. */
    method Dispose(diffPos: nat) returns (disposed: nat)
      requires Tiles(segments)
      modifies this`segments
      ensures disposed <= |old(segments)| && segments == old(segments)[..|old(segments)| - disposed]
      ensures forall i :: 0 <= i < |old(segments)| ==> (i < |segments| <==> old(segments)[i].end <= diffPos)
    {
      ghost var before := segments;
      disposed := 0;
      while |segments| > 0 && segments[|segments| - 1].end > diffPos
        invariant disposed <= |before| && segments == before[..|before| - disposed]
        invariant forall i :: |segments| <= i < |before| ==> before[i].end > diffPos
      {
        segments := segments[..|segments| - 1];
        disposed := disposed + 1;
      }
      KeptAreWithin(before, |segments|, diffPos);
    }

    method Truncate(numSegments: nat)
      modifies this`segments
      ensures segments == if numSegments >= |old(segments)| then old(segments) else old(segments)[..numSegments]
    {
      if numSegments >= |segments| {
        return;
      }
      segments := segments[..numSegments];
    }

    method AddSegment(segment: Segment) returns (ok: bool)
      modifies this`segments
      ensures segments == Added(old(segments), segment) && ok == (segment.start == StartOf(old(segments)))
    {
      if segment.start != StartOf(segments) {
        return false;
      }
      if |segments| == 0 {
        segments := segments + [segment];
        return true;
      }
      var n := |segments| - 1;
      var last := segments[n];
      if last.end > segment.end {
      } else if last.end < segment.end {
        segments := segments[n := segment];
      } else {
        segments := segments[n := last.(tags := last.tags + segment.tags)];
      }
      ok := true;
    }

    method Forward() returns (ok: bool)
      modifies this`segments
      ensures segments == Forwarded(old(segments)) && ok == (|old(segments)| > 0 && !AtRest(old(segments)))
    {
      if |segments| == 0 || segments[|segments| - 1].start == segments[|segments| - 1].end {
        return false;
      }
      var end := segments[|segments| - 1].end;
      segments := segments + [NewSegment(end, end)];
      ok := true;
    }

    method Trim() returns (ok: bool)
      modifies this`segments
      ensures segments == Trimmed(old(segments)) && ok == (|old(segments)| > 0 && AtRest(old(segments)))
    {
      if |segments| > 0 && segments[|segments| - 1].start == segments[|segments| - 1].end {
        segments := segments[..|segments| - 1];
        return true;
      }
      ok := false;
    }

    method PopBack()
      requires |segments| > 0
      modifies this`segments
      ensures segments == old(segments)[..|old(segments)| - 1]
    {
      segments := segments[..|segments| - 1];
    }

    method GetConfirmedPosition() returns (k: nat)
      ensures k == ConfirmedPosition(segments)
    {
      k := 0;
      for i := 0 to |segments|
        invariant k == ConfirmedPosition(segments[..i])
      {
        assert segments[..i + 1][..i] == segments[..i];
        if segments[i].status >= SELECTED {
          k := segments[i].end;
        }
      }
      assert segments[..|segments|] == segments;
    }
  }

  lemma KeptAreWithin(segs: seq<Segment>, n: nat, diff: nat)
    requires Tiles(segs) && n <= |segs|
    requires n > 0 ==> segs[n - 1].end <= diff
    ensures forall i :: 0 <= i < n ==> segs[i].end <= diff
  {
    forall i | 0 <= i < n
      ensures segs[i].end <= diff
    {
      TilesAscend(segs, i, n - 1);
    }
  }

  /** What is kept are the segments that end by `diff`. */
  ghost predicate KeepsWithin(before: seq<Segment>, diff: nat, kept: seq<Segment>) {
    && Tiles(kept) && EndOf(kept) <= diff
    && forall s :: s in kept <==> s in before && s.end <= diff
  }

  lemma PrefixIsKept(segs: seq<Segment>, n: nat, diff: nat)
    requires Tiles(segs)
    requires n <= |segs| && forall i :: 0 <= i < |segs| ==> (i < n <==> segs[i].end <= diff)
    ensures KeepsWithin(segs, diff, segs[..n])
  {
    TilesPrefix(segs, n);
    forall s | s in segs && s.end <= diff
      ensures s in segs[..n]
    {
      var i :| 0 <= i < |segs| && segs[i] == s;
      assert segs[..n][i] == s;
    }
  }

  ghost predicate IsReset(before: seq<Segment>, diff: nat, after: seq<Segment>) {
    && Tiles(after) && EndOf(after) <= diff
    && (forall s :: s in after && s != NewSegment(EndOf(after), EndOf(after)) ==> s in before && s.end <= diff)
    && (forall s :: s in before && s.end <= diff ==> s in after)
  }

  lemma PrefixIsReset(before: seq<Segment>, diff: nat, kept: seq<Segment>)
    requires KeepsWithin(before, diff, kept)
    ensures IsReset(before, diff, kept) && IsReset(before, diff, Forwarded(kept))
  {
    ForwardedTiles(kept);
    hide Tiles;
    assert forall s :: s in kept ==> s in Forwarded(kept);
  }

  /** How many segments end by `diff`, counted from the end. */
  function WithinCount(segs: seq<Segment>, diff: nat): (n: nat)
    ensures n <= |segs|
  {
    if |segs| > 0 && segs[|segs| - 1].end > diff then WithinCount(segs[..|segs| - 1], diff) else |segs|
  }

  /** What a reset leaves of the segments. */
  function Kept(before: seq<Segment>, diff: nat): seq<Segment> {
    var n := WithinCount(before, diff);
    if n == |before| then before else Forwarded(before[..n])
  }

  lemma {:induction false} WithinCountIs(segs: seq<Segment>, diff: nat)
    requires Tiles(segs)
    ensures forall i :: 0 <= i < |segs| ==> (i < WithinCount(segs, diff) <==> segs[i].end <= diff)
  {
    if |segs| > 0 {
      var n := |segs| - 1;
      if segs[n].end > diff {
        TilesPrefix(segs, n);
        WithinCountIs(segs[..n], diff);
        assert forall i :: 0 <= i < n ==> segs[..n][i] == segs[i];
      } else {
        forall i | 0 <= i < |segs|
          ensures segs[i].end <= diff
        {
          TilesAscend(segs, i, n);
        }
      }
    }
  }

  lemma KeptIsReset(before: seq<Segment>, diff: nat)
    requires Tiles(before)
    ensures ResetFrom(before, diff, Kept(before, diff))
  {
    WithinCountIs(before, diff);
    assert CutAt(before, diff, WithinCount(before, diff), Kept(before, diff));
  }

  lemma ResetIsKept(before: seq<Segment>, diff: nat, after: seq<Segment>)
    requires Tiles(before) && ResetFrom(before, diff, after)
    ensures after == Kept(before, diff)
  {
    WithinCountIs(before, diff);
    var n: nat :| CutAt(before, diff, n, after);
    var m := WithinCount(before, diff);
    var k := if m < n then m else n;
    if k < |before| { assert before[k].end <= diff <==> k < m; }
  }

  /** Main result: a reset keeps exactly the segments inside the part that both inputs share,
      apart from one fresh empty segment, and they still tile a prefix of the new input. */
  lemma ResetTiles(before: seq<Segment>, oldInput: string, newInput: string, after: seq<Segment>)
    requires Tiles(before) && EndOf(before) <= |oldInput|
    requires ResetFrom(before, CommonPrefix(oldInput, newInput), after)
    ensures IsReset(before, CommonPrefix(oldInput, newInput), after)
  {
    var diff := CommonPrefix(oldInput, newInput);
    var n: nat :| CutAt(before, diff, n, after);
    hide CommonPrefix, KeepsWithin, IsReset, Forwarded, Tiles;
    PrefixIsKept(before, n, diff);
    PrefixIsReset(before, diff, before[..n]);
    assert before[..|before|] == before;
  }
}
