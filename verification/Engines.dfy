/** The engine's segmentation loop: it ends, and divides the input up without gap or overlap. */
module Engines {
  import opened Segmentations
  import opened Segmentors
  import opened Rounds
  import opened ChosenSegments

  /** Lets one segmentor work on the current segment. */
  method Proceed(s: Segmentor, comp: Segmentation) returns (go: bool)
    requires comp.Valid()
    modifies comp`segments
    ensures Within(comp.input, old(comp.segments))
    ensures comp.segments == Outcome(s, comp.input, old(comp.segments))
    ensures go == GoesOn(s, comp.input, old(comp.segments))
    ensures Proceeded(s, comp.input, old(comp.segments), comp.segments, go)
  {
    hide Proceeded;
    OutcomeProceeds(s, comp.input, comp.segments);
    match s
    case Abc(_, _, _) => go := ProceedAbc(s, comp);
    case Affix(_, _, _, _, _, _) => go := ProceedAffix(s, comp);
    case Matcher(_) => go := ProceedMatcher(s, comp);
    case Ascii(_) => go := ProceedAscii(s, comp);
    case Punct(_) => go := ProceedPunct(s, comp);
    case Fallback => go := ProceedFallback(comp);
  }

  method Round(segmentors: seq<Segmentor>, comp: Segmentation)
    requires comp.Valid()
    modifies comp`segments
    ensures comp.Valid() && Within(comp.input, old(comp.segments))
    ensures comp.segments == AfterRound(segmentors, comp.input, old(comp.segments))
  {
    hide Tiles, AtRest, Outcome, GoesOn;
    ghost var before := comp.segments;
    var go := true;
    var i := 0;
    while i < |segmentors| && go
      invariant i <= |segmentors| && comp.Valid() && Within(comp.input, before)
      invariant AfterRound(segmentors, comp.input, before)
                == if go then AfterRound(segmentors[i..], comp.input, comp.segments) else comp.segments
    {
      assert segmentors[i..][1..] == segmentors[i + 1..];
      go := Proceed(segmentors[i], comp);
      i := i + 1;
    }
  }

  /** The loop ends, because a round either reaches farther or closes a segment. The segments
      tile the input as far as they reach; with the fallback as the last segmentor, they
      reach its end. */
  method CalculateSegmentation(segmentors: seq<Segmentor>, comp: Segmentation)
    requires comp.Valid()
    modifies comp`segments
    ensures comp.Valid() && Within(comp.input, old(comp.segments))
    ensures comp.segments == Finished(AfterLoop(segmentors, comp.input, old(comp.segments)))
    ensures EndOf(old(comp.segments)) <= EndOf(comp.segments)
    ensures EndsInFallback(segmentors) ==> EndOf(comp.segments) == |comp.input|
    ensures Settled(comp.segments)
    ensures Open(old(comp.segments)) ==> Open(comp.segments) && forall c :: Chosen(c) && c in old(comp.segments) ==>
              (c in comp.segments <==> !RoundReopens(segmentors, comp.input, old(comp.segments), c))
  {
    hide Tiles, AfterRound, Open, RoundReopens;
    ghost var before := comp.segments;
    if EndsInFallback(segmentors) { LoopReachesEnd(segmentors, comp.input, before); }
    var advancing := true;
    while advancing && !comp.HasFinishedSegmentation()
      invariant comp.Valid() && Within(comp.input, before)
      invariant AfterLoop(segmentors, comp.input, before)
                == if advancing then AfterLoop(segmentors, comp.input, comp.segments) else comp.segments
      decreases advancing, Left(comp.segments, |comp.input|)
    {
      var startPos := StartOf(comp.segments);
      ghost var was := comp.segments;
      TilesStart(was);
      Round(segmentors, comp);
      ForwardedTiles(comp.segments);
      if startPos == EndOf(comp.segments) {
        advancing := false;
      } else if !comp.HasFinishedSegmentation() {
        var _ := comp.Forward();
      }
    }
    Finish(comp);
    if Open(before) { AllSurvive(segmentors, comp.input, before); }
  }

  lemma AllSurvive(segmentors: seq<Segmentor>, input: string, before: seq<Segment>)
    requires Within(input, before) && Open(before)
    ensures var after := Finished(AfterLoop(segmentors, input, before));
            && Open(after)
            && forall c :: Chosen(c) && c in before ==> (c in after <==> !RoundReopens(segmentors, input, before, c))
  {
    hide Within, Open, RoundReopens, AfterLoop, Finished;
    StaysOpen(segmentors, input, before);
    forall c | Chosen(c) && c in before
      ensures c in Finished(AfterLoop(segmentors, input, before)) <==> !RoundReopens(segmentors, input, before, c)
    {
      ChosenSurvives(segmentors, input, before, c);
    }
  }

  /** No segment is empty, but for one that was opened after a confirmed one. */
  ghost predicate Settled(segs: seq<Segment>) {
    && (forall i :: 0 <= i < |segs| - 1 ==> segs[i].start < segs[i].end)
    && (AtRest(segs) ==> |segs| == 0 || (|segs| > 1 && segs[|segs| - 2].status >= SELECTED))
    && (|segs| > 0 && !AtRest(segs) ==> segs[|segs| - 1].status < SELECTED)
  }

  /** Drops an open segment with nothing in it, and opens one behind a last segment that is chosen. */
  method Finish(comp: Segmentation)
    requires comp.Valid()
    modifies comp`segments
    ensures comp.segments == Finished(old(comp.segments))
    ensures comp.Valid() && EndOf(comp.segments) == EndOf(old(comp.segments)) && Settled(comp.segments)
  {
    hide Settled, Tiles, EndOf, Forwarded, Trimmed;
    FinishedIsSettled(comp.segments);
    var _ := comp.Trim();
    if |comp.segments| > 0 && comp.segments[|comp.segments| - 1].status >= SELECTED {
      var _ := comp.Forward();
    }
  }

  lemma FinishedIsSettled(segs: seq<Segment>)
    requires Tiles(segs)
    ensures var after := Finished(segs); Tiles(after) && EndOf(after) == EndOf(segs) && Settled(after)
  {
    var rest := Trimmed(segs);
    TrimmedTiles(segs);
    ForwardedTiles(rest);
    hide Trimmed;
    if |rest| > 0 && rest[|rest| - 1].status >= SELECTED {
      SettledForward(rest);
    } else {
      SettledRest(rest);
    }
  }

  lemma SettledRest(rest: seq<Segment>)
    requires Tiles(rest) && (|rest| > 0 ==> !AtRest(rest) && rest[|rest| - 1].status < SELECTED)
    ensures Settled(rest)
  {
    forall i | 0 <= i < |rest| - 1
      ensures rest[i].start < rest[i].end
    {
    }
  }

  lemma SettledForward(rest: seq<Segment>)
    requires Tiles(rest) && |rest| > 0 && !AtRest(rest) && rest[|rest| - 1].status >= SELECTED
    ensures Settled(Forwarded(rest))
  {
    forall i | 0 <= i < |rest|
      ensures rest[i].start < rest[i].end
    {
    }
  }

  /** Adopts the active input and divides it up. */
  method Compose(segmentors: seq<Segmentor>, comp: Segmentation, activeInput: string)
    requires comp.Valid()
    modifies comp
    ensures comp.Valid() && comp.input == activeInput && Settled(comp.segments)
    ensures EndsInFallback(segmentors) ==> EndOf(comp.segments) == |activeInput|
    ensures var kept := Kept(old(comp.segments), CommonPrefix(old(comp.input), activeInput));
            Within(activeInput, kept) && comp.segments == Finished(AfterLoop(segmentors, activeInput, kept))
    ensures Open(old(comp.segments)) ==> Open(comp.segments) && forall c :: Chosen(c) && c in old(comp.segments) ==>
              (c in comp.segments <==>
                 && c.end <= CommonPrefix(old(comp.input), activeInput)
                 && !Reopened(segmentors, old(comp.segments), old(comp.input), activeInput, c))
  {
    hide CommonPrefix, Open, RoundReopens, AfterLoop, Finished, Kept, Settled;
    ghost var before, oldInput := comp.segments, comp.input;
    comp.Reset(activeInput);
    ResetIsKept(before, CommonPrefix(oldInput, activeInput), comp.segments);
    ResetTiles(before, oldInput, activeInput, comp.segments);
    CalculateSegmentation(segmentors, comp);
    if Open(before) { ChosenAcross(segmentors, before, oldInput, activeInput, comp.segments); }
  }

  /** What becomes of the choices from one input to the next. */
  lemma ChosenAcross(segmentors: seq<Segmentor>, before: seq<Segment>, oldInput: string, input: string, after: seq<Segment>)
    requires Tiles(before) && EndOf(before) <= |oldInput| && Open(before)
    requires var kept := Kept(before, CommonPrefix(oldInput, input));
             Within(input, kept) && after == Finished(AfterLoop(segmentors, input, kept))
    ensures Open(after)
    ensures forall c :: Chosen(c) && c in before ==>
              (c in after <==> c.end <= CommonPrefix(oldInput, input) && !Reopened(segmentors, before, oldInput, input, c))
  {
    hide Tiles, Within, CommonPrefix, Kept, Open, RoundReopens, AfterLoop, Finished;
    var kept := Kept(before, CommonPrefix(oldInput, input));
    ResetKeepsChosen(before, oldInput, input, NewSegment(0, 0));
    StaysOpen(segmentors, input, kept);
    forall c | Chosen(c) && c in before
      ensures c in after <==> c.end <= CommonPrefix(oldInput, input) && !Reopened(segmentors, before, oldInput, input, c)
    {
      ResetKeepsChosen(before, oldInput, input, c);
      LoopKeeps(segmentors, input, kept, c);
      AfterLoopWithin(segmentors, input, kept);
      FinishedKeeps(AfterLoop(segmentors, input, kept), c);
    }
  }

  lemma AfterLoopWithin(segmentors: seq<Segmentor>, input: string, before: seq<Segment>)
    requires Within(input, before)
    ensures Tiles(AfterLoop(segmentors, input, before))
  {
  }

  /** A whole run in which a confirmed segment is opened again: "a" is typed and confirmed, and then
      "b" is typed behind it. */
  method ConfirmAndGoOn() returns (comp: Segmentation, confirmed: Segment)
    ensures fresh(comp) && Chosen(confirmed) && confirmed.end == 1 && comp.input == "ab"
    ensures confirmed !in comp.segments && comp.segments == [NewSegment(0, 2).(tags := {"raw"})]
  {
    hide *;
    comp := ConfirmOneLetter();
    confirmed := comp.segments[0];
    FallbackReopensRaw();
    Compose([Fallback], comp, "ab");
  }

  /** Types "a" and confirms it. */
  method ConfirmOneLetter() returns (comp: Segmentation)
    ensures fresh(comp) && comp.Valid() && comp.input == "a"
    ensures comp.segments == [NewSegment(0, 1).(tags := {"raw"}, status := CONFIRMED), NewSegment(1, 1)]
    ensures Chosen(comp.segments[0]) && comp.segments[0].end == 1 && comp.segments[0] != NewSegment(0, 2).(tags := {"raw"})
  {
    hide *;
    comp := TypeOneLetter();
    ConfirmRaw(comp);
  }

  method TypeOneLetter() returns (comp: Segmentation)
    ensures fresh(comp) && comp.input == "a" && comp.segments == [NewSegment(0, 1).(tags := {"raw"})]
  {
    comp := new Segmentation();
    FirstIsRaw();
    hide Finished, AfterLoop, Kept, Within, Settled, Reopened, Chosen, CommonPrefix, Open;
    Compose([Fallback], comp, "a");
  }

  /** Confirms the only segment, and goes on behind it. */
  method ConfirmRaw(comp: Segmentation)
    requires comp.segments == [NewSegment(0, 1).(tags := {"raw"})] && comp.input == "a"
    modifies comp`segments
    ensures comp.Valid()
    ensures comp.segments == [NewSegment(0, 1).(tags := {"raw"}, status := CONFIRMED), NewSegment(1, 1)]
    ensures Chosen(comp.segments[0]) && comp.segments[0].end == 1 && comp.segments[0] != NewSegment(0, 2).(tags := {"raw"})
  {
    comp.segments := [comp.segments[0].(status := CONFIRMED)];
    var _ := comp.Forward();
  }
}
