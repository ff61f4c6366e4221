/** What the segmentors make of a list of segments when they work in turn, round by round. */
module Rounds {
  import opened Segmentations
  import opened Segmentors

  /** The segments tile the input as far as they reach. */
  ghost predicate Within(input: string, segs: seq<Segment>) {
    Tiles(segs) && EndOf(segs) <= |input|
  }

  /** What one segmentor makes of the segments. */
  ghost function Outcome(s: Segmentor, input: string, before: seq<Segment>): seq<Segment>
    requires Within(input, before)
  {
    match s
    case Abc(_, _, _) => AbcOutcome(s, input, before)
    case Affix(_, _, _, _, _, _) => AffixOutcome(s, input, before)
    case Matcher(_) => MatcherProceeds(s, input, before); MatcherOutcome(s, input, before)
    case Ascii(_) => AsciiOutcome(s, input, before)
    case Punct(_) => PunctOutcome(s, input, before)
    case Fallback => FallbackOutcome(input, before)
  }

  /** Whether the next segmentor is to be asked, too. */
  ghost predicate GoesOn(s: Segmentor, input: string, before: seq<Segment>)
    requires Within(input, before)
  {
    match s
    case Abc(_, _, _) => true
    case Affix(_, _, _, _, _, _) => !AffixSplits(s, input, before)
    case Matcher(_) => true
    case Ascii(_) => !s.asciiMode
    case Punct(_) => StartOf(before) < |input| && !IsPunct(s, input[StartOf(before)])
    case Fallback => false
  }

  lemma OutcomeProceeds(s: Segmentor, input: string, before: seq<Segment>)
    requires Within(input, before)
    ensures Proceeded(s, input, before, Outcome(s, input, before), GoesOn(s, input, before))
  {
    match s
    case Abc(_, _, _) => AbcProceeds(s, input, before);
    case Affix(_, _, _, _, _, _) => AffixProceeds(s, input, before);
    case Matcher(_) => MatcherProceeds(s, input, before);
    case Ascii(_) => AsciiProceeds(s, input, before);
    case Punct(_) => PunctProceeds(s, input, before);
    case Fallback => FallbackProceeds(input, before);
  }

  /** The fallback segmentor is the last to be called. */
  ghost predicate EndsInFallback(segmentors: seq<Segmentor>) {
    |segmentors| > 0 && segmentors[|segmentors| - 1].Fallback?
  }

  /** One round: the segmentors in turn, until one says that it is enough. */
  ghost function AfterRound(segmentors: seq<Segmentor>, input: string, before: seq<Segment>): (after: seq<Segment>)
    requires Within(input, before)
    ensures Within(input, after) && EndOf(before) <= EndOf(after)
  {
    if |segmentors| == 0 then before
    else
      OutcomeProceeds(segmentors[0], input, before);
      var after := Outcome(segmentors[0], input, before);
      if GoesOn(segmentors[0], input, before) then AfterRound(segmentors[1..], input, after) else after
  }

  /** A round that finds nothing changes nothing; it finds something if the fallback is there. */
  lemma {:induction false} RoundAdvances(segmentors: seq<Segmentor>, input: string, before: seq<Segment>)
    requires Within(input, before) && AtRest(before) && EndOf(before) < |input|
    ensures EndOf(AfterRound(segmentors, input, before)) == EndOf(before) ==>
              AfterRound(segmentors, input, before) == before && !EndsInFallback(segmentors)
  {
    if |segmentors| > 0 {
      OutcomeProceeds(segmentors[0], input, before);
      hide Tiles, AtRest, Outcome, GoesOn;
      if Outcome(segmentors[0], input, before) == before && GoesOn(segmentors[0], input, before) {
        RoundAdvances(segmentors[1..], input, before);
      }
    }
  }

  /** What is left to do: input not reached, and whether a segment is still open. */
  function Left(segs: seq<Segment>, length: nat): int {
    2 * (length - EndOf(segs)) + (if AtRest(segs) then 0 else 1)
  }

  /** Rounds until the input is divided up, or one finds nothing; each but the last opens the
      next segment. */
  ghost function AfterLoop(segmentors: seq<Segmentor>, input: string, before: seq<Segment>): (after: seq<Segment>)
    requires Within(input, before)
    ensures Within(input, after) && EndOf(before) <= EndOf(after)
    decreases Left(before, |input|)
  {
    if EndOf(before) >= |input| then before
    else
      var round := AfterRound(segmentors, input, before);
      ForwardedTiles(round);
      TilesStart(before);
      if EndOf(round) == StartOf(before) then round
      else AfterLoop(segmentors, input, if EndOf(round) < |input| then Forwarded(round) else round)
  }

  /** The loop only stops short of the end of the input without the fallback. */
  lemma {:induction false} LoopReachesEnd(segmentors: seq<Segmentor>, input: string, before: seq<Segment>)
    requires Within(input, before) && EndsInFallback(segmentors)
    ensures EndOf(AfterLoop(segmentors, input, before)) == |input|
    decreases Left(before, |input|)
  {
    if EndOf(before) < |input| {
      var round := AfterRound(segmentors, input, before);
      ForwardedTiles(round);
      TilesStart(before);
      if AtRest(before) { RoundAdvances(segmentors, input, before); }
      hide EndsInFallback, Tiles;
      LoopReachesEnd(segmentors, input, if EndOf(round) < |input| then Forwarded(round) else round);
    }
  }

  /** What is left at the end: no open segment, but for one behind a last segment that is chosen. */
  function Finished(segs: seq<Segment>): seq<Segment> {
    var rest := Trimmed(segs);
    if |rest| > 0 && rest[|rest| - 1].status >= SELECTED then Forwarded(rest) else rest
  }
}
