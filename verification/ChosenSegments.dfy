/** What becomes of the segments the user has chosen when the input is divided up again. */
module ChosenSegments {
  import opened Commons
  import opened Segmentations
  import opened Segmentors
  import opened Rounds

  predicate Chosen(c: Segment) {
    c.status >= SELECTED && c.start < c.end
  }

  /** Nothing in the current segment has been chosen yet. */
  predicate Open(segs: seq<Segment>) {
    |segs| > 0 && !AtRest(segs) ==> segs[|segs| - 1].status < SELECTED
  }

  /** The fallback would go on with segment `c`: it is raw, and there is nothing behind it yet but
      more input. */
  ghost predicate Reopens(input: string, segs: seq<Segment>, c: Segment) {
    && AtRest(segs) && EndOf(segs) < |input|
    && |Trimmed(segs)| > 0 && Trimmed(segs)[|Trimmed(segs)| - 1] == c && c.HasTag("raw")
  }

  // ----- one segmentor -----

  /** The fallback keeps a chosen segment exactly if it does not go on with it. */
  lemma FallbackKeepsExactly(input: string, before: seq<Segment>, c: Segment)
    requires Within(input, before) && c in before && Chosen(c)
    ensures c in FallbackOutcome(input, before) <==> !Reopens(input, before, c)
  {
    var i :| 0 <= i < |before| && before[i] == c;
    var rest := Trimmed(before);
    assert i < |rest| && rest[i] == c;
    if Reopens(input, before, c) {
      forall j | 0 <= j < |rest| - 1
        ensures rest[j] != c
      {
        TilesAscend(before, j, |rest| - 1);
      }
    } else if AtRest(before) && EndOf(before) < |input| && rest[|rest| - 1].HasTag("raw") {
      assert i < |rest| - 1 && rest[..|rest| - 1][i] == c;
    }
  }

  /** Adding a segment keeps those before the current one, and chooses none. */
  lemma AddedKeepsChosen(segs: seq<Segment>, s: Segment)
    requires Tiles(segs) && Open(segs) && s.status < SELECTED && s.start < s.end
    ensures Open(Added(segs, s)) && (Added(segs, s) == segs || !AtRest(Added(segs, s)))
    ensures s.start == StartOf(segs) ==> !AtRest(Added(segs, s))
    ensures forall c :: Chosen(c) ==> (c in Added(segs, s) <==> c in segs)
  {
    forall c | Chosen(c)
      ensures c in Added(segs, s) <==> c in segs
    {
      if i :| 0 <= i < |segs| && segs[i] == c && Added(segs, s) != segs { assert Added(segs, s)[i] == c; }
    }
  }

  lemma PoppedIsOpen(segs: seq<Segment>, start: nat)
    requires Tiles(segs) && Open(segs) && ConfirmedPosition(segs) <= start
    requires start == EndOf(segs) || StartsASegment(segs, start)
    ensures Open(PoppedTo(segs, start))
    ensures forall c :: Chosen(c) ==> (c in PoppedTo(segs, start) <==> c in segs)
    ensures start == EndOf(segs) ==> PoppedTo(segs, start) == segs
    ensures start != EndOf(segs) ==> StartOf(PoppedTo(segs, start)) == start
  {
    var left := PoppedTo(segs, start);
    PoppedToTiles(segs, start);
    if start != EndOf(segs) { PoppedToStart(segs, start); }
    forall i | 0 <= i < |segs| && Chosen(segs[i])
      ensures segs[i].end <= start && i < |left| && (i == |left| - 1 ==> false)
    {
      ConfirmedWithin(segs);
      assert left[i] == segs[i];
    }
  }

  /** A segmentor other than the fallback neither takes a choice back nor makes one; if it
      changes anything, there is something in the current segment afterwards. */
  ghost predicate KeepsChoices(before: seq<Segment>, after: seq<Segment>) {
    && Open(after) && (after == before || !AtRest(after))
    && forall c :: Chosen(c) ==> (c in after <==> c in before)
  }

  lemma AffixKeeps(s: Segmentor, input: string, before: seq<Segment>)
    requires s.Affix? && Within(input, before) && Open(before)
    ensures KeepsChoices(before, AffixOutcome(s, input, before))
  {
    TilesStart(before);
    if AffixApplies(s, input, before) {
      hide Tiles, KeepsChoices, AffixParts;
      var init, last := before[..|before| - 1], before[|before| - 1];
      var parts := AffixSplitsInto(s, input, before);
      PartsKeep(init, last, parts);
      assert before == init + [last];
    } else {
      SameKeeps(before);
    }
  }

  lemma AffixSplitsInto(s: Segmentor, input: string, before: seq<Segment>) returns (parts: seq<Segment>)
    requires s.Affix? && Within(input, before) && Open(before)
    requires StartOf(before) <= EndOf(before) && AffixApplies(s, input, before)
    ensures before[|before| - 1].status < SELECTED
    ensures AffixOutcome(s, input, before) == before[..|before| - 1] + parts
    ensures |parts| > 0 && parts[|parts| - 1].start < parts[|parts| - 1].end
    ensures forall i :: 0 <= i < |parts| ==> parts[i].status < SELECTED
  {
    hide Tiles, StartsWith, EndsWith;
    parts := AffixOutcome(s, input, before)[|before| - 1..];
  }

  /** Parts take the place of the current segment. */
  lemma PartsKeep(init: seq<Segment>, last: Segment, parts: seq<Segment>)
    requires last.status < SELECTED && |parts| > 0 && parts[|parts| - 1].start < parts[|parts| - 1].end
    requires forall i :: 0 <= i < |parts| ==> parts[i].status < SELECTED
    ensures KeepsChoices(init + [last], init + parts)
  {
    assert (init + parts)[|init + parts| - 1] == parts[|parts| - 1];
    assert forall c :: c in init + parts <==> c in init || c in parts;
  }

  lemma MatcherKeeps(s: Segmentor, input: string, before: seq<Segment>)
    requires s.Matcher? && Within(input, before) && Open(before)
    ensures ConfirmedPosition(before) <= |input| && KeepsChoices(before, MatcherOutcome(s, input, before))
  {
    MatcherProceeds(s, input, before);
    MatchIsAligned(s.patterns, input, before);
    var m := MatchOf(s.patterns, input, before);
    hide Tiles, Open, StartsASegment, MatchOf, PoppedTo, Added, KeepsChoices, Proceeded, ConfirmedPosition;
    if m.Found? && m.start < m.end {
      FoundKeeps(before, NewSegment(m.start, m.end).(tags := {m.tag}));
    } else {
      SameKeeps(before);
    }
  }

  lemma SameKeeps(segs: seq<Segment>)
    requires Open(segs)
    ensures KeepsChoices(segs, segs)
  {
  }

  lemma FoundKeeps(segs: seq<Segment>, s: Segment)
    requires Tiles(segs) && Open(segs) && ConfirmedPosition(segs) <= s.start && s.status < SELECTED && s.start < s.end
    requires s.start == EndOf(segs) || StartsASegment(segs, s.start)
    ensures KeepsChoices(segs, Added(PoppedTo(segs, s.start), s))
  {
    PoppedToTiles(segs, s.start);
    PoppedIsOpen(segs, s.start);
    AddedKeepsChosen(PoppedTo(segs, s.start), s);
    hide Tiles, Open, AtRest, StartsASegment, PoppedTo, ConfirmedPosition, Added;
  }

  lemma AddedKeeps(segs: seq<Segment>, s: Segment)
    requires Tiles(segs) && Open(segs) && s.start == StartOf(segs) && s.status < SELECTED && s.start < s.end
    ensures KeepsChoices(segs, Added(segs, s))
  {
    hide Added, Tiles, Open, AtRest;
    AddedKeepsChosen(segs, s);
  }

  lemma OutcomeKeeps(s: Segmentor, input: string, before: seq<Segment>)
    requires Within(input, before) && Open(before) && !s.Fallback?
    ensures KeepsChoices(before, Outcome(s, input, before))
  {
    hide Tiles, Open, Added, KeepsChoices, AffixOutcome, MatcherOutcome;
    TilesStart(before);
    SameKeeps(before);
    var j := StartOf(before);
    match s
    case Abc(_, _, _) =>
      var k := RunEnd(input, j, j, s.alphabet, s.delimiter);
      if j < k { AddedKeeps(before, NewSegment(j, k).(tags := {"abc"} + s.extraTags)); }
    case Affix(_, _, _, _, _, _) => AffixKeeps(s, input, before);
    case Matcher(_) => MatcherKeeps(s, input, before);
    case Ascii(_) =>
      if j < |input| { AddedKeeps(before, NewSegment(j, |input|).(tags := {"raw"})); }
    case Punct(_) =>
      if j < |input| { AddedKeeps(before, NewSegment(j, j + 1).(tags := {"punct"})); }
    case Fallback =>
  }

  lemma FallbackIsOpen(input: string, before: seq<Segment>)
    requires Within(input, before) && Open(before)
    ensures var after := FallbackOutcome(input, before);
            && Open(after) && (after == before || !AtRest(after))
            && forall c :: Chosen(c) && c in after ==> c in before
  {
  }

  // ----- one round -----

  /** What the fallback finds when it is its turn, if it gets one. */
  ghost function FallbackSees(segmentors: seq<Segmentor>, input: string, before: seq<Segment>): Option<seq<Segment>>
    requires Within(input, before)
  {
    if |segmentors| == 0 then None
    else if segmentors[0].Fallback? then Some(before)
    else
      OutcomeProceeds(segmentors[0], input, before);
      if GoesOn(segmentors[0], input, before)
      then FallbackSees(segmentors[1..], input, Outcome(segmentors[0], input, before)) else None
  }

  /** No segmentor before the fallback finds anything, and the fallback goes on with `c`. */
  ghost predicate RoundReopens(segmentors: seq<Segmentor>, input: string, before: seq<Segment>, c: Segment)
    requires Within(input, before)
  {
    FallbackSees(segmentors, input, before) == Some(before) && Reopens(input, before, c)
  }

  lemma {:induction false} SeesIsOpen(segmentors: seq<Segmentor>, input: string, before: seq<Segment>)
    requires Within(input, before) && Open(before) && FallbackSees(segmentors, input, before).Some?
    ensures FallbackSees(segmentors, input, before).value == before || !AtRest(FallbackSees(segmentors, input, before).value)
  {
    if !segmentors[0].Fallback? {
      OutcomeProceeds(segmentors[0], input, before);
      OutcomeKeeps(segmentors[0], input, before);
      hide Outcome, GoesOn, Open, Tiles;
      SeesIsOpen(segmentors[1..], input, Outcome(segmentors[0], input, before));
    }
  }

  /** Main result for a round: a chosen segment is kept exactly if it is not reopened. */
  lemma {:induction false} RoundKeeps(segmentors: seq<Segmentor>, input: string, before: seq<Segment>, c: Segment)
    requires Within(input, before) && Open(before) && Chosen(c)
    ensures var after := AfterRound(segmentors, input, before);
            && Open(after) && (after == before || !AtRest(after))
            && (c in after ==> c in before)
            && (c in before ==> (c in after <==>
                  !(FallbackSees(segmentors, input, before).Some? && Reopens(input, FallbackSees(segmentors, input, before).value, c))))
  {
    if |segmentors| > 0 {
      OutcomeProceeds(segmentors[0], input, before);
      if segmentors[0].Fallback? {
        FallbackIsOpen(input, before);
        if c in before { FallbackKeepsExactly(input, before, c); }
      } else {
        OutcomeKeeps(segmentors[0], input, before);
        hide Outcome, GoesOn, Open, Tiles, Reopens;
        RoundKeeps(segmentors[1..], input, Outcome(segmentors[0], input, before), c);
      }
    }
  }

  lemma RoundKeepsExactly(segmentors: seq<Segmentor>, input: string, before: seq<Segment>, c: Segment)
    requires Within(input, before) && Open(before) && Chosen(c) && c in before
    ensures c in AfterRound(segmentors, input, before) <==> !RoundReopens(segmentors, input, before, c)
  {
    RoundKeeps(segmentors, input, before, c);
    if FallbackSees(segmentors, input, before).Some? { SeesIsOpen(segmentors, input, before); }
  }

  // ----- the whole loop -----

  /** Main result: of the segments the user has chosen the loop keeps all but one that the first
      round reopens. */
  lemma {:induction false} LoopKeeps(segmentors: seq<Segmentor>, input: string, before: seq<Segment>, c: Segment)
    requires Within(input, before) && Open(before) && Chosen(c)
    ensures Open(AfterLoop(segmentors, input, before))
    ensures c in AfterLoop(segmentors, input, before) <==> c in before && !RoundReopens(segmentors, input, before, c)
    decreases Left(before, |input|)
  {
    if EndOf(before) < |input| {
      var round := AfterRound(segmentors, input, before);
      RoundKeeps(segmentors, input, before, c);
      if c in before { RoundKeepsExactly(segmentors, input, before, c); }
      ForwardedTiles(round);
      TilesStart(before);
      if EndOf(round) != StartOf(before) {
        var next := if EndOf(round) < |input| then Forwarded(round) else round;
        LoopKeeps(segmentors, input, next, c);
        NotReopenedAgain(input, round, c);
      }
    }
  }

  /** Once a round has found something, what it found stands between the choices and the fallback. */
  lemma NotReopenedAgain(input: string, round: seq<Segment>, c: Segment)
    requires Within(input, round) && Open(round) && !AtRest(round) && Chosen(c)
    ensures Open(Forwarded(round)) && (c in Forwarded(round) <==> c in round)
    ensures !Reopens(input, Forwarded(round), c)
  {
    if |round| > 0 { assert Trimmed(Forwarded(round)) == round; }
  }

  lemma FinishedKeeps(segs: seq<Segment>, c: Segment)
    requires Tiles(segs) && Open(segs) && Chosen(c)
    ensures Open(Finished(segs)) && (c in Finished(segs) <==> c in segs)
  {
    var rest := Trimmed(segs);
    if rest != segs { assert segs == rest + [segs[|segs| - 1]]; }
  }

  /** Main result: dividing the input up keeps a chosen segment if and only if it is not a raw
      one with nothing behind it, whose continuation no segmentor before the fallback takes. */
  lemma ChosenSurvives(segmentors: seq<Segmentor>, input: string, before: seq<Segment>, c: Segment)
    requires Within(input, before) && Open(before) && Chosen(c) && c in before
    ensures c in Finished(AfterLoop(segmentors, input, before)) <==> !RoundReopens(segmentors, input, before, c)
    ensures Open(Finished(AfterLoop(segmentors, input, before)))
  {
    LoopKeeps(segmentors, input, before, c);
    FinishedKeeps(AfterLoop(segmentors, input, before), c);
  }

  lemma StaysOpen(segmentors: seq<Segmentor>, input: string, before: seq<Segment>)
    requires Within(input, before) && Open(before)
    ensures Open(Finished(AfterLoop(segmentors, input, before)))
  {
    var any := NewSegment(0, 1).(status := CONFIRMED);
    LoopKeeps(segmentors, input, before, any);
    FinishedKeeps(AfterLoop(segmentors, input, before), any);
  }

  /** A reset keeps a choice exactly if it lies within the common part of the inputs. */
  lemma ResetKeepsChosen(before: seq<Segment>, oldInput: string, newInput: string, c: Segment)
    requires Tiles(before) && EndOf(before) <= |oldInput| && Open(before)
    ensures var kept := Kept(before, CommonPrefix(oldInput, newInput));
            && Within(newInput, kept) && Open(kept)
            && (Chosen(c) ==> (c in kept <==> c in before && c.end <= CommonPrefix(oldInput, newInput)))
  {
    var diff := CommonPrefix(oldInput, newInput);
    var kept := Kept(before, diff);
    KeptIsReset(before, diff);
    ResetTiles(before, oldInput, newInput, kept);
  }

  /** A new input reopens `c`, of those the user has chosen within the common part. */
  ghost predicate Reopened(segmentors: seq<Segmentor>, before: seq<Segment>, oldInput: string, newInput: string, c: Segment)
    requires Tiles(before) && EndOf(before) <= |oldInput|
  {
    var kept := Kept(before, CommonPrefix(oldInput, newInput));
    Within(newInput, kept) && RoundReopens(segmentors, newInput, kept, c)
  }

  /** It does happen: with the fallback alone, confirmed raw input is opened again when more is
      typed behind it. */
  lemma FallbackReopensRaw()
    ensures var confirmed := NewSegment(0, 1).(tags := {"raw"}, status := CONFIRMED);
            var before := [confirmed, NewSegment(1, 1)];
            && Within("ab", before) && Open(before) && RoundReopens([Fallback], "ab", before, confirmed)
            && Kept(before, CommonPrefix("a", "ab")) == before
            && Finished(AfterLoop([Fallback], "ab", before)) == [NewSegment(0, 2).(tags := {"raw"})]
  {
    var confirmed := NewSegment(0, 1).(tags := {"raw"}, status := CONFIRMED);
    var before := [confirmed, NewSegment(1, 1)];
    assert Trimmed(before) == [confirmed];
    CommonPrefixIs("a", "ab", 1);
    assert AfterRound([Fallback], "ab", before) == FallbackOutcome("ab", before);
  }

  /** At first the fallback alone makes one raw segment of one letter. */
  lemma FirstIsRaw()
    ensures Kept([], CommonPrefix("", "a")) == [] && Within("a", [])
    ensures Finished(AfterLoop([Fallback], "a", [])) == [NewSegment(0, 1).(tags := {"raw"})]
  {
    assert AfterRound([Fallback], "a", []) == FallbackOutcome("a", []);
  }
}
