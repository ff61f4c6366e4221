/** What the segmentors and the operations on segments do, written out on segments and letters. */
module SegmentorLaws {
  import opened Commons
  import opened Segmentations
  import opened Segmentors
  import opened Rounds

  // ----- segments -----

  lemma StatusesAscend()
    ensures VOID == 0 && GUESS == 1 && SELECTED == 2 && CONFIRMED == 3
  {
  }

  /** A new segment has no tags, no menu and no choice; a cleared one keeps its place alone. */
  lemma NewTells(s: Segment, start: nat, end: nat)
    ensures NewSegment(start, end) == Segment(VOID, start, end, {}, false, 0, "")
    ensures s.Cleared() == Segment(VOID, s.start, s.end, {}, false, 0, "")
  {
  }

  /** Adding a segment: only at the start of the last one; the longer prevails; equal ones share their
      tags. */
  lemma AddedTells(segs: seq<Segment>, s: Segment)
    ensures segs == [] && s.start == 0 ==> Added(segs, s) == [s]
    ensures segs == [] && s.start != 0 ==> Added(segs, s) == []
    ensures segs != [] ==>
              var n, after := |segs| - 1, Added(segs, s);
              && |after| == n + 1 && after[..n] == segs[..n]
              && (s.start != segs[n].start || s.end < segs[n].end ==> after[n] == segs[n])
              && (s.start == segs[n].start && s.end > segs[n].end ==> after[n] == s)
              && (s.start == segs[n].start && s.end == segs[n].end ==>
                    && (forall t :: t in after[n].tags <==> t in segs[n].tags || t in s.tags)
                    && after[n].(tags := segs[n].tags) == segs[n])
  {
  }

  /** Opening a segment behind the last one, and taking an empty one away. */
  lemma ForwardedTells(segs: seq<Segment>)
    ensures segs != [] && segs[|segs| - 1].start != segs[|segs| - 1].end ==>
              Forwarded(segs) == segs + [Segment(VOID, segs[|segs| - 1].end, segs[|segs| - 1].end, {}, false, 0, "")] && Trimmed(segs) == segs
    ensures segs == [] || segs[|segs| - 1].start == segs[|segs| - 1].end ==> Forwarded(segs) == segs
    ensures segs != [] && segs[|segs| - 1].start == segs[|segs| - 1].end ==> Trimmed(segs) == segs[..|segs| - 1]
    ensures segs == [] ==> Trimmed(segs) == []
  {
  }

  /** The confirmed position is the end of the last chosen segment, or the start. */
  lemma {:induction false} ConfirmedExactly(segs: seq<Segment>)
    ensures (ConfirmedPosition(segs) == 0 && forall i :: 0 <= i < |segs| ==> segs[i].status < SELECTED)
            || exists i :: IsLastChosen(segs, i) && segs[i].end == ConfirmedPosition(segs)
  {
    if |segs| > 0 {
      var init := segs[..|segs| - 1];
      if segs[|segs| - 1].status >= SELECTED {
        assert IsLastChosen(segs, |segs| - 1);
      } else {
        assert ConfirmedPosition(segs) == ConfirmedPosition(init);
        hide ConfirmedPosition;
        ConfirmedExactly(init);
        if i :| IsLastChosen(init, i) && init[i].end == ConfirmedPosition(init) {
          assert segs[i] == init[i] && IsLastChosen(segs, i);
        } else {
          assert forall i :: 0 <= i < |segs| - 1 ==> segs[i] == init[i];
        }
      }
    }
  }

  ghost predicate IsLastChosen(segs: seq<Segment>, i: int) {
    0 <= i < |segs| && segs[i].status >= SELECTED && forall j :: i < j < |segs| ==> segs[j].status < SELECTED
  }

  // ----- segmentors -----

  /** Letters of the alphabet and, but for the first place, delimiters. */
  ghost predicate IsRun(s: Segmentor, input: string, j: nat, k: nat)
    requires s.Abc?
  {
    && j <= k <= |input|
    && (forall i :: j <= i < k ==> input[i] in s.alphabet || (i > j && input[i] in s.delimiter))
    && (k < |input| ==> input[k] !in s.alphabet && (k > j ==> input[k] !in s.delimiter))
  }

  lemma AbcIs(s: Segmentor, input: string, before: seq<Segment>)
    requires s.Abc? && StartOf(before) <= |input|
    ensures var k := RunEnd(input, StartOf(before), StartOf(before), s.alphabet, s.delimiter);
            AbcOutcome(s, input, before)
            == if k == StartOf(before) then before
               else Added(before, Segment(VOID, StartOf(before), k, {"abc"} + s.extraTags, false, 0, ""))
  {
  }

  /** The longest run of code letters from the current start becomes a segment, if there is any. */
  lemma AbcTells(s: Segmentor, input: string, before: seq<Segment>) returns (k: nat)
    requires s.Abc? && StartOf(before) <= |input|
    ensures IsRun(s, input, StartOf(before), k)
    ensures AbcOutcome(s, input, before)
            == if k == StartOf(before) then before
               else Added(before, Segment(VOID, StartOf(before), k, {"abc"} + s.extraTags, false, 0, ""))
  {
    var j := StartOf(before);
    k := RunEnd(input, j, j, s.alphabet, s.delimiter);
    hide RunEnd, AbcOutcome, Added;
    forall i | j <= i < k
      ensures input[i] in s.alphabet || (i > j && input[i] in s.delimiter)
    {
      assert IsCodeChar(input, j, i, s.alphabet, s.delimiter);
    }
    assert k < |input| ==> !IsCodeChar(input, j, k, s.alphabet, s.delimiter);
    AbcIs(s, input, before);
  }

  /** In ascii mode, what is left of the input becomes raw. */
  lemma AsciiTells(s: Segmentor, input: string, before: seq<Segment>)
    requires s.Ascii?
    ensures AsciiOutcome(s, input, before)
            == if s.asciiMode && StartOf(before) < |input|
               then Added(before, Segment(VOID, StartOf(before), |input|, {"raw"}, false, 0, "")) else before
  {
  }

  /** One printable letter that is defined as punctuation becomes a segment. */
  lemma PunctTells(s: Segmentor, input: string, before: seq<Segment>)
    requires s.Punct?
    ensures var k := StartOf(before);
            PunctOutcome(s, input, before)
            == if k < |input| && 0x20 <= input[k] as int < 0x7F && input[k] in s.defined
               then Added(before, Segment(VOID, k, k + 1, {"punct"}, false, 0, "")) else before
  {
  }

  /** The fallback makes one more letter raw: with the raw segment before it, or by itself. */
  lemma FallbackTells(input: string, before: seq<Segment>)
    ensures EndOf(before) > StartOf(before) || StartOf(before) == |input| ==> FallbackOutcome(input, before) == before
    ensures EndOf(before) <= StartOf(before) && StartOf(before) != |input| ==>
              var rest, after, k := Trimmed(before), FallbackOutcome(input, before), StartOf(before);
              if rest != [] && "raw" in rest[|rest| - 1].tags
              then after == rest[..|rest| - 1] + [Segment(VOID, rest[|rest| - 1].start, k + 1, {"raw"}, false, 0, "")]
              else after == rest + [Segment(VOID, k, k + 1, {"raw"}, false, 0, "")]
  {
  }

  /** A tagged segment that is the prefix and nothing else changes its tag; one that begins with the
      prefix is split, and only its code keeps the tag. */
  lemma AffixTells(s: Segmentor, input: string, before: seq<Segment>)
    requires s.Affix? && Tiles(before) && EndOf(before) <= |input|
    ensures StartOf(before) <= EndOf(before)
    ensures before == [] || s.tag !in before[|before| - 1].tags || s.prefix == "" || !(s.prefix <= input[StartOf(before)..EndOf(before)])
            ==> AffixOutcome(s, input, before) == before
    ensures before != [] && s.tag in before[|before| - 1].tags && s.prefix != "" && input[StartOf(before)..EndOf(before)] == s.prefix
            ==> var last, after := before[|before| - 1], AffixOutcome(s, input, before);
                after == before[..|before| - 1] + [last.(tags := last.tags - {s.tag} + {s.tag + "_prefix"}, prompt := s.tips)]
  {
    TilesStart(before);
    if before != [] && s.tag in before[|before| - 1].tags && s.prefix != "" && input[StartOf(before)..EndOf(before)] == s.prefix {
      assert EndOf(before) - StartOf(before) == |s.prefix|;
    }
  }

  /** Where the suffix of a split starts, if it ends in one. */
  ghost function SuffixAt(s: Segmentor, input: string, middle: nat, k: nat): nat
    requires s.Affix? && middle <= k <= |input|
  {
    if s.suffix != "" && |s.suffix| <= k - middle && input[k - |s.suffix|..k] == s.suffix then k - |s.suffix| else k
  }

  lemma SuffixTells(s: Segmentor, input: string, middle: nat, k: nat)
    requires s.Affix? && middle <= k <= |input|
    ensures SuffixStart(s, input, middle, k) == SuffixAt(s, input, middle, k)
  {
    if |s.suffix| <= k - middle { assert input[middle..k][k - middle - |s.suffix|..] == input[k - |s.suffix|..k]; }
  }

  /** The parts of a split: the prefix, the code if there is any, and the suffix if there is one. */
  lemma PartsTell(s: Segmentor, input: string, j: nat, k: nat)
    requires s.Affix? && j + |s.prefix| < k <= |input|
    ensures var middle := j + |s.prefix|;
            var end := SuffixAt(s, input, middle, k);
            AffixParts(s, input, j, k)
            == [Segment(GUESS, j, middle, {s.tag + "_prefix", "phony"}, false, 0, s.tips)]
               + (if middle < end then [Segment(VOID, middle, end, {s.tag} + s.affixTags, false, 0, "")] else [])
               + (if end < k
                  then [Segment(GUESS, end, k, {s.tag + "_suffix", "phony"}, false, 0, if s.closingTips == "" then s.tips else s.closingTips)]
                  else [])
  {
    var middle := j + |s.prefix|;
    var end := SuffixAt(s, input, middle, k);
    SuffixTells(s, input, middle, k);
    hide SuffixStart, SuffixAt;
    PrefixTells(s, j);
    CodeTells(s, middle, end);
    LastTells(s, end, k);
    hide PrefixPart, CodePart, SuffixPart;
  }

  lemma PrefixTells(s: Segmentor, j: nat)
    requires s.Affix?
    ensures PrefixPart(s, j) == Segment(GUESS, j, j + |s.prefix|, {s.tag + "_prefix", "phony"}, false, 0, s.tips)
  {
  }

  lemma CodeTells(s: Segmentor, middle: nat, end: nat)
    requires s.Affix? && middle <= end
    ensures CodePart(s, middle, end)
            == if middle < end then [Segment(VOID, middle, end, {s.tag} + s.affixTags, false, 0, "")] else []
  {
  }

  lemma LastTells(s: Segmentor, end: nat, k: nat)
    requires s.Affix? && end <= k
    ensures SuffixPart(s, end, k)
            == if end < k
               then [Segment(GUESS, end, k, {s.tag + "_suffix", "phony"}, false, 0, if s.closingTips == "" then s.tips else s.closingTips)]
               else []
  {
  }

  // ----- the recognizer -----

  /** The pattern matches what is not confirmed, up to the end of the input, from where a segment
      starts or the last one ends. */
  ghost predicate MatchesAt(p: Pattern, input: string, segs: seq<Segment>, start: nat)
    requires ConfirmedPosition(segs) <= |input|
  {
    var k := ConfirmedPosition(segs);
    && p.search(input[k..]).Some?
    && p.search(input[k..]).value.position == start - k && p.search(input[k..]).value.length == |input| - start
    && (start == EndOf(segs) || StartsASegment(segs, start))
  }

  lemma QualifiesIs(p: Pattern, input: string, segs: seq<Segment>)
    requires ConfirmedPosition(segs) <= |input|
    ensures Qualifies(p, input, segs) <==> exists start :: MatchesAt(p, input, segs, start)
    ensures forall start :: MatchesAt(p, input, segs, start) ==>
              start == ConfirmedPosition(segs) + p.search(input[ConfirmedPosition(segs)..]).value.position
  {
    hide StartsASegment;
    var k := ConfirmedPosition(segs);
    if Qualifies(p, input, segs) { assert MatchesAt(p, input, segs, k + p.search(input[k..]).value.position); }
  }

  /** Main result: what is found is the first pattern that matches, where it matches; nothing is found
      exactly if none does. */
  lemma {:induction false} MatchExactly(patterns: seq<Pattern>, input: string, segs: seq<Segment>)
    requires ConfirmedPosition(segs) <= |input|
    ensures MatchOf(patterns, input, segs).NoMatch?
            <==> forall i, start :: 0 <= i < |patterns| ==> !MatchesAt(patterns[i], input, segs, start)
    ensures MatchOf(patterns, input, segs).Found? ==>
              var m := MatchOf(patterns, input, segs);
              m.end == |input| && exists i :: IsFirstMatch(patterns, input, segs, i, m.start) && patterns[i].name == m.tag
  {
    if |patterns| > 0 {
      QualifiesIs(patterns[0], input, segs);
      MatchExactly(patterns[1..], input, segs);
      hide MatchesAt, Qualifies;
      var m := MatchOf(patterns, input, segs);
      if Qualifies(patterns[0], input, segs) {
        var start :| MatchesAt(patterns[0], input, segs, start);
        assert IsFirstMatch(patterns, input, segs, 0, m.start);
      } else {
        assert forall i :: 0 < i < |patterns| ==> patterns[i] == patterns[1..][i - 1];
        if m.Found? {
          var i :| IsFirstMatch(patterns[1..], input, segs, i, m.start) && patterns[1..][i].name == m.tag;
          assert IsFirstMatch(patterns, input, segs, i + 1, m.start);
        } else {
          forall i, start | 0 <= i < |patterns|
            ensures !MatchesAt(patterns[i], input, segs, start)
          {
            if i > 0 { assert !MatchesAt(patterns[1..][i - 1], input, segs, start); }
          }
        }
      }
    }
  }

  ghost predicate IsFirstMatch(patterns: seq<Pattern>, input: string, segs: seq<Segment>, i: int, start: nat)
    requires ConfirmedPosition(segs) <= |input|
  {
    && 0 <= i < |patterns| && MatchesAt(patterns[i], input, segs, start)
    && forall h, other :: 0 <= h < i ==> !MatchesAt(patterns[h], input, segs, other)
  }

  /** In a tiling, any segment may start there. */
  lemma StartsTells(segs: seq<Segment>, start: nat)
    requires Tiles(segs)
    ensures StartsASegment(segs, start) <==> exists i :: 0 <= i < |segs| && segs[i].start == start
  {
    forall i | 0 <= i < |segs| && segs[i].start == start
      ensures forall h :: 0 <= h < i ==> segs[h].start <= start
    {
      forall h | 0 <= h < i
        ensures segs[h].start <= start
      {
        StartsRise(segs, h, i);
      }
    }
  }

  lemma {:induction false} StartsRise(segs: seq<Segment>, h: nat, i: nat)
    requires Tiles(segs) && h <= i < |segs|
    ensures segs[h].start <= segs[i].start
  {
    if h < i { StartsRise(segs, h, i - 1); }
  }

  /** Popping takes away the segments at the end that start behind a position, and no others. */
  lemma {:induction false} PoppedTells(segs: seq<Segment>, start: nat) returns (n: nat)
    ensures n <= |segs| && PoppedTo(segs, start) == segs[..n]
    ensures (n > 0 ==> segs[n - 1].start <= start) && forall i :: n <= i < |segs| ==> segs[i].start > start
  {
    if segs == [] || segs[|segs| - 1].start <= start {
      n := |segs|;
      assert segs[..n] == segs;
    } else {
      n := PoppedTells(segs[..|segs| - 1], start);
      assert segs[..|segs| - 1][..n] == segs[..n];
      forall i | n <= i < |segs|
        ensures segs[i].start > start
      {
        if i < |segs| - 1 { assert segs[..|segs| - 1][i] == segs[i]; }
      }
    }
  }

  /** What is matched becomes a segment behind those that start no later. */
  lemma MatcherTells(s: Segmentor, input: string, before: seq<Segment>)
    requires s.Matcher? && ConfirmedPosition(before) <= |input|
    ensures var m := MatchOf(s.patterns, input, before);
            MatcherOutcome(s, input, before)
            == if m.Found? && m.start < m.end
               then Added(PoppedTo(before, m.start), Segment(VOID, m.start, m.end, {m.tag}, false, 0, ""))
               else before
  {
    hide Added, PoppedTo, MatchOf;
  }

  // ----- rounds -----

  /** Those that end the round: an affix that has split a segment, ascii mode, punctuation or the end of
      the input where punctuation is looked for, and the fallback. */
  lemma GoesOnTells(s: Segmentor, input: string, before: seq<Segment>)
    requires Within(input, before)
    ensures s.Abc? || s.Matcher? ==> GoesOn(s, input, before)
    ensures s.Ascii? ==> (GoesOn(s, input, before) <==> !s.asciiMode)
    ensures s.Punct? ==>
              var k := StartOf(before);
              GoesOn(s, input, before) <==> k < |input| && !(0x20 <= input[k] as int < 0x7F && input[k] in s.defined)
    ensures s.Affix? ==>
              var j, k := StartOf(before), EndOf(before);
              && j <= k <= |input|
              && (GoesOn(s, input, before)
                  <==> before == [] || s.tag !in before[|before| - 1].tags || s.prefix == "" || !(s.prefix < input[j..k]))
    ensures s.Fallback? ==> !GoesOn(s, input, before)
  {
    TilesStart(before);
    if s.Affix? {
      var text := input[StartOf(before)..EndOf(before)];
      assert s.prefix <= text ==> (s.prefix < text <==> |text| > |s.prefix|);
    }
  }

  /** At the end an empty last segment goes, and a new one is opened behind one that is chosen. */
  lemma FinishedTells(segs: seq<Segment>)
    requires Tiles(segs)
    ensures var rest := if segs != [] && segs[|segs| - 1].start == segs[|segs| - 1].end then segs[..|segs| - 1] else segs;
            Finished(segs)
            == if rest != [] && rest[|rest| - 1].status >= SELECTED
               then rest + [Segment(VOID, rest[|rest| - 1].end, rest[|rest| - 1].end, {}, false, 0, "")] else rest
  {
  }
}
