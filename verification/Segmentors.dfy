/** The segmentors, and the loop that calls them in turn until the input is divided up. */
module Segmentors {
  import opened Commons
  import opened Segmentations

  /** Where a pattern matches. */
  datatype Span = Span(position: nat, length: nat)

  /** A named pattern: any function that finds a span of a string. */
  datatype Pattern = Pattern(name: string, search: string -> Option<Span>)

  datatype RecognizerMatch = NoMatch | Found(tag: string, start: nat, end: nat)

  datatype Segmentor =
    | Abc(alphabet: string, delimiter: string, extraTags: set<string>)
    | Affix(tag: string, prefix: string, suffix: string, tips: string, closingTips: string, affixTags: set<string>)
    | Matcher(patterns: seq<Pattern>)
    | Ascii(asciiMode: bool)
    | Punct(defined: set<char>)
    | Fallback

  // ----- abc -----

  predicate IsCodeChar(input: string, j: nat, k: nat, alphabet: string, delimiter: string)
    requires k < |input|
  {
    input[k] in alphabet || (k != j && input[k] in delimiter)
  }

  /** The end of the longest run of code characters from `j` on that goes beyond `k`. */
  function RunEnd(input: string, j: nat, k: nat, alphabet: string, delimiter: string): (r: nat)
    requires j <= k <= |input|
    ensures k <= r <= |input|
    ensures forall i :: k <= i < r ==> IsCodeChar(input, j, i, alphabet, delimiter)
    ensures r < |input| ==> !IsCodeChar(input, j, r, alphabet, delimiter)
    decreases |input| - k
  {
    if k < |input| && IsCodeChar(input, j, k, alphabet, delimiter) then RunEnd(input, j, k + 1, alphabet, delimiter) else k
  }

  function AbcOutcome(s: Segmentor, input: string, before: seq<Segment>): seq<Segment>
    requires s.Abc? && StartOf(before) <= |input|
  {
    var j := StartOf(before);
    var k := RunEnd(input, j, j, s.alphabet, s.delimiter);
    if k == j then before else Added(before, NewSegment(j, k).(tags := {"abc"} + s.extraTags))
  }

  method ProceedAbc(s: Segmentor, segmentation: Segmentation) returns (go: bool)
    requires s.Abc? && segmentation.Valid()
    modifies segmentation`segments
    ensures go && segmentation.segments == AbcOutcome(s, segmentation.input, old(segmentation.segments))
  {
    var input := segmentation.input;
    var j := StartOf(segmentation.segments);
    var k := j;
    while k < |input| && (input[k] in s.alphabet || (k != j && input[k] in s.delimiter))
      invariant j <= k <= |input|
      invariant RunEnd(input, j, k, s.alphabet, s.delimiter) == RunEnd(input, j, j, s.alphabet, s.delimiter)
    {
      k := k + 1;
    }
    if j < k {
      var segment := NewSegment(j, k).(tags := {"abc"} + s.extraTags);
      var _ := segmentation.AddSegment(segment);
    }
    go := true;
  }

  // ----- affix -----

  predicate StartsWith(text: string, prefix: string) {
    prefix <= text
  }

  predicate EndsWith(text: string, suffix: string) {
    |suffix| <= |text| && text[|text| - |suffix|..] == suffix
  }

  function Phony(start: nat, end: nat, prompt: string, tag: string): Segment {
    Segment(GUESS, start, end, {tag, "phony"}, false, 0, prompt)
  }

  /** A tagged segment that begins with the prefix. */
  predicate AffixApplies(s: Segmentor, input: string, before: seq<Segment>)
    requires s.Affix? && StartOf(before) <= EndOf(before) <= |input|
  {
    && |before| > 0 && before[|before| - 1].HasTag(s.tag)
    && |s.prefix| > 0 && StartsWith(input[StartOf(before)..EndOf(before)], s.prefix)
  }

  /** Where the suffix begins: at the end, if there is none. */
  function SuffixStart(s: Segmentor, input: string, middle: nat, k: nat): (end: nat)
    requires s.Affix? && middle <= k <= |input|
    ensures middle <= end <= k
    ensures end < k ==> k - end == |s.suffix|
  {
    if EndsWith(input[middle..k], s.suffix) then k - |s.suffix| else k
  }

  function PrefixPart(s: Segmentor, j: nat): Segment
    requires s.Affix?
  {
    Phony(j, j + |s.prefix|, s.tips, s.tag + "_prefix")
  }

  function CodePart(s: Segmentor, middle: nat, end: nat): seq<Segment>
    requires s.Affix?
  {
    if middle == end then [] else [NewSegment(middle, end).(tags := {s.tag} + s.affixTags)]
  }

  function SuffixPart(s: Segmentor, end: nat, k: nat): seq<Segment>
    requires s.Affix?
  {
    if end == k then [] else [Phony(end, k, if s.closingTips == "" then s.tips else s.closingTips, s.tag + "_suffix")]
  }

  /** What a segment from `j` to `k` is split into. */
  function AffixParts(s: Segmentor, input: string, j: nat, k: nat): seq<Segment>
    requires s.Affix? && j + |s.prefix| <= k <= |input|
  {
    var middle := j + |s.prefix|;
    var end := SuffixStart(s, input, middle, k);
    [PrefixPart(s, j)] + CodePart(s, middle, end) + SuffixPart(s, end, k)
  }

  /** The segment is split into a prefix, a code and a suffix, whichever are there. */
  function AffixOutcome(s: Segmentor, input: string, before: seq<Segment>): seq<Segment>
    requires s.Affix? && StartOf(before) <= EndOf(before) <= |input|
  {
    var j, k := StartOf(before), EndOf(before);
    if !AffixApplies(s, input, before) then before
    else
      var init, last := before[..|before| - 1], before[|before| - 1];
      if k - j == |s.prefix| then init + [last.(tags := last.tags - {s.tag} + {s.tag + "_prefix"}, prompt := s.tips)]
      else init + AffixParts(s, input, j, k)
  }

  predicate AffixSplits(s: Segmentor, input: string, before: seq<Segment>)
    requires s.Affix? && StartOf(before) <= EndOf(before) <= |input|
  {
    AffixApplies(s, input, before) && EndOf(before) - StartOf(before) > |s.prefix|
  }

  /** The input under a segment. */
  function TextOf(input: string, s: Segment): string {
    if s.start <= s.end <= |input| then input[s.start..s.end] else ""
  }

  function TextsOf(input: string, segs: seq<Segment>): seq<string> {
    seq(|segs|, i requires 0 <= i < |segs| => TextOf(input, segs[i]))
  }

  /** The parts spell the prefix, then the code if there is any, then the suffix if the rest ends
      in one. */
  ghost predicate SpellParts(s: Segmentor, input: string, j: nat, k: nat, parts: seq<Segment>)
    requires s.Affix? && j + |s.prefix| <= k <= |input|
  {
    var rest := input[j + |s.prefix|..k];
    var code := if EndsWith(rest, s.suffix) then rest[..|rest| - |s.suffix|] else rest;
    TextsOf(input, parts)
    == [s.prefix] + (if code == "" then [] else [code]) + (if s.suffix != "" && EndsWith(rest, s.suffix) then [s.suffix] else [])
  }

  method ProceedAffix(s: Segmentor, segmentation: Segmentation) returns (go: bool)
    requires s.Affix? && segmentation.Valid()
    modifies segmentation`segments
    ensures segmentation.segments == AffixOutcome(s, segmentation.input, old(segmentation.segments))
    ensures go == !AffixSplits(s, segmentation.input, old(segmentation.segments))
    ensures var before := old(segmentation.segments);
            !go ==> SpellParts(s, segmentation.input, StartOf(before), EndOf(before), segmentation.segments[|before| - 1..])
  {
    hide AffixParts, SpellParts, EndsWith, Tiles;
    TilesStart(segmentation.segments);
    if |segmentation.segments| == 0 || !segmentation.segments[|segmentation.segments| - 1].HasTag(s.tag) {
      return true;
    }
    var j := StartOf(segmentation.segments);
    var k := EndOf(segmentation.segments);
    var activeInput := segmentation.input[j..k];
    if |s.prefix| == 0 || !StartsWith(activeInput, s.prefix) {
      return true;
    }
    if |activeInput| == |s.prefix| {
      var n := |segmentation.segments| - 1;
      var last := segmentation.segments[n];
      segmentation.segments :=
        segmentation.segments[n := last.(tags := last.tags - {s.tag} + {s.tag + "_prefix"}, prompt := s.tips)];
      return true;
    }
    ghost var before := segmentation.segments;
    SplitAffix(s, segmentation, j, k);
    PartsSpell(s, segmentation.input, j, k);
    assert segmentation.segments[|before| - 1..] == AffixParts(s, segmentation.input, j, k);
    go := false;
  }

  method SplitAffix(s: Segmentor, segmentation: Segmentation, start: nat, end: nat)
    requires s.Affix? && segmentation.Valid() && |segmentation.segments| > 0 && |s.prefix| > 0
    requires start == StartOf(segmentation.segments) && end == EndOf(segmentation.segments) && end - start > |s.prefix|
    modifies segmentation`segments
    ensures var before := old(segmentation.segments);
            segmentation.segments == before[..|before| - 1] + AffixParts(s, segmentation.input, start, end)
  {
    hide EndsWith;
    var j := start;
    var k := end;
    ghost var init := segmentation.segments[..|segmentation.segments| - 1];
    TilesPrefix(segmentation.segments, |segmentation.segments| - 1);
    var code := segmentation.input[j..k][|s.prefix|..];
    assert code == segmentation.input[j + |s.prefix|..k];
    segmentation.PopBack();
    Refill(segmentation, PrefixPart(s, j), init);
    j := j + |s.prefix|;
    Push(segmentation, NewSegment(j, k).(tags := {s.tag} + s.affixTags));
    if |s.suffix| > 0 && EndsWith(code, s.suffix) {
      SuffixFits(code, s.suffix);
      SplitSuffix(s, segmentation, k - |s.suffix|);
    }
  }

  lemma SuffixFits(text: string, suffix: string)
    requires EndsWith(text, suffix)
    ensures |suffix| <= |text|
  {
  }

  /** Gives the last `|suffix|` characters of the code a segment of their own. */
  method SplitSuffix(s: Segmentor, segmentation: Segmentation, k: nat)
    requires s.Affix? && |s.suffix| > 0 && |segmentation.segments| > 1
    requires StartOf(segmentation.segments) <= k && k + |s.suffix| == EndOf(segmentation.segments)
    requires StartOf(segmentation.segments) == EndOf(segmentation.segments[..|segmentation.segments| - 1])
    requires !AtRest(segmentation.segments[..|segmentation.segments| - 1])
    modifies segmentation`segments
    ensures var before := old(segmentation.segments);
            var last := before[|before| - 1];
            segmentation.segments
            == before[..|before| - 1] + (if k == last.start then [] else [last.(end := k)]) + SuffixPart(s, k, last.end)
  {
    var n := |segmentation.segments| - 1;
    if k == segmentation.segments[n].start {
      segmentation.PopBack();
    } else {
      segmentation.segments := segmentation.segments[n := segmentation.segments[n].(end := k)];
    }
    Push(segmentation, Phony(k, k + |s.suffix|, if s.closingTips == "" then s.tips else s.closingTips, s.tag + "_suffix"));
  }

  /** Opens the next segment and fills it. */
  method Push(segmentation: Segmentation, s: Segment)
    requires |segmentation.segments| > 0 && !AtRest(segmentation.segments)
    requires s.start == EndOf(segmentation.segments) && s.start < s.end
    modifies segmentation`segments
    ensures segmentation.segments == old(segmentation.segments) + [s]
  {
    var _ := segmentation.Forward();
    var _ := segmentation.AddSegment(s);
  }

  /** Fills the place of a segment that was taken away. */
  method Refill(segmentation: Segmentation, s: Segment, ghost init: seq<Segment>)
    requires segmentation.segments == init && s.start == EndOf(init) && s.start < s.end
    requires |init| > 0 ==> !AtRest(init)
    modifies segmentation`segments
    ensures segmentation.segments == init + [s]
  {
    var _ := segmentation.Forward();
    var _ := segmentation.AddSegment(s);
  }

  // ----- matcher -----

  /** `start` is the start of a segment, and no segment before that starts beyond it. */
  ghost predicate StartsASegment(segs: seq<Segment>, start: nat) {
    exists i :: 0 <= i < |segs| && segs[i].start == start && forall h :: 0 <= h < i ==> segs[h].start <= start
  }

  /** A pattern counts if it matches the unconfirmed input up to its end, from where a
      segment begins or a new one would. */
  ghost predicate Qualifies(p: Pattern, input: string, segs: seq<Segment>)
    requires ConfirmedPosition(segs) <= |input|
  {
    var k := ConfirmedPosition(segs);
    var m := p.search(input[k..]);
    && m.Some? && k + m.value.position + m.value.length == |input|
    && (k + m.value.position == EndOf(segs) || StartsASegment(segs, k + m.value.position))
  }

  ghost function MatchOf(patterns: seq<Pattern>, input: string, segs: seq<Segment>): RecognizerMatch
    requires ConfirmedPosition(segs) <= |input|
  {
    if |patterns| == 0 then NoMatch
    else if Qualifies(patterns[0], input, segs) then
      Found(patterns[0].name, ConfirmedPosition(segs) + patterns[0].search(input[ConfirmedPosition(segs)..]).value.position, |input|)
    else MatchOf(patterns[1..], input, segs)
  }

  method FindStart(segs: seq<Segment>, start: nat) returns (found: bool)
    ensures found <==> StartsASegment(segs, start)
  {
    for i := 0 to |segs|
      invariant forall h :: 0 <= h < i ==> segs[h].start < start
    {
      if start < segs[i].start {
        assert forall n :: 0 <= n < |segs| && segs[n].start == start ==> n > i;
        return false;
      }
      if start == segs[i].start {
        return true;
      }
    }
    found := false;
  }

  /** The first pattern that counts. */
  method GetMatch(patterns: seq<Pattern>, input: string, segmentation: Segmentation) returns (m: RecognizerMatch)
    requires ConfirmedPosition(segmentation.segments) <= |input|
    ensures m == MatchOf(patterns, input, segmentation.segments)
  {
    var j := EndOf(segmentation.segments);
    var k := segmentation.GetConfirmedPosition();
    var activeInput := input[k..];
    for i := 0 to |patterns|
      invariant MatchOf(patterns, input, segmentation.segments) == MatchOf(patterns[i..], input, segmentation.segments)
    {
      var found := patterns[i].search(activeInput);
      assert patterns[i..][1..] == patterns[i + 1..];
      if found.Some? {
        var start := k + found.value.position;
        var end := start + found.value.length;
        if end == |input| {
          if start == j {
            return Found(patterns[i].name, start, end);
          }
          var aligned := FindStart(segmentation.segments, start);
          if aligned {
            return Found(patterns[i].name, start, end);
          }
        }
      }
    }
    m := NoMatch;
  }

  /** Without the segments that start beyond `start`. */
  function PoppedTo(segs: seq<Segment>, start: nat): seq<Segment> {
    if StartOf(segs) > start then PoppedTo(segs[..|segs| - 1], start) else segs
  }

  ghost function MatcherOutcome(s: Segmentor, input: string, before: seq<Segment>): seq<Segment>
    requires s.Matcher? && ConfirmedPosition(before) <= |input|
  {
    match MatchOf(s.patterns, input, before)
    case NoMatch => before
    case Found(tag, start, end) =>
      if start < end then Added(PoppedTo(before, start), NewSegment(start, end).(tags := {tag})) else before
  }

  method ProceedMatcher(s: Segmentor, segmentation: Segmentation) returns (go: bool)
    requires s.Matcher? && segmentation.Valid()
    modifies segmentation`segments
    ensures ConfirmedPosition(old(segmentation.segments)) <= |segmentation.input|
    ensures go && segmentation.segments == MatcherOutcome(s, segmentation.input, old(segmentation.segments))
  {
    ConfirmedWithin(segmentation.segments);
    if |s.patterns| == 0 {
      return true;
    }
    var m := GetMatch(s.patterns, segmentation.input, segmentation);
    if m.Found? && m.start < m.end {
      ghost var before := segmentation.segments;
      while StartOf(segmentation.segments) > m.start
        invariant PoppedTo(segmentation.segments, m.start) == PoppedTo(before, m.start)
        decreases |segmentation.segments|
      {
        segmentation.PopBack();
      }
      var _ := segmentation.AddSegment(NewSegment(m.start, m.end).(tags := {m.tag}));
    }
    go := true;
  }

  // ----- ascii and punctuation -----

  function AsciiOutcome(s: Segmentor, input: string, before: seq<Segment>): seq<Segment>
    requires s.Ascii?
  {
    if s.asciiMode && StartOf(before) < |input|
    then Added(before, NewSegment(StartOf(before), |input|).(tags := {"raw"})) else before
  }

  method ProceedAscii(s: Segmentor, segmentation: Segmentation) returns (go: bool)
    requires s.Ascii? && segmentation.Valid()
    modifies segmentation`segments
    ensures go == !s.asciiMode
    ensures segmentation.segments == AsciiOutcome(s, segmentation.input, old(segmentation.segments))
  {
    if !s.asciiMode {
      return true;
    }
    var j := StartOf(segmentation.segments);
    if j < |segmentation.input| {
      var _ := segmentation.AddSegment(NewSegment(j, |segmentation.input|).(tags := {"raw"}));
    }
    go := false;
  }

  predicate IsPunct(s: Segmentor, ch: char)
    requires s.Punct?
  {
    ' ' <= ch <= '~' && ch in s.defined
  }

  function PunctOutcome(s: Segmentor, input: string, before: seq<Segment>): seq<Segment>
    requires s.Punct?
  {
    var k := StartOf(before);
    if k < |input| && IsPunct(s, input[k]) then Added(before, NewSegment(k, k + 1).(tags := {"punct"})) else before
  }

  method ProceedPunct(s: Segmentor, segmentation: Segmentation) returns (go: bool)
    requires s.Punct? && segmentation.Valid()
    modifies segmentation`segments
    ensures segmentation.segments == PunctOutcome(s, segmentation.input, old(segmentation.segments))
    ensures go <==> StartOf(old(segmentation.segments)) < |segmentation.input|
                    && !IsPunct(s, segmentation.input[StartOf(old(segmentation.segments))])
  {
    var k := StartOf(segmentation.segments);
    if k == |segmentation.input| {
      return false;
    }
    var ch := segmentation.input[k];
    if ch < ' ' || ch > '~' {
      return true;
    }
    if ch !in s.defined {
      return true;
    }
    var _ := segmentation.AddSegment(NewSegment(k, k + 1).(tags := {"punct"}));
    go := false;
  }

  // ----- fallback -----

  /** One more character becomes raw input, if nothing else has taken it. */
  function FallbackOutcome(input: string, before: seq<Segment>): seq<Segment> {
    var k := StartOf(before);
    if EndOf(before) > k || k == |input| then before
    else
      var rest := Trimmed(before);
      if |rest| > 0 && rest[|rest| - 1].HasTag("raw")
      then rest[..|rest| - 1] + [NewSegment(rest[|rest| - 1].start, k + 1).(tags := {"raw"})]
      else rest + [NewSegment(k, k + 1).(tags := {"raw"})]
  }

  method ProceedFallback(segmentation: Segmentation) returns (go: bool)
    requires segmentation.Valid()
    modifies segmentation`segments
    ensures !go && segmentation.segments == FallbackOutcome(segmentation.input, old(segmentation.segments))
  {
    var len := EndOf(segmentation.segments) - StartOf(segmentation.segments);
    if len > 0 {
      return false;
    }
    var k := StartOf(segmentation.segments);
    if k == |segmentation.input| {
      return false;
    }
    ghost var before := segmentation.segments;
    if |segmentation.segments| > 0 && AtRest(segmentation.segments) {
      TilesPrefix(before, |before| - 1);
      segmentation.PopBack();
    }
    if |segmentation.segments| > 0 {
      var n := |segmentation.segments| - 1;
      var last := segmentation.segments[n];
      if last.HasTag("raw") {
        last := last.(end := k + 1);
        last := last.Cleared();
        segmentation.segments := segmentation.segments[n := last.(tags := {"raw"})];
        return false;
      }
      assert !AtRest(segmentation.segments);
    }
    Refill(segmentation, NewSegment(k, k + 1).(tags := {"raw"}), segmentation.segments);
    go := false;
  }

  // ----- what every segmentor keeps -----

  /** The segments still tile the input and reach no less far. Where nothing had been found
      yet, either something is now, or nothing has changed and the next segmentor may try; the
      fallback always finds something. */
  ghost predicate Proceeded(s: Segmentor, input: string, before: seq<Segment>, after: seq<Segment>, go: bool) {
    && Tiles(after) && EndOf(before) <= EndOf(after) <= |input|
    && (AtRest(before) && EndOf(before) < |input| && EndOf(after) == EndOf(before) ==> after == before && go && !s.Fallback?)
  }

  lemma AbcProceeds(s: Segmentor, input: string, before: seq<Segment>)
    requires s.Abc? && Tiles(before) && EndOf(before) <= |input|
    ensures StartOf(before) <= |input| && Proceeded(s, input, before, AbcOutcome(s, input, before), true)
  {
    var j := StartOf(before);
    var k := RunEnd(input, j, j, s.alphabet, s.delimiter);
    hide Tiles, RunEnd;
    if k != j { AddedTiles(before, NewSegment(j, k).(tags := {"abc"} + s.extraTags)); }
  }

  lemma AsciiProceeds(s: Segmentor, input: string, before: seq<Segment>)
    requires s.Ascii? && Tiles(before) && EndOf(before) <= |input|
    ensures Proceeded(s, input, before, AsciiOutcome(s, input, before), !s.asciiMode)
  {
    if s.asciiMode && StartOf(before) < |input| {
      AddedTiles(before, NewSegment(StartOf(before), |input|).(tags := {"raw"}));
    }
  }

  lemma PunctProceeds(s: Segmentor, input: string, before: seq<Segment>)
    requires s.Punct? && Tiles(before) && EndOf(before) <= |input|
    ensures Proceeded(s, input, before, PunctOutcome(s, input, before),
                      StartOf(before) < |input| && !IsPunct(s, input[StartOf(before)]))
  {
    var k := StartOf(before);
    if k < |input| && IsPunct(s, input[k]) { AddedTiles(before, NewSegment(k, k + 1).(tags := {"punct"})); }
  }

  lemma FallbackProceeds(input: string, before: seq<Segment>)
    requires Tiles(before) && EndOf(before) <= |input|
    ensures Proceeded(Fallback, input, before, FallbackOutcome(input, before), false)
  {
    hide Tiles, Trimmed;
    TilesStart(before);
    if AtRest(before) && StartOf(before) != |input| {
      TrimmedTiles(before);
      RawTiles(Trimmed(before), EndOf(before));
    }
  }

  lemma TilesStart(segs: seq<Segment>)
    requires Tiles(segs)
    ensures StartOf(segs) <= EndOf(segs)
    ensures AtRest(segs) <==> EndOf(segs) <= StartOf(segs)
  {
  }

  lemma TrimmedTiles(segs: seq<Segment>)
    requires Tiles(segs)
    ensures Tiles(Trimmed(segs)) && EndOf(Trimmed(segs)) == EndOf(segs)
    ensures |Trimmed(segs)| > 0 ==> !AtRest(Trimmed(segs))
  {
    if |segs| > 0 { TilesPrefix(segs, |segs| - 1); }
  }

  lemma RawTiles(rest: seq<Segment>, k: nat)
    requires Tiles(rest) && (|rest| > 0 ==> !AtRest(rest)) && EndOf(rest) == k
    ensures |rest| > 0 ==> Tiles(rest[..|rest| - 1] + [NewSegment(StartOf(rest), k + 1).(tags := {"raw"})])
    ensures Tiles(rest + [NewSegment(k, k + 1).(tags := {"raw"})])
  {
    TilesAppend(rest, NewSegment(k, k + 1).(tags := {"raw"}));
    if |rest| > 0 { TilesReplaced(rest, NewSegment(StartOf(rest), k + 1).(tags := {"raw"})); }
  }

  lemma AffixProceeds(s: Segmentor, input: string, before: seq<Segment>)
    requires s.Affix? && Tiles(before) && EndOf(before) <= |input|
    ensures Proceeded(s, input, before, AffixOutcome(s, input, before), !AffixSplits(s, input, before))
    ensures EndOf(AffixOutcome(s, input, before)) == EndOf(before)
  {
    if AffixApplies(s, input, before) {
      var j, k := StartOf(before), EndOf(before);
      var init, last := before[..|before| - 1], before[|before| - 1];
      hide AffixParts;
      TilesPrefix(before, |before| - 1);
      if k - j == |s.prefix| {
        TilesReplaced(before, last.(tags := last.tags - {s.tag} + {s.tag + "_prefix"}, prompt := s.tips));
      } else {
        PartsTile(s, input, init, j, k);
      }
    }
  }

  lemma TilesGrow(segs: seq<Segment>, part: seq<Segment>, start: nat, end: nat)
    requires Tiles(segs) && |segs| > 0 && !AtRest(segs) && start == EndOf(segs) && start <= end
    requires |part| == (if start == end then 0 else 1)
    requires start < end ==> part[0].start == start && part[0].end == end
    ensures Tiles(segs + part) && !AtRest(segs + part) && EndOf(segs + part) == end
  {
    if start == end {
      assert segs + part == segs;
    } else {
      TilesAppend(segs, part[0]);
      assert part == [part[0]];
    }
  }

  lemma PartsTile(s: Segmentor, input: string, init: seq<Segment>, j: nat, k: nat)
    requires s.Affix? && |s.prefix| > 0 && j + |s.prefix| < k <= |input|
    requires Tiles(init) && (|init| > 0 ==> !AtRest(init)) && j == EndOf(init)
    ensures Tiles(init + AffixParts(s, input, j, k)) && EndOf(init + AffixParts(s, input, j, k)) == k
  {
    hide Tiles, SuffixStart;
    var middle := j + |s.prefix|;
    var end := SuffixStart(s, input, middle, k);
    var first, code, last := [PrefixPart(s, j)], CodePart(s, middle, end), SuffixPart(s, end, k);
    GrowTwice(init, PrefixPart(s, j), code, last, middle, end, k);
    hide EndOf, PrefixPart, CodePart, SuffixPart;
    assert init + (first + code + last) == init + first + code + last;
  }

  lemma GrowTwice(init: seq<Segment>, first: Segment, code: seq<Segment>, last: seq<Segment>, middle: nat, end: nat, k: nat)
    requires Tiles(init) && (|init| > 0 ==> !AtRest(init)) && first.start == EndOf(init) && first.start < first.end == middle
    requires middle <= end <= k
    requires |code| == (if middle == end then 0 else 1) && |last| == (if end == k then 0 else 1)
    requires middle < end ==> code[0].start == middle && code[0].end == end
    requires end < k ==> last[0].start == end && last[0].end == k
    ensures Tiles(init + [first] + code + last) && EndOf(init + [first] + code + last) == k
  {
    hide Tiles;
    TilesAppend(init, first);
    TilesGrow(init + [first], code, middle, end);
    TilesGrow(init + [first] + code, last, end, k);
  }

  /** The parts of a split spell the prefix, the code and the suffix. */
  lemma PartsSpell(s: Segmentor, input: string, j: nat, k: nat)
    requires s.Affix? && j + |s.prefix| <= k <= |input| && StartsWith(input[j..k], s.prefix)
    ensures SpellParts(s, input, j, k, AffixParts(s, input, j, k))
  {
    hide TextsOf, StartsWith, EndsWith, SuffixStart, PrefixPart, CodePart, SuffixPart;
    var middle := j + |s.prefix|;
    var end := SuffixStart(s, input, middle, k);
    CodeAndSuffix(s, input, middle, k);
    PrefixSpells(s, input, j, k);
    CodeSpells(s, input, middle, end);
    SuffixSpells(s, input, end, k);
    ThreeTexts(input, [PrefixPart(s, j)], CodePart(s, middle, end), SuffixPart(s, end, k));
  }

  lemma ThreeTexts(input: string, a: seq<Segment>, b: seq<Segment>, c: seq<Segment>)
    ensures TextsOf(input, a + b + c) == TextsOf(input, a) + TextsOf(input, b) + TextsOf(input, c)
  {
    TextsConcat(input, a, b);
    TextsConcat(input, a + b, c);
    hide TextsOf;
  }

  lemma CodeAndSuffix(s: Segmentor, input: string, middle: nat, k: nat)
    requires s.Affix? && middle <= k <= |input|
    ensures var end, rest := SuffixStart(s, input, middle, k), input[middle..k];
            && input[middle..end] == (if EndsWith(rest, s.suffix) then rest[..|rest| - |s.suffix|] else rest)
            && (end < k <==> s.suffix != "" && EndsWith(rest, s.suffix))
            && (end < k ==> input[end..k] == s.suffix)
  {
    var end := SuffixStart(s, input, middle, k);
    assert input[middle..k][end - middle..] == input[end..k] && input[middle..k][..end - middle] == input[middle..end];
  }

  lemma PrefixSpells(s: Segmentor, input: string, j: nat, k: nat)
    requires s.Affix? && j + |s.prefix| <= k <= |input| && StartsWith(input[j..k], s.prefix)
    ensures TextsOf(input, [PrefixPart(s, j)]) == [s.prefix]
  {
    assert s.prefix == input[j..k][..|s.prefix|] == input[j..j + |s.prefix|];
    TextsOfOne(input, PrefixPart(s, j));
  }

  lemma CodeSpells(s: Segmentor, input: string, middle: nat, end: nat)
    requires s.Affix? && middle <= end <= |input|
    ensures TextsOf(input, CodePart(s, middle, end)) == if input[middle..end] == "" then [] else [input[middle..end]]
  {
    if middle < end { TextsOfOne(input, CodePart(s, middle, end)[0]); }
  }

  lemma SuffixSpells(s: Segmentor, input: string, end: nat, k: nat)
    requires s.Affix? && end <= k <= |input|
    ensures TextsOf(input, SuffixPart(s, end, k)) == if end == k then [] else [input[end..k]]
  {
    if end < k { TextsOfOne(input, SuffixPart(s, end, k)[0]); }
  }

  lemma TextsConcat(input: string, a: seq<Segment>, b: seq<Segment>)
    ensures TextsOf(input, a + b) == TextsOf(input, a) + TextsOf(input, b)
  {
  }

  lemma TextsOfOne(input: string, s: Segment)
    ensures TextsOf(input, [s]) == [TextOf(input, s)]
  {
  }

  lemma {:induction false} PoppedToTiles(segs: seq<Segment>, start: nat)
    requires Tiles(segs)
    ensures Tiles(PoppedTo(segs, start)) && PoppedTo(segs, start) <= segs && EndOf(PoppedTo(segs, start)) <= EndOf(segs)
    ensures StartOf(PoppedTo(segs, start)) <= start
    ensures forall i :: 0 <= i < |segs| && segs[i].start <= start ==> i < |PoppedTo(segs, start)|
  {
    if StartOf(segs) > start {
      TilesPrefix(segs, |segs| - 1);
      PoppedToTiles(segs[..|segs| - 1], start);
      assert forall i :: 0 <= i < |segs| - 1 ==> segs[..|segs| - 1][i] == segs[i];
    }
  }

  /** Popping back to the start of a segment makes it the current one. */
  lemma PoppedToStart(segs: seq<Segment>, start: nat)
    requires Tiles(segs) && StartsASegment(segs, start)
    ensures StartOf(PoppedTo(segs, start)) == start
  {
    var i :| 0 <= i < |segs| && segs[i].start == start && forall h :: 0 <= h < i ==> segs[h].start <= start;
    PoppedToTiles(segs, start);
    var left := PoppedTo(segs, start);
    assert left[i] == segs[i];
    TilesAscend(left, i, |left| - 1);
  }

  lemma {:induction false} MatchIsAligned(patterns: seq<Pattern>, input: string, segs: seq<Segment>)
    requires ConfirmedPosition(segs) <= |input|
    ensures var m := MatchOf(patterns, input, segs);
            m.Found? ==> m.end == |input| && ConfirmedPosition(segs) <= m.start <= m.end
                         && (m.start == EndOf(segs) || StartsASegment(segs, m.start))
  {
    hide StartsASegment, ConfirmedPosition;
    if |patterns| > 0 && !Qualifies(patterns[0], input, segs) { MatchIsAligned(patterns[1..], input, segs); }
  }

  lemma {:induction false} MatcherProceeds(s: Segmentor, input: string, before: seq<Segment>)
    requires s.Matcher? && Tiles(before) && EndOf(before) <= |input|
    ensures ConfirmedPosition(before) <= |input|
    ensures Proceeded(s, input, before, MatcherOutcome(s, input, before), true)
  {
    ConfirmedWithin(before);
    MatchIsAligned(s.patterns, input, before);
    var m := MatchOf(s.patterns, input, before);
    if m.Found? && m.start < m.end { FoundProceeds(s, input, before, m.start, NewSegment(m.start, m.end).(tags := {m.tag})); }
  }

  lemma FoundProceeds(s: Segmentor, input: string, before: seq<Segment>, start: nat, segment: Segment)
    requires s.Matcher? && Tiles(before) && EndOf(before) <= |input|
    requires start == EndOf(before) || StartsASegment(before, start)
    requires segment.start == start && start <= segment.end == |input|
    ensures Proceeded(s, input, before, Added(PoppedTo(before, start), segment), true)
  {
    var left := PoppedTo(before, start);
    PoppedToTiles(before, start);
    AddedTiles(left, segment);
    if StartsASegment(before, start) { PoppedToStart(before, start); }
    hide Tiles, StartsASegment, Added;
    TilesStart(before);
  }

  /** A matcher never takes back what the user has chosen. */
  lemma {:induction false} MatcherKeepsChoices(s: Segmentor, input: string, before: seq<Segment>, i: nat)
    requires s.Matcher? && Tiles(before) && EndOf(before) <= |input|
    requires i < |before| && before[i].status >= SELECTED && before[i].start < before[i].end
    ensures ConfirmedPosition(before) <= |input|
    ensures before[i] in MatcherOutcome(s, input, before)
  {
    ConfirmedWithin(before);
    MatchIsAligned(s.patterns, input, before);
    var m := MatchOf(s.patterns, input, before);
    hide Added, StartsASegment;
    if m.Found? && m.start < m.end {
      PoppedToTiles(before, m.start);
      var left := PoppedTo(before, m.start);
      assert left[i] == before[i] && before[i].start < m.start;
      AddedKeeps(left, NewSegment(m.start, m.end).(tags := {m.tag}), i);
    }
  }

  /** Adding a segment leaves those alone that start elsewhere. */
  lemma AddedKeeps(segs: seq<Segment>, s: Segment, i: nat)
    requires i < |segs| && segs[i].start != s.start
    ensures segs[i] in Added(segs, s)
  {
    if s.start == StartOf(segs) && segs[|segs| - 1].end <= s.end { assert Added(segs, s)[i] == segs[i]; }
  }
}
