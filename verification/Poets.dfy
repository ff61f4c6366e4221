/** Making a sentence: the heaviest way to cover the whole input with words. */
module Poets {
  import opened Commons
  import opened Spellings
  import opened Vocabularies

  /** For each start position and each end position, the words between them, best first. */
  type WordGraph = map<nat, map<nat, seq<DictEntry>>>

  function TenTo(n: nat): (r: real)
    ensures r > 0.0
  {
    if n == 0 then 1.0 else 10.0 * TenTo(n - 1)
  }

  const EPSILON: real := 1.0 / TenTo(200)
  const PENALTY: real := 1.0 / TenTo(8)

  /** Ten to the hundredth. */
  const GOOGOL: real := 10000000000000000000000000000000000000000000000000000000000000000000000000000000000000000000000000000.0

  lemma {:induction false} TensAdd(a: nat, b: nat)
    ensures TenTo(a + b) == TenTo(a) * TenTo(b)
  {
    if a > 0 {
      TensAdd(a - 1, b);
      assert 10.0 * (TenTo(a - 1) * TenTo(b)) == (10.0 * TenTo(a - 1)) * TenTo(b);
    }
  }

  /** The constants, written out. */
  lemma ConstantsAre()
    ensures PENALTY == 1.0 / 100000000.0 && EPSILON == 1.0 / (GOOGOL * GOOGOL) && EPSILON > 0.0
  {
    HundredTens();
    hide TenTo;
    TensAdd(100, 100);
  }

  lemma FourTens()
    ensures TenTo(4) == 10000.0
  {
  }

  lemma HundredTens()
    ensures TenTo(8) == 100000000.0 && TenTo(100) == GOOGOL
  {
    FourTens();
    hide TenTo;
    TensAdd(4, 4);
    TensAdd(8, 8);
    TensAdd(16, 16);
    TensAdd(32, 32);
    TensAdd(64, 32);
    TensAdd(96, 4);
  }

  // ----- sentences -----

  /** What a sentence says. */
  datatype Line = Line(text: string, code: seq<int>, weight: real, components: seq<DictEntry>, syllableLengths: seq<int>, end: nat)

  const EMPTY_LINE := Line("", [], 1.0, [], [], 0)

  function Factor(e: DictEntry): real {
    Times(if e.weight < EPSILON then EPSILON else e.weight, PENALTY)
  }

  function Extended(l: Line, e: DictEntry, endPos: nat): Line {
    Line(l.text + e.text, l.code + e.code, Times(l.weight, Factor(e)), l.components + [e],
         l.syllableLengths + [endPos - l.end], endPos)
  }

  /** What one more word does to the weight: it is multiplied by that of the word, and divided by ten
      to the eighth; a word that weighs less than ten to the minus two hundredth counts as that. */
  lemma WordWeighs(l: Line, e: DictEntry, endPos: nat)
    ensures var weight := Extended(l, e, endPos).weight;
            && (e.weight * (GOOGOL * GOOGOL) >= 1.0 ==> weight * 100000000.0 == l.weight * e.weight)
            && (e.weight * (GOOGOL * GOOGOL) < 1.0 ==> weight * 100000000.0 * (GOOGOL * GOOGOL) == l.weight)
  {
    ConstantsAre();
    hide TenTo;
    var tiny := GOOGOL * GOOGOL;
    assert e.weight * tiny >= 1.0 <==> e.weight >= 1.0 / tiny;
    if e.weight >= 1.0 / tiny {
      Scaled(l.weight, e.weight);
    } else {
      Scaled(l.weight, 1.0 / tiny);
    }
  }

  lemma Scaled(a: real, b: real)
    ensures Times(a, Times(b, 1.0 / 100000000.0)) * 100000000.0 == a * b
  {
    assert Times(b, 1.0 / 100000000.0) * 100000000.0 == b;
    assert a * (Times(b, 1.0 / 100000000.0) * 100000000.0) == (a * Times(b, 1.0 / 100000000.0)) * 100000000.0;
  }

  /** A word that weighs no more than ten to the eighth never makes a sentence heavier. */
  lemma NeverHeavier(l: Line, e: DictEntry, endPos: nat)
    requires l.weight >= 0.0 && e.weight <= 100000000.0
    ensures Extended(l, e, endPos).weight <= l.weight
  {
    ConstantsAre();
    hide TenTo;
    var w := if e.weight < EPSILON then EPSILON else e.weight;
    assert w <= 100000000.0;
    TimesMonotone(1.0, Times(w, 1.0 / 100000000.0), l.weight);
  }

  class Sentence {
    var text: string
    var code: seq<int>
    var weight: real
    var components: seq<DictEntry>
    var syllableLengths: seq<int>
    var end: nat

    ghost function Value(): Line
      reads this
    {
      Line(text, code, weight, components, syllableLengths, end)
    }

    constructor ()
      ensures Value() == EMPTY_LINE
    {
      text, code, weight, components, syllableLengths, end := "", [], 1.0, [], [], 0;
    }

    constructor Copy(other: Sentence)
      ensures Value() == other.Value()
    {
      text, code, weight := other.text, other.code, other.weight;
      components, syllableLengths, end := other.components, other.syllableLengths, other.end;
    }

    method Extend(e: DictEntry, endPos: nat)
      modifies this
      ensures Value() == Extended(old(Value()), e, endPos)
      ensures e.weight * (GOOGOL * GOOGOL) >= 1.0 ==> weight * 100000000.0 == old(weight) * e.weight
      ensures e.weight * (GOOGOL * GOOGOL) < 1.0 ==> weight * 100000000.0 * (GOOGOL * GOOGOL) == old(weight)
    {
      hide TenTo, GOOGOL;
      WordWeighs(Value(), e, endPos);
      code := code + e.code;
      text := text + e.text;
      weight := Times(weight, Times(if e.weight < EPSILON then EPSILON else e.weight, PENALTY));
      components := components + [e];
      syllableLengths := syllableLengths + [endPos - end];
      end := endPos;
    }
  }

  // ----- ways through the graph -----

  /** The end positions of the words of a sentence. */
  type Route = seq<nat>

  ghost function EndOf(r: Route): nat {
    if |r| == 0 then 0 else r[|r| - 1]
  }

  ghost function LastStart(r: Route): nat {
    if |r| == 0 then 0 else EndOf(r[..|r| - 1])
  }

  ghost predicate HasWord(graph: WordGraph, start: nat, end: nat) {
    start in graph && end in graph[start] && |graph[start][end]| > 0
  }

  ghost function FirstWord(graph: WordGraph, start: nat, end: nat): DictEntry {
    if HasWord(graph, start, end) then graph[start][end][0] else DictEntry("", [], 0.0)
  }

  /** A route may use any word but one that covers the whole input by itself. */
  ghost predicate MayUse(graph: WordGraph, total: nat, start: nat, end: nat) {
    HasWord(graph, start, end) && !(start == 0 && end == total)
  }

  ghost predicate IsRoute(graph: WordGraph, total: nat, r: Route) {
    |r| == 0 || (IsRoute(graph, total, r[..|r| - 1]) && MayUse(graph, total, LastStart(r), EndOf(r)))
  }

  /** The sentence a route makes of the first word of each step. */
  ghost function Rendered(graph: WordGraph, r: Route): Line {
    if |r| == 0 then EMPTY_LINE
    else Extended(Rendered(graph, r[..|r| - 1]), FirstWord(graph, LastStart(r), EndOf(r)), EndOf(r))
  }

  /** The words of a route all weigh one. */
  ghost predicate UnitWords(graph: WordGraph, r: Route) {
    forall k :: 0 <= k < |r| ==> FirstWord(graph, EndOf(r[..k]), r[k]).weight == 1.0
  }

  lemma UnitInit(graph: WordGraph, r: Route)
    requires |r| > 0 && UnitWords(graph, r)
    ensures UnitWords(graph, r[..|r| - 1])
    ensures Rendered(graph, r).weight == Rendered(graph, r[..|r| - 1]).weight / 100000000.0
  {
    var init := r[..|r| - 1];
    forall k | 0 <= k < |init|
      ensures FirstWord(graph, EndOf(init[..k]), init[k]).weight == 1.0
    {
      assert init[..k] == r[..k] && init[k] == r[k];
    }
    ConstantsAre();
    hide TenTo, Rendered;
    var e := FirstWord(graph, LastStart(r), EndOf(r));
    assert e.weight == 1.0 && EPSILON < 1.0;
    RenderedStep(graph, r);
  }

  lemma RenderedStep(graph: WordGraph, r: Route)
    requires |r| > 0
    ensures Rendered(graph, r)
            == Extended(Rendered(graph, r[..|r| - 1]), FirstWord(graph, LastStart(r), EndOf(r)), EndOf(r))
  {
  }

  lemma {:induction false} UnitWeight(graph: WordGraph, r: Route)
    requires UnitWords(graph, r)
    ensures Rendered(graph, r).weight > 0.0
    ensures forall o :: UnitWords(graph, o) && |o| == |r| ==> Rendered(graph, o).weight == Rendered(graph, r).weight
    decreases |r|
  {
    if |r| > 0 {
      UnitInit(graph, r);
      UnitWeight(graph, r[..|r| - 1]);
      hide Rendered, UnitWords, EndOf, LastStart, FirstWord;
      forall o | UnitWords(graph, o) && |o| == |r|
        ensures Rendered(graph, o).weight == Rendered(graph, r).weight
      {
        UnitInit(graph, o);
      }
    }
  }

  /** Of two routes whose words all weigh one, that of fewer words is the heavier one. */
  lemma {:induction false} FewerWordsWin(graph: WordGraph, a: Route, b: Route)
    requires UnitWords(graph, a) && UnitWords(graph, b) && |a| < |b|
    ensures Rendered(graph, a).weight > Rendered(graph, b).weight
    decreases |b|
  {
    UnitWeight(graph, a);
    UnitInit(graph, b);
    hide Rendered, UnitWords;
    var init := b[..|b| - 1];
    UnitWeight(graph, init);
    if |a| < |init| { FewerWordsWin(graph, a, init); }
  }

  ghost predicate Forward(graph: WordGraph) {
    forall s, e :: s in graph && e in graph[s] ==> s < e
  }

  // ----- the best route -----

  /** A route to `end` whose last word starts at one of the positions `starts`. */
  ghost predicate Reaches(graph: WordGraph, total: nat, r: Route, end: nat, starts: set<int>) {
    IsRoute(graph, total, r) && EndOf(r) == end && (|r| > 0 ==> LastStart(r) as int in starts)
  }

  ghost predicate Reached(graph: WordGraph, total: nat, end: nat, starts: set<int>) {
    exists r :: Reaches(graph, total, r, end, starts)
  }

  /** No route weighs more than `r`, and none whose last word starts earlier weighs as much. */
  ghost predicate Heaviest(graph: WordGraph, total: nat, r: Route, end: nat, starts: set<int>) {
    && Reaches(graph, total, r, end, starts)
    && forall o :: Reaches(graph, total, o, end, starts) ==>
         && Rendered(graph, o).weight <= Rendered(graph, r).weight
         && (LastStart(o) < LastStart(r) ==> Rendered(graph, o).weight < Rendered(graph, r).weight)
  }

  ghost predicate IsBest(graph: WordGraph, total: nat, end: nat, starts: set<int>, line: Line) {
    exists r :: Heaviest(graph, total, r, end, starts) && Rendered(graph, r) == line
  }

  /** The state of the dynamic programming once the positions `starts` are done. */
  ghost predicate Ready(graph: WordGraph, total: nat, starts: set<int>, lines: map<nat, Line>) {
    forall p: nat ::
      && (p in lines <==> Reached(graph, total, p, starts))
      && (p in lines ==> IsBest(graph, total, p, starts, lines[p]))
  }

  lemma StartsReady(graph: WordGraph, total: nat)
    ensures Ready(graph, total, {}, map[0 := EMPTY_LINE])
  {
    assert Reaches(graph, total, [], 0, {});
    assert Heaviest(graph, total, [], 0, {});
    forall p: nat | Reached(graph, total, p, {})
      ensures p == 0
    {
      var r :| Reaches(graph, total, r, p, {});
    }
  }

  /** What the words from `start` to `end` make of the line for `end`. */
  function Improved(lines: map<nat, Line>, line: Line, e: DictEntry, end: nat): Line {
    var new_ := Extended(line, e, end);
    if end !in lines || lines[end].weight < new_.weight then new_ else lines[end]
  }

  /** The lines once all words from `start` have been tried. */
  ghost predicate Stepped(graph: WordGraph, total: nat, start: nat, lines: map<nat, Line>, next: map<nat, Line>)
    requires start in lines
  {
    forall p: nat ::
      if MayUse(graph, total, start, p)
      then p in next && next[p] == Improved(lines, lines[start], FirstWord(graph, start, p), p)
      else (p in next <==> p in lines) && (p in lines ==> next[p] == lines[p])
  }

  /** All that is before a position has been done when it is its turn. */
  ghost predicate Turn(graph: WordGraph, starts: set<int>, start: nat) {
    start in graph && start as int !in starts && forall s: nat :: s in graph && s < start ==> s as int in starts
  }

  lemma FactorIsPositive(e: DictEntry)
    ensures Factor(e) > 0.0
  {
    var w := if e.weight < EPSILON then EPSILON else e.weight;
    assert EPSILON > 0.0 && PENALTY > 0.0;
    assert w * PENALTY > 0.0;
  }

  /** A route to `start`, whatever its last word, is one the earlier steps have seen. */
  lemma EarlierRoute(graph: WordGraph, total: nat, starts: set<int>, start: nat, r: Route)
    requires Forward(graph) && Turn(graph, starts, start) && IsRoute(graph, total, r) && EndOf(r) == start
    ensures Reaches(graph, total, r, start, starts)
  {
  }

  /** One word more. */
  lemma Append(graph: WordGraph, total: nat, r: Route, end: nat)
    ensures EndOf(r + [end]) == end && LastStart(r + [end]) == EndOf(r)
    ensures IsRoute(graph, total, r + [end]) <==> IsRoute(graph, total, r) && MayUse(graph, total, EndOf(r), end)
    ensures Rendered(graph, r + [end]) == Extended(Rendered(graph, r), FirstWord(graph, EndOf(r), end), end)
  {
    assert (r + [end])[..|r|] == r;
  }

  /** Any route that ends with a word from `start` weighs no more than the best route to
      `start` and that word. */
  lemma NewRoutes(graph: WordGraph, total: nat, starts: set<int>, lines: map<nat, Line>, start: nat, end: nat, o: Route)
    requires Forward(graph) && Ready(graph, total, starts, lines) && Turn(graph, starts, start)
    requires IsRoute(graph, total, o) && |o| > 0 && LastStart(o) == start && EndOf(o) == end
    ensures start in lines && MayUse(graph, total, start, end)
    ensures Rendered(graph, o).weight <= Extended(lines[start], FirstWord(graph, start, end), end).weight
  {
    var init := o[..|o| - 1];
    EarlierRoute(graph, total, starts, start, init);
    assert Reached(graph, total, start, starts);
    assert IsBest(graph, total, start, starts, lines[start]);
    var e := FirstWord(graph, start, end);
    FactorIsPositive(e);
    TimesMonotone(lines[start].weight, Rendered(graph, init).weight, Factor(e));
  }

  lemma BestAt(graph: WordGraph, total: nat, starts: set<int>, lines: map<nat, Line>, p: nat) returns (r: Route)
    requires Ready(graph, total, starts, lines) && p in lines
    ensures Heaviest(graph, total, r, p, starts) && Rendered(graph, r) == lines[p]
  {
    assert IsBest(graph, total, p, starts, lines[p]);
    r :| Heaviest(graph, total, r, p, starts) && Rendered(graph, r) == lines[p];
  }

  lemma ReachesMore(graph: WordGraph, total: nat, starts: set<int>, start: nat, end: nat, o: Route)
    ensures Reaches(graph, total, o, end, starts + {start as int}) <==>
              Reaches(graph, total, o, end, starts) || (IsRoute(graph, total, o) && |o| > 0 && LastStart(o) == start && EndOf(o) == end)
  {
  }

  /** The new line is the best with the words from `start` counted in. */
  lemma ImprovedIsBest(graph: WordGraph, total: nat, starts: set<int>, lines: map<nat, Line>, start: nat, end: nat)
    requires Forward(graph) && Ready(graph, total, starts, lines) && Turn(graph, starts, start) && start in lines
    requires forall s :: s in starts ==> s < start
    requires MayUse(graph, total, start, end)
    ensures IsBest(graph, total, end, starts + {start as int}, Improved(lines, lines[start], FirstWord(graph, start, end), end))
  {
    var e := FirstWord(graph, start, end);
    var before := BestAt(graph, total, starts, lines, start);
    var r := before + [end];
    Append(graph, total, before, end);
    var all := starts + {start as int};
    ReachesMore(graph, total, starts, start, end, r);
    var best := r;
    if end in lines && !(lines[end].weight < Extended(lines[start], e, end).weight) {
      best := BestAt(graph, total, starts, lines, end);
      ReachesMore(graph, total, starts, start, end, best);
    }
    forall o | Reaches(graph, total, o, end, all)
      ensures Rendered(graph, o).weight <= Rendered(graph, best).weight
      ensures LastStart(o) < LastStart(best) ==> Rendered(graph, o).weight < Rendered(graph, best).weight
    {
      ReachesMore(graph, total, starts, start, end, o);
      if Reaches(graph, total, o, end, starts) {
        OldRoute(graph, total, starts, lines, end, o);
      } else {
        NewRoutes(graph, total, starts, lines, start, end, o);
      }
    }
    assert Heaviest(graph, total, best, end, all);
  }

  lemma OldRoute(graph: WordGraph, total: nat, starts: set<int>, lines: map<nat, Line>, end: nat, o: Route)
    requires Ready(graph, total, starts, lines) && Reaches(graph, total, o, end, starts)
    ensures end in lines && Rendered(graph, o).weight <= lines[end].weight
  {
    assert Reached(graph, total, end, starts);
    assert IsBest(graph, total, end, starts, lines[end]);
  }

  /** A position that gets no word from `start` keeps its line. */
  lemma SameIsBest(graph: WordGraph, total: nat, starts: set<int>, lines: map<nat, Line>, start: nat, end: nat)
    requires Forward(graph) && Ready(graph, total, starts, lines) && Turn(graph, starts, start)
    requires start in lines ==> !MayUse(graph, total, start, end)
    ensures Reached(graph, total, end, starts + {start as int}) <==> Reached(graph, total, end, starts)
    ensures end in lines ==> IsBest(graph, total, end, starts + {start as int}, lines[end])
  {
    forall o
      ensures Reaches(graph, total, o, end, starts + {start as int}) <==> Reaches(graph, total, o, end, starts)
    {
      ReachesMore(graph, total, starts, start, end, o);
      if IsRoute(graph, total, o) && |o| > 0 && LastStart(o) == start && EndOf(o) == end {
        NewRoutes(graph, total, starts, lines, start, end, o);
      }
    }
    var all := starts + {start as int};
    if r :| Reaches(graph, total, r, end, all) { assert Reaches(graph, total, r, end, starts); }
    if r :| Reaches(graph, total, r, end, starts) { assert Reaches(graph, total, r, end, all); }
    if end in lines {
      var r := BestAt(graph, total, starts, lines, end);
      assert Heaviest(graph, total, r, end, all);
    }
  }

  lemma StepIsReady(graph: WordGraph, total: nat, starts: set<int>, lines: map<nat, Line>, start: nat, next: map<nat, Line>)
    requires Forward(graph) && Ready(graph, total, starts, lines) && Turn(graph, starts, start)
    requires forall s :: s in starts ==> s < start
    requires if start in lines then Stepped(graph, total, start, lines, next) else next == lines
    ensures Ready(graph, total, starts + {start as int}, next)
  {
    var all := starts + {start as int};
    forall p: nat
      ensures p in next <==> Reached(graph, total, p, all)
      ensures p in next ==> IsBest(graph, total, p, all, next[p])
    {
      if start in lines && MayUse(graph, total, start, p) {
        ImprovedIsBest(graph, total, starts, lines, start, p);
        BestIsReached(graph, total, p, all, next[p]);
      } else {
        SameIsBest(graph, total, starts, lines, start, p);
      }
    }
  }

  lemma BestIsReached(graph: WordGraph, total: nat, end: nat, starts: set<int>, line: Line)
    requires IsBest(graph, total, end, starts, line)
    ensures Reached(graph, total, end, starts)
  {
  }

  // ----- the method -----

  /** `starts` are done and `rest` are still to do, from left to right. */
  ghost predicate InTurn(graph: WordGraph, starts: set<int>, rest: set<int>) {
    rest <= graph.Keys && starts == graph.Keys - rest && forall s, t :: s in starts && t in rest ==> s < t
  }

  lemma TurnsBegin(graph: WordGraph)
    ensures InTurn(graph, {}, graph.Keys)
  {
  }

  lemma TurnsEnd(graph: WordGraph, starts: set<int>, rest: set<int>)
    requires InTurn(graph, starts, rest) && |rest| == 0
    ensures starts == graph.Keys
  {
  }

  lemma TakeTurn(graph: WordGraph, starts: set<int>, rest: set<int>)
    requires InTurn(graph, starts, rest) && |rest| > 0
    ensures var start := Least(rest);
            && start >= 0 && start in graph && Turn(graph, starts, start)
            && (forall s :: s in starts ==> s < start)
            && InTurn(graph, starts + {start}, rest - {start})
  {
    var start := Least(rest);
    assert graph.Keys - (rest - {start}) == starts + {start};
  }

  ghost predicate Tied(sentences: map<nat, Sentence>, lines: map<nat, Line>)
    reads sentences.Values
  {
    sentences.Keys == lines.Keys && forall p :: p in sentences ==> sentences[p].Value() == lines[p]
  }

  /** The lines while the words from `start` to `ends` have been tried. */
  ghost predicate Stepping(graph: WordGraph, total: nat, start: nat, lines: map<nat, Line>, next: map<nat, Line>, rest: set<int>)
    requires start in lines
  {
    forall p: nat ::
      if MayUse(graph, total, start, p) && p as int !in rest
      then p in next && next[p] == Improved(lines, lines[start], FirstWord(graph, start, p), p)
      else (p in next <==> p in lines) && (p in lines ==> next[p] == lines[p])
  }

  /** Tries the word from `start` to `end`. */
  method TryWord(sentences: map<nat, Sentence>, start: nat, entries: seq<DictEntry>, end: nat, ghost lines: map<nat, Line>)
    returns (r: map<nat, Sentence>)
    requires start in sentences && Tied(sentences, lines)
    ensures |entries| == 0 ==> r == sentences
    ensures |entries| > 0 ==> Tied(r, lines[end := Improved(lines, lines[start], entries[0], end)])
    ensures forall p :: p in r ==> (p in sentences && r[p] == sentences[p]) || fresh(r[p])
  {
    r := sentences;
    if |entries| > 0 {
      var sentence := new Sentence.Copy(sentences[start]);
      sentence.Extend(entries[0], end);
      if end !in sentences || sentences[end].weight < sentence.weight {
        r := sentences[end := sentence];
      }
    }
  }

  lemma SteppingOn(graph: WordGraph, total: nat, start: nat, lines: map<nat, Line>, next: map<nat, Line>, rest: set<int>, end: nat)
    requires Forward(graph) && start in lines && start in graph && end in graph[start] && end as int in rest
    requires Stepping(graph, total, start, lines, next, rest)
    ensures start in next
    ensures (!MayUse(graph, total, start, end) ==> Stepping(graph, total, start, lines, next, rest - {end as int}))
    ensures MayUse(graph, total, start, end) ==>
              Stepping(graph, total, start, lines, next[end := Improved(next, next[start], FirstWord(graph, start, end), end)],
                       rest - {end as int})
  {
    assert !MayUse(graph, total, start, start);
    assert next[start] == lines[start];
    assert end in next <==> end in lines;
    assert end in lines ==> next[end] == lines[end];
  }

  /** Tries the words from `start` to `end`, unless they are the whole input. */
  method TryEnd(graph: WordGraph, total: nat, sentences: map<nat, Sentence>, start: nat, end: nat,
                ghost lines: map<nat, Line>, ghost next: map<nat, Line>, ghost rest: set<int>)
    returns (r: map<nat, Sentence>, ghost after: map<nat, Line>)
    requires Forward(graph) && start in graph && end in graph[start] && end in rest && start in sentences && start in lines
    requires Tied(sentences, next) && Stepping(graph, total, start, lines, next, rest)
    ensures start in r && Tied(r, after) && Stepping(graph, total, start, lines, after, rest - {end})
    ensures forall p :: p in r ==> (p in sentences && r[p] == sentences[p]) || fresh(r[p])
  {
    hide Stepping, Tied, MayUse, Forward, Improved, FirstWord;
    r, after := sentences, next;
    SteppingOn(graph, total, start, lines, next, rest, end);
    SameKeys(sentences, next);
    UseOf(graph, total, start, end);
    if !(start == 0 && end == total) {
      r := TryWord(sentences, start, graph[start][end], end, next);
      if |graph[start][end]| > 0 {
        after := next[end := Improved(next, next[start], graph[start][end][0], end)];
      }
      SameKeys(r, after);
    }
  }

  /** Tries all words from `start`. */
  method TryWords(graph: WordGraph, total: nat, sentences: map<nat, Sentence>, start: nat, ghost lines: map<nat, Line>)
    returns (r: map<nat, Sentence>, ghost next: map<nat, Line>)
    requires Forward(graph) && start in graph && start in sentences && Tied(sentences, lines)
    ensures Tied(r, next) && Stepped(graph, total, start, lines, next)
    ensures forall p :: p in r ==> (p in sentences && r[p] == sentences[p]) || fresh(r[p])
  {
    hide Tied, Stepping, Stepped, MayUse, HasWord, Forward, Improved, FirstWord;
    r, next := sentences, lines;
    var rest: set<int> := graph[start].Keys;
    SameKeys(sentences, lines);
    NothingTried(graph, total, start, lines, rest);
    while |rest| > 0
      invariant rest <= graph[start].Keys && Tied(r, next) && start in r
      invariant Stepping(graph, total, start, lines, next, rest)
      invariant forall p :: p in r ==> (p in sentences && r[p] == sentences[p]) || fresh(r[p])
    {
      var end := Least(rest);
      r, next := TryEnd(graph, total, r, start, end, lines, next, rest);
      rest := rest - {end};
    }
    NothingLeft(graph, total, start, lines, next);
  }

  lemma NothingTried(graph: WordGraph, total: nat, start: nat, lines: map<nat, Line>, rest: set<int>)
    requires start in lines && start in graph && rest == graph[start].Keys
    ensures Stepping(graph, total, start, lines, lines, rest)
  {
  }

  lemma NothingLeft(graph: WordGraph, total: nat, start: nat, lines: map<nat, Line>, next: map<nat, Line>)
    requires start in lines && Stepping(graph, total, start, lines, next, {})
    ensures Stepped(graph, total, start, lines, next)
  {
  }

  lemma SameKeys(sentences: map<nat, Sentence>, lines: map<nat, Line>)
    requires Tied(sentences, lines)
    ensures forall p :: p in sentences <==> p in lines
  {
  }

  lemma UseOf(graph: WordGraph, total: nat, start: nat, end: nat)
    requires start in graph && end in graph[start]
    ensures MayUse(graph, total, start, end) <==> |graph[start][end]| > 0 && !(start == 0 && end == total)
    ensures |graph[start][end]| > 0 ==> FirstWord(graph, start, end) == graph[start][end][0]
  {
  }

  /** Goes on from the next start position, if a sentence ends there. */
  method TryFrom(graph: WordGraph, total: nat, sentences: map<nat, Sentence>, start: nat,
                 ghost lines: map<nat, Line>, ghost starts: set<int>, ghost rest: set<int>)
    returns (r: map<nat, Sentence>, ghost next: map<nat, Line>)
    requires Forward(graph) && InTurn(graph, starts, rest) && |rest| > 0 && start == Least(rest)
    requires Tied(sentences, lines) && Ready(graph, total, starts, lines)
    ensures InTurn(graph, starts + {start}, rest - {start})
    ensures Tied(r, next) && Ready(graph, total, starts + {start}, next)
    ensures forall p :: p in r ==> (p in sentences && r[p] == sentences[p]) || fresh(r[p])
  {
    hide Ready, Tied, Stepped, Forward, Turn, InTurn, IsBest, IsRoute;
    SameKeys(sentences, lines);
    TakeTurn(graph, starts, rest);
    r, next := sentences, lines;
    if start in sentences {
      r, next := TryWords(graph, total, sentences, start, lines);
    }
    StepIsReady(graph, total, starts, lines, start, next);
  }

  /** Main result: there is a sentence exactly when some route of words covers the input, and
      it is the one of a heaviest route. */
  method MakeSentence(graph: WordGraph, totalLength: nat) returns (sentence: Sentence?)
    requires Forward(graph)
    ensures sentence == null <==> forall r :: IsRoute(graph, totalLength, r) ==> EndOf(r) != totalLength
    ensures sentence != null ==> fresh(sentence) && IsBest(graph, totalLength, totalLength, graph.Keys, sentence.Value())
    ensures sentence != null && totalLength > 0 ==> |sentence.components| >= 2
  {
    var empty := new Sentence();
    var sentences: map<nat, Sentence> := map[0 := empty];
    ghost var lines: map<nat, Line> := map[0 := EMPTY_LINE];
    ghost var starts: set<int> := {};
    var rest: set<int> := graph.Keys;
    hide Ready, IsBest, IsRoute, Forward, InTurn, EndOf, Tied, Sentence.Value;
    TiedOnce(empty);
    StartsReady(graph, totalLength);
    TurnsBegin(graph);
    while |rest| > 0
      invariant InTurn(graph, starts, rest)
      invariant forall p :: p in sentences ==> fresh(sentences[p])
      invariant Tied(sentences, lines) && Ready(graph, totalLength, starts, lines)
    {
      var start := Least(rest);
      sentences, lines := TryFrom(graph, totalLength, sentences, start, lines, starts, rest);
      starts := starts + {start};
      rest := rest - {start};
    }
    TurnsEnd(graph, starts, rest);
    AllDone(graph, totalLength, lines);
    TiedAt(sentences, lines, totalLength);
    if totalLength !in sentences {
      return null;
    }
    sentence := sentences[totalLength];
  }

  lemma TiedOnce(empty: Sentence)
    requires empty.Value() == EMPTY_LINE
    ensures Tied(map[0 := empty], map[0 := EMPTY_LINE])
  {
  }

  lemma TiedAt(sentences: map<nat, Sentence>, lines: map<nat, Line>, p: nat)
    requires Tied(sentences, lines)
    ensures p in sentences <==> p in lines
    ensures p in sentences ==> sentences[p].Value() == lines[p] && sentences[p].components == lines[p].components
  {
  }

  /** Once all start positions are done, the line for the end is the sentence. */
  lemma AllDone(graph: WordGraph, total: nat, lines: map<nat, Line>)
    requires Forward(graph) && Ready(graph, total, graph.Keys, lines)
    ensures total in lines <==> exists r :: IsRoute(graph, total, r) && EndOf(r) == total
    ensures total in lines ==> IsBest(graph, total, total, graph.Keys, lines[total])
    ensures total in lines && total > 0 ==> |lines[total].components| >= 2
  {
    AllStarts(graph, total);
    hide IsBest, IsRoute, Forward, Reached;
    if total in lines && total > 0 { BestHasTwoWords(graph, total, lines[total]); }
  }

  lemma AllStarts(graph: WordGraph, total: nat)
    ensures Reached(graph, total, total, graph.Keys) <==> exists r :: IsRoute(graph, total, r) && EndOf(r) == total
  {
    if r :| IsRoute(graph, total, r) && EndOf(r) == total {
      assert Reaches(graph, total, r, total, graph.Keys);
    }
  }

  // ----- what a sentence is made of -----

  function Sum(lengths: seq<int>): int {
    if |lengths| == 0 then 0 else Sum(lengths[..|lengths| - 1]) + lengths[|lengths| - 1]
  }

  ghost function Words(graph: WordGraph, r: Route): seq<DictEntry> {
    if |r| == 0 then [] else Words(graph, r[..|r| - 1]) + [FirstWord(graph, LastStart(r), EndOf(r))]
  }

  ghost function Texts(words: seq<DictEntry>): string {
    if |words| == 0 then "" else Texts(words[..|words| - 1]) + words[|words| - 1].text
  }

  ghost function Codes(words: seq<DictEntry>): seq<int> {
    if |words| == 0 then [] else Codes(words[..|words| - 1]) + words[|words| - 1].code
  }

  ghost function Weigh(words: seq<DictEntry>): real {
    if |words| == 0 then 1.0 else Times(Weigh(words[..|words| - 1]), Factor(words[|words| - 1]))
  }

  /** The sentence of a route is the concatenation of its words; their lengths, each positive,
      add up to the end position. */
  lemma {:induction false} RenderedWords(graph: WordGraph, total: nat, r: Route)
    requires Forward(graph) && IsRoute(graph, total, r)
    ensures var l := Rendered(graph, r);
            && l.components == Words(graph, r) && l.text == Texts(Words(graph, r)) && l.code == Codes(Words(graph, r))
            && l.weight == Weigh(Words(graph, r))
            && l.end == EndOf(r) == Sum(l.syllableLengths) && |l.syllableLengths| == |l.components|
            && forall n :: n in l.syllableLengths ==> n > 0
  {
    hide Factor;
    if |r| > 0 { RenderedWords(graph, total, r[..|r| - 1]); }
  }

  /** A sentence for a nonempty input has at least two words. */
  lemma AtLeastTwoWords(graph: WordGraph, total: nat, r: Route)
    requires IsRoute(graph, total, r) && EndOf(r) == total && total > 0
    ensures |Words(graph, r)| >= 2
  {
    assert |r| >= 2;
    assert |Words(graph, r[..|r| - 1])| >= 1;
  }

  lemma BestHasTwoWords(graph: WordGraph, total: nat, line: Line)
    requires Forward(graph) && IsBest(graph, total, total, graph.Keys, line) && total > 0
    ensures |line.components| >= 2
  {
    hide Forward, IsRoute;
    var r :| Heaviest(graph, total, r, total, graph.Keys) && Rendered(graph, r) == line;
    RenderedWords(graph, total, r);
    AtLeastTwoWords(graph, total, r);
  }
}
