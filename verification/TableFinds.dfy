/** Everything a table query finds is a path of the graph that spells a key of the table, and
    every such path is found once. */
module TableFinds {
  import opened Spellings
  import opened GraphEdges
  import opened Groupings
  import opened Vocabularies
  import opened TableVisitors
  import opened TableWalks
  import opened TablePaths

  /** What can be found: a word spelled by a whole path, or the longer phrases that begin with
      what the path spells. */
  datatype Find = Word(t: Trail) | Long(t: Trail)

  /** The slot of a find and the end position it is met at. */
  ghost function HitOf(v: Vocabulary, g: Graph, start: nat, f: Find): Hit {
    match f
    case Word(t) =>
      var before := StopOf(g, start, if |t| == 0 then [] else t[..|t| - 1]);
      var id := if |t| == 0 then TAIL_KEY else t[|t| - 1].id;
      At(StopOf(g, start, t).pos, AccessorFor(v, before.code, id, before.Credibility()))
    case Long(t) =>
      var stop := StopOf(g, start, t);
      At(stop.pos, AccessorFor(v, stop.code, TAIL_KEY, stop.Credibility()))
  }

  ghost function CodeOf(g: Graph, start: nat, t: Trail): seq<int> {
    StopOf(g, start, t).code
  }

  /** Paths that spell a code with entries; for longer codes the path must have somewhere to
      go on from. */
  ghost predicate IsFind(v: Vocabulary, g: Graph, start: nat, f: Find) {
    && IsPath(g, start, f.t) && 1 <= |f.t| <= INDEX_CODE_MAX_LENGTH
    && (f.Word? ==> EntriesAt(v, CodeOf(g, start, f.t)) != [])
    && (f.Long? ==>
          && |f.t| == INDEX_CODE_MAX_LENGTH
          && StopOf(g, start, f.t).pos < g.length && StopOf(g, start, f.t).pos in g.indices
          && EntriesAt(v, CodeOf(g, start, f.t) + [TAIL_KEY]) != [])
  }

  // ----- the finds in the order the walk makes them -----

  ghost function WordsBy(v: Vocabulary, stop: Stop, t: Trail, cs: seq<Choice>): seq<Find> {
    if |cs| == 0 then []
    else
      var c := cs[|cs| - 1];
      WordsBy(v, stop, t, cs[..|cs| - 1]) + (if HasEntries(v, stop.code, c.id) then [Word(t + [c])] else [])
  }

  ghost function FindsOf(v: Vocabulary, g: Graph, start: nat, t: Trail): seq<Find> {
    var stop := StopOf(g, start, t);
    if stop.pos !in g.indices then []
    else if |t| == INDEX_CODE_MAX_LENGTH then (if HasEntries(v, stop.code, TAIL_KEY) then [Long(t)] else [])
    else WordsBy(v, stop, t, EdgesFrom(g, stop.pos))
  }

  ghost function FindsOfAll(v: Vocabulary, g: Graph, start: nat, ts: seq<Trail>): seq<Find> {
    if |ts| == 0 then [] else FindsOfAll(v, g, start, ts[..|ts| - 1]) + FindsOf(v, g, start, ts[|ts| - 1])
  }

  ghost function FindsUpTo(v: Vocabulary, g: Graph, start: nat, n: nat): seq<Find> {
    (if n == 0 then [] else FindsUpTo(v, g, start, n - 1)) + FindsOfAll(v, g, start, TrailsAt(v, g, start, n))
  }

  ghost function Finds(v: Vocabulary, g: Graph, start: nat): seq<Find> {
    FindsUpTo(v, g, start, INDEX_CODE_MAX_LENGTH)
  }

  ghost function HitsAt(v: Vocabulary, g: Graph, start: nat, fs: seq<Find>): seq<Hit> {
    seq(|fs|, i requires 0 <= i < |fs| => HitOf(v, g, start, fs[i]))
  }

  lemma HitsAtConcat(v: Vocabulary, g: Graph, start: nat, a: seq<Find>, b: seq<Find>)
    ensures HitsAt(v, g, start, a + b) == HitsAt(v, g, start, a) + HitsAt(v, g, start, b)
  {
    hide HitOf;
  }

  lemma NoHits(v: Vocabulary, g: Graph, start: nat)
    ensures HitsAt(v, g, start, []) == []
  {
  }

  // ----- the hits of the walk are those of the finds -----

  lemma OneWord(v: Vocabulary, g: Graph, start: nat, t: Trail, c: Choice)
    ensures var stop := StopOf(g, start, t);
            HitsAt(v, g, start, if HasEntries(v, stop.code, c.id) then [Word(t + [c])] else [])
            == HitBy(v, stop, c.id, Edge(g, stop.pos, c))
  {
    hide HasEntries, AccessorFor, Edge;
    assert (t + [c])[..|t|] == t;
  }

  lemma {:induction false} WordHits(v: Vocabulary, g: Graph, start: nat, t: Trail, cs: seq<Choice>)
    requires StopOf(g, start, t).pos in g.indices
    ensures var stop := StopOf(g, start, t);
            HitsAt(v, g, start, WordsBy(v, stop, t, cs)) == Met(v, stop, g.indices[stop.pos], cs)
  {
    hide HitsAt, HasEntries, HitBy;
    var stop := StopOf(g, start, t);
    if |cs| == 0 {
      NoHits(v, g, start);
    } else {
      var init, c := cs[..|cs| - 1], cs[|cs| - 1];
      WordHits(v, g, start, t, init);
      HitsAtConcat(v, g, start, WordsBy(v, stop, t, init), if HasEntries(v, stop.code, c.id) then [Word(t + [c])] else []);
      OneWord(v, g, start, t, c);
    }
  }

  lemma TrailHits(v: Vocabulary, g: Graph, start: nat, t: Trail)
    ensures HitsAt(v, g, start, FindsOf(v, g, start, t)) == HitsOf(v, g, StopOf(g, start, t))
  {
    hide WordsBy, Met, AccessorFor;
    var stop := StopOf(g, start, t);
    if stop.pos in g.indices && |t| != INDEX_CODE_MAX_LENGTH { WordHits(v, g, start, t, EdgesFrom(g, stop.pos)); }
  }

  lemma {:induction false} AllTrailHits(v: Vocabulary, g: Graph, start: nat, ts: seq<Trail>)
    ensures HitsAt(v, g, start, FindsOfAll(v, g, start, ts)) == HitsOfAll(v, g, StopsOf(g, start, ts))
  {
    hide FindsOf, HitsOf, HitsAt;
    if |ts| == 0 {
      NoHits(v, g, start);
    } else {
      var init, t := ts[..|ts| - 1], ts[|ts| - 1];
      AllTrailHits(v, g, start, init);
      TrailHits(v, g, start, t);
      HitsAtConcat(v, g, start, FindsOfAll(v, g, start, init), FindsOf(v, g, start, t));
      assert StopsOf(g, start, ts)[..|ts| - 1] == StopsOf(g, start, init);
    }
  }

  lemma {:induction false} HitsUpToAre(v: Vocabulary, g: Graph, start: nat, n: nat)
    ensures HitsAt(v, g, start, FindsUpTo(v, g, start, n)) == HitsUpTo(v, g, Stop(start, [], ROOT_CRS), n)
  {
    hide FindsOfAll, HitsOfAll, HitsAt;
    if n == 0 {
      NoHits(v, g, start);
    } else {
      HitsUpToAre(v, g, start, n - 1);
    }
    TrailsAtStops(v, g, start, n);
    AllTrailHits(v, g, start, TrailsAt(v, g, start, n));
    HitsAtConcat(v, g, start, if n == 0 then [] else FindsUpTo(v, g, start, n - 1),
                 FindsOfAll(v, g, start, TrailsAt(v, g, start, n)));
  }

  // ----- each find once -----

  /** The walk comes upon `f` from the trail `t`. */
  ghost predicate FoundFrom(v: Vocabulary, g: Graph, start: nat, t: Trail, f: Find) {
    var stop := StopOf(g, start, t);
    match f
    case Long(u) => u == t && |t| == INDEX_CODE_MAX_LENGTH && stop.pos in g.indices && HasEntries(v, stop.code, TAIL_KEY)
    case Word(u) =>
      && |t| != INDEX_CODE_MAX_LENGTH && |u| == |t| + 1 && u[..|t|] == t
      && IsStepAt(g, stop.pos, u[|t|]) && HasEntries(v, stop.code, u[|t|].id)
  }

  lemma {:induction false} WordsByAre(v: Vocabulary, stop: Stop, t: Trail, cs: seq<Choice>)
    requires Once(cs)
    ensures Once(WordsBy(v, stop, t, cs))
    ensures forall f :: f in WordsBy(v, stop, t, cs) <==>
              f.Word? && |f.t| == |t| + 1 && f.t[..|t|] == t && f.t[|t|] in cs && HasEntries(v, stop.code, f.t[|t|].id)
  {
    hide HasEntries;
    if |cs| > 0 {
      var init, c := cs[..|cs| - 1], cs[|cs| - 1];
      assert cs == init + [c];
      WordsByAre(v, stop, t, init);
      assert c !in init;
      var more := if HasEntries(v, stop.code, c.id) then [Word(t + [c])] else [];
      forall f: Find
        ensures f in more <==> f.Word? && |f.t| == |t| + 1 && f.t[..|t|] == t && f.t[|t|] == c && HasEntries(v, stop.code, c.id)
      {
        if f.Word? && |f.t| == |t| + 1 && f.t[..|t|] == t { assert f.t == t + [f.t[|t|]]; }
      }
      OnceConcat(WordsBy(v, stop, t, init), more);
    }
  }

  lemma FindsOfAre(v: Vocabulary, g: Graph, start: nat, t: Trail)
    ensures Once(FindsOf(v, g, start, t))
    ensures forall f :: f in FindsOf(v, g, start, t) <==> FoundFrom(v, g, start, t, f)
  {
    hide WordsBy, HasEntries;
    var stop := StopOf(g, start, t);
    if stop.pos in g.indices && |t| != INDEX_CODE_MAX_LENGTH {
      EdgesAre(g.indices[stop.pos], g.indices[stop.pos].Keys);
      WordsByAre(v, stop, t, EdgesFrom(g, stop.pos));
    }
  }

  /** The trail from which a find is made. */
  ghost function Origin(f: Find): Trail {
    if f.Word? && |f.t| > 0 then f.t[..|f.t| - 1] else f.t
  }

  lemma OriginOf(v: Vocabulary, g: Graph, start: nat, t: Trail, f: Find)
    requires FoundFrom(v, g, start, t, f)
    ensures Origin(f) == t
  {
  }

  lemma {:induction false} FindsOfAllAre(v: Vocabulary, g: Graph, start: nat, ts: seq<Trail>)
    requires Once(ts)
    ensures Once(FindsOfAll(v, g, start, ts))
    ensures forall f :: f in FindsOfAll(v, g, start, ts) <==> Origin(f) in ts && FoundFrom(v, g, start, Origin(f), f)
  {
    hide FindsOf, FoundFrom, Origin;
    if |ts| > 0 {
      var init, t := ts[..|ts| - 1], ts[|ts| - 1];
      assert ts == init + [t];
      assert t !in init;
      FindsOfAllAre(v, g, start, init);
      FindsOfAre(v, g, start, t);
      forall f | f in FindsOf(v, g, start, t)
        ensures Origin(f) == t
      {
        OriginOf(v, g, start, t, f);
      }
      OnceConcat(FindsOfAll(v, g, start, init), FindsOf(v, g, start, t));
    }
  }

  ghost predicate FoundUpTo(v: Vocabulary, g: Graph, start: nat, n: nat, f: Find) {
    |Origin(f)| <= n && Goes(v, g, start, Origin(f)) && FoundFrom(v, g, start, Origin(f), f)
  }

  lemma {:induction false} FindsUpToAre(v: Vocabulary, g: Graph, start: nat, n: nat)
    ensures Once(FindsUpTo(v, g, start, n))
    ensures forall f :: f in FindsUpTo(v, g, start, n) <==> FoundUpTo(v, g, start, n, f)
  {
    hide FindsOfAll, FoundFrom, Origin, Goes;
    var ts := TrailsAt(v, g, start, n);
    TrailsAtAre(v, g, start, n);
    FindsOfAllAre(v, g, start, ts);
    if n > 0 {
      FindsUpToAre(v, g, start, n - 1);
      OnceConcat(FindsUpTo(v, g, start, n - 1), FindsOfAll(v, g, start, ts));
    }
  }

  // ----- what is found is what there is -----

  /** Below every step of a path to something in the table, the table goes on. */
  lemma {:induction false} PathGoes(v: Vocabulary, g: Graph, start: nat, t: Trail)
    requires IsPath(g, start, t) && |t| <= INDEX_CODE_MAX_LENGTH
    requires |t| > 0 ==> StopOf(g, start, t).pos < g.length
    requires PageUnder(v, CodeOf(g, start, t)).nextLevel.Some?
    ensures Goes(v, g, start, t)
  {
    if |t| > 0 {
      var init := t[..|t| - 1];
      assert CodeOf(g, start, t)[..|t| - 1] == CodeOf(g, start, init);
      PathGoes(v, g, start, init);
    }
  }

  lemma {:induction false} GoesIsPath(v: Vocabulary, g: Graph, start: nat, t: Trail)
    requires Goes(v, g, start, t) && start < g.length
    ensures IsPath(g, start, t) && StopOf(g, start, t).pos < g.length && |t| <= INDEX_CODE_MAX_LENGTH
  {
    if |t| > 0 { GoesIsPath(v, g, start, t[..|t| - 1]); }
  }

  /** A slot with entries hangs below a page with a next level. */
  lemma SlotHangs(v: Vocabulary, code: seq<int>, id: int)
    requires EntriesAt(v, code + [id]) != []
    ensures PageUnder(v, code).nextLevel.Some?
  {
    EntriesUnder(v, code, id);
    assert (code + [id])[..|code|] == code;
  }

  lemma LastStep(v: Vocabulary, g: Graph, start: nat, t: Trail)
    requires |t| > 0
    ensures var before := StopOf(g, start, t[..|t| - 1]);
            CodeOf(g, start, t) == before.code + [t[|t| - 1].id] && |before.code| == |t| - 1
  {
  }

  /** The last step of a path that spells a word. */
  ghost predicate LastStepGives(v: Vocabulary, g: Graph, before: Stop, c: Choice) {
    before.pos < g.length && IsStepAt(g, before.pos, c) && EntriesAt(v, before.code + [c.id]) != []
  }

  lemma WordSteps(v: Vocabulary, g: Graph, start: nat, t: Trail)
    requires |t| > 0
    ensures IsFind(v, g, start, Word(t))
            <==> |t| <= INDEX_CODE_MAX_LENGTH && IsPath(g, start, t[..|t| - 1])
                 && LastStepGives(v, g, StopOf(g, start, t[..|t| - 1]), t[|t| - 1])
  {
    LastStep(v, g, start, t);
    hide StopOf, EntriesAt, IsStepAt, CodeOf;
  }

  lemma WordGoes(v: Vocabulary, g: Graph, start: nat, t: Trail)
    requires 0 < |t| <= INDEX_CODE_MAX_LENGTH && LastStepGives(v, g, StopOf(g, start, t[..|t| - 1]), t[|t| - 1])
    ensures FoundUpTo(v, g, start, INDEX_CODE_MAX_LENGTH, Word(t)) <==> Goes(v, g, start, t[..|t| - 1])
  {
    hide StopOf, EntriesAt, IsStepAt, Goes;
  }

  lemma WordIsFound(v: Vocabulary, g: Graph, start: nat, t: Trail)
    requires |t| > 0 && IsFind(v, g, start, Word(t))
    ensures FoundUpTo(v, g, start, INDEX_CODE_MAX_LENGTH, Word(t))
  {
    hide IsFind, IsPath, StopOf, EntriesAt, IsStepAt, Goes, FoundUpTo, PageUnder;
    var init, before := t[..|t| - 1], StopOf(g, start, t[..|t| - 1]);
    WordSteps(v, g, start, t);
    WordGoes(v, g, start, t);
    SlotHangs(v, before.code, t[|t| - 1].id);
    PathGoes(v, g, start, init);
  }

  lemma FoundIsWord(v: Vocabulary, g: Graph, start: nat, t: Trail)
    requires start < g.length && |t| > 0 && FoundUpTo(v, g, start, INDEX_CODE_MAX_LENGTH, Word(t))
    ensures IsFind(v, g, start, Word(t))
  {
    LastStep(v, g, start, t);
    hide PageUnder, EdgeAt, StopOf, EntriesAt;
    GoesIsPath(v, g, start, t[..|t| - 1]);
    hide Goes;
  }

  lemma LongIsFound(v: Vocabulary, g: Graph, start: nat, t: Trail)
    requires start < g.length
    ensures IsFind(v, g, start, Long(t)) <==> FoundUpTo(v, g, start, INDEX_CODE_MAX_LENGTH, Long(t))
  {
    hide PageUnder, MayGo, EdgeAt;
    if IsFind(v, g, start, Long(t)) {
      SlotHangs(v, CodeOf(g, start, t), TAIL_KEY);
      PathGoes(v, g, start, t);
    }
    if Goes(v, g, start, t) { GoesIsPath(v, g, start, t); }
  }

  /** Main result: a query from `start` meets the slot of exactly the finds, each once. */
  lemma FindsExactly(v: Vocabulary, g: Graph, start: nat)
    requires start < g.length
    ensures AllHits(v, g, start) == HitsAt(v, g, start, Finds(v, g, start))
    ensures Once(Finds(v, g, start))
    ensures forall f :: f in Finds(v, g, start) <==> IsFind(v, g, start, f)
  {
    hide FoundUpTo, IsFind, FindsUpTo, HitsUpTo;
    HitsUpToAre(v, g, start, INDEX_CODE_MAX_LENGTH);
    FindsUpToAre(v, g, start, INDEX_CODE_MAX_LENGTH);
    forall f
      ensures IsFind(v, g, start, f) <==> FoundUpTo(v, g, start, INDEX_CODE_MAX_LENGTH, f)
    {
      match f
      case Long(t) => LongIsFound(v, g, start, t);
      case Word(t) =>
        if |t| == 0 {
          NoEmptyWord(v, g, start, t);
        } else {
          if IsFind(v, g, start, f) { WordIsFound(v, g, start, t); }
          if FoundUpTo(v, g, start, INDEX_CODE_MAX_LENGTH, f) { FoundIsWord(v, g, start, t); }
        }
    }
  }

  lemma NoEmptyWord(v: Vocabulary, g: Graph, start: nat, t: Trail)
    requires |t| == 0
    ensures !IsFind(v, g, start, Word(t)) && !FoundUpTo(v, g, start, INDEX_CODE_MAX_LENGTH, Word(t))
  {
  }
}
