/** Evaluating an input: its graph, and what both dictionaries find on it. */
module Evaluations {
  import opened Commons
  import opened Spellings
  import opened GraphEdges
  import opened Prisms
  import opened Lattices
  import opened Syllabification
  import opened SyllableGraphs
  import opened KeyLinks
  import opened Readings
  import opened Pipelines
  import UserScans
  import UserTrails
  import UserFinds
  import opened UserEntries
  import UserDictionaries
  import Vocabularies
  import TableImages
  import TableWalks
  import TableFinds
  import Dictionaries
  import DictionaryEntries

  // ----- paths of the user dictionary -----

  /** A step of the user dictionary reads a syllable that it follows. */
  lemma StepIsRead(sy: Syllabifier, prism: Prism, input: string, edges: EdgeMap, reached: nat, src: UserScans.Source, pos: nat, c: Choice)
    requires Exact(sy, prism, input, edges, reached) && Transposed(edges, src.indices) && UserTrails.IsStep(src, pos, c)
    ensures UserSyllable(sy, prism, input, pos, UserTrails.StepTo(src, pos, c).endPos, c.id)
  {
    var list := src.indices[pos][c.id];
    var e := list[c.nth].endPos;
    IndexReads(sy, prism, input, edges, src.indices, reached, pos, c.id, c.nth);
    if list[c.nth].kind >= ABBREVIATION {
      FirstIsFarthest(sy, prism, input, edges, src.indices, reached, pos, c.id);
    }
    hide Exact, Transposed, SyllableAs, SyllableAt;
  }

  /** The first listed spelling of a syllable is the farthest one. */
  lemma FirstIsFarthest(sy: Syllabifier, prism: Prism, input: string, edges: EdgeMap, indices: map<nat, SpellingIndex>, reached: nat, pos: nat, id: int)
    requires Exact(sy, prism, input, edges, reached) && Transposed(edges, indices)
    requires pos in indices && id in indices[pos] && |indices[pos][id]| > 0
    ensures forall f: nat :: f > indices[pos][id][0].endPos ==> !SyllableAt(sy, prism, input, pos, f, id)
    ensures forall k :: 0 < k < |indices[pos][id]| ==> indices[pos][id][k].endPos < indices[pos][id][0].endPos
  {
    hide Exact, Transposed, SyllableAs, SyllableAt;
    assert EndsMarked(edges) by { ExactIsMarked(sy, prism, input, edges, reached); }
    IndexTells(edges, indices, pos, id, 0);
    hide EndsMarked;
    forall f: nat | SyllableAt(sy, prism, input, pos, f, id)
      ensures f <= indices[pos][id][0].endPos
    {
      var k := ReadIsIndexed(sy, prism, input, edges, indices, reached, pos, f, id);
    }
  }

  lemma ExactIsMarked(sy: Syllabifier, prism: Prism, input: string, edges: EdgeMap, reached: nat)
    requires Exact(sy, prism, input, edges, reached)
    ensures EndsMarked(edges)
  {
  }

  /** A syllable that the user dictionary follows is one of its steps. */
  lemma ReadIsStep(sy: Syllabifier, prism: Prism, input: string, edges: EdgeMap, reached: nat, src: UserScans.Source, pos: nat, e: nat, id: int)
    returns (c: Choice)
    requires Exact(sy, prism, input, edges, reached) && Transposed(edges, src.indices)
    requires UserSyllable(sy, prism, input, pos, e, id) && src.Known(id)
    ensures UserTrails.IsStep(src, pos, c) && c.id == id && UserTrails.StepTo(src, pos, c).endPos == e
  {
    var kind: SpellingType :| SyllableAs(sy, prism, input, pos, e, id, kind)
                && (kind < ABBREVIATION || forall f: nat :: f > e ==> !SyllableAt(sy, prism, input, pos, f, id));
    assert SyllableAt(sy, prism, input, pos, e, id);
    hide Exact, Transposed, SyllableAs, SyllableAt;
    var k := ReadIsIndexed(sy, prism, input, edges, src.indices, reached, pos, e, id);
    c := Choice(id, k);
    if k > 0 && kind >= ABBREVIATION {
      FirstIsFarthest(sy, prism, input, edges, src.indices, reached, pos, id);
      IndexReads(sy, prism, input, edges, src.indices, reached, pos, id, 0);
    }
  }

  lemma {:induction false} UserTrailReads(sy: Syllabifier, prism: Prism, input: string, edges: EdgeMap, reached: nat,
                                          src: UserScans.Source, pos: nat, code: seq<int>, credibility: real, t: Trail)
    requires Exact(sy, prism, input, edges, reached) && Transposed(edges, src.indices)
    requires UserTrails.IsTrail(src, pos, |code|, t)
    ensures var end := UserTrails.EndOf(src, pos, code, credibility, t);
            end.code == code + Ids(t) && UserReads(sy, prism, input, pos, Ids(t), end.pos)
    ensures |Ids(t)| == |t| && src.Translatable(Ids(t))
    ensures src.depthLimit == 0 || |t| == 1 || |code| + |t| <= src.depthLimit
    decreases |t|
  {
    hide Transposed, Exact, UserSyllable, UserTrails.IsStep;
    var c := t[0];
    StepIsRead(sy, prism, input, edges, reached, src, pos, c);
    StepIsKnown(src, pos, c);
    var p := UserTrails.StepTo(src, pos, c);
    if |t| > 1 {
      UserTrailReads(sy, prism, input, edges, reached, src, p.endPos, code + [c.id], Times(credibility, p.credibility), t[1..]);
      assert code + [c.id] + Ids(t[1..]) == code + ([c.id] + Ids(t[1..]));
    } else {
      assert Ids(t[1..]) == [];
    }
    UserReadsOn(sy, prism, input, pos, c.id, p.endPos, Ids(t[1..]), UserTrails.EndOf(src, pos, code, credibility, t).pos);
  }

  lemma UserReadsOn(sy: Syllabifier, prism: Prism, input: string, pos: nat, id: int, mid: nat, code: seq<int>, end: nat)
    requires UserSyllable(sy, prism, input, pos, mid, id) && UserReads(sy, prism, input, mid, code, end)
    ensures UserReads(sy, prism, input, pos, [id] + code, end)
  {
    hide UserSyllable;
    assert ([id] + code)[1..] == code;
  }

  lemma StepIsKnown(src: UserScans.Source, pos: nat, c: Choice)
    requires UserTrails.IsStep(src, pos, c)
    ensures src.Known(c.id)
  {
  }

  /** What the user dictionary reads is one of its trails, if the depth limit admits it. */
  lemma {:induction false} UserReadsTrail(sy: Syllabifier, prism: Prism, input: string, edges: EdgeMap, reached: nat,
                                          src: UserScans.Source, pos: nat, before: seq<int>, credibility: real, code: seq<int>, end: nat)
    returns (t: Trail)
    requires Exact(sy, prism, input, edges, reached) && Transposed(edges, src.indices)
    requires |code| > 0 && src.Translatable(code) && (src.depthLimit == 0 || |before| + |code| <= src.depthLimit)
    requires UserReads(sy, prism, input, pos, code, end)
    ensures UserTrails.IsTrail(src, pos, |before|, t)
    ensures var path := UserTrails.EndOf(src, pos, before, credibility, t); path.code == before + code && path.pos == end
    decreases |code|
  {
    hide Transposed, Exact, UserSyllable;
    var mid: nat :| UserSyllable(sy, prism, input, pos, mid, code[0]) && UserReads(sy, prism, input, mid, code[1..], end);
    var c := ReadIsStep(sy, prism, input, edges, reached, src, pos, mid, code[0]);
    var p := UserTrails.StepTo(src, pos, c);
    hide UserTrails.IsStep;
    if |code| == 1 {
      t := [c];
      assert before + code == before + [c.id];
    } else {
      var rest := UserReadsTrail(sy, prism, input, edges, reached, src, mid, before + [c.id],
                                 Times(credibility, p.credibility), code[1..], end);
      t := [c] + rest;
      assert t[1..] == rest;
      assert before + [c.id] + code[1..] == before + code;
    }
  }

  // ----- records of the user dictionary -----

  /** The user dictionary has the text under the code, within its depth limit. */
  ghost predicate UserHas(src: UserScans.Source, code: seq<int>, text: string) {
    && |code| > 0 && src.Translatable(code) && (src.depthLimit == 0 || |code| <= src.depthLimit)
    && exists i: nat :: IsLive(src, i, code, text)
  }

  ghost predicate HasEntry(groups: UserScans.Collector, end: nat, code: seq<int>, text: string) {
    exists x :: x in UserFinds.Group(groups, end) && x.code == code && x.text == text
  }

  lemma FoundInUser(sy: Syllabifier, prism: Prism, input: string, edges: EdgeMap, reached: nat, src: UserScans.Source,
                    result: Option<UserScans.Collector>, end: nat, x: UserScans.DictEntry)
    requires Exact(sy, prism, input, edges, reached) && Transposed(edges, src.indices)
    requires src.ForwardGraph() && src.SortedSyllabary() && UserFinds.IsLookup(src, 0, 1.0, result)
    requires x in UserFinds.Group(if result.Some? then result.value else map[], end)
    ensures UserHas(src, x.code, x.text) && UserReads(sy, prism, input, 0, x.code, end)
  {
    hide Exact, Transposed, UserReads, UserTrails.IsTrail, UserTrails.EndOf, UserFinds.Gives, IsLive, UserTrails.Trails;
    var finds := UserFinds.FindsAmong(src, 0, 1.0, end, x, UserTrails.Trails(src, 0, 0));
    assert |finds| > 0;
    var find :| find in finds;
    UserFinds.FindsAre(src, 0, 1.0, end, x, find.0, find.1);
    var path := UserTrails.EndOf(src, 0, [], 1.0, find.0);
    UserTrailReads(sy, prism, input, edges, reached, src, 0, [], 1.0, find.0);
    GivesExactly(src, path, find.1, x);
    assert [] + Ids(find.0) == Ids(find.0);
    TrailIsNonempty(src, 0, 0, find.0);
  }

  lemma LiveGives(src: UserScans.Source, path: UserScans.PathEnd, i: nat, text: string) returns (x: UserScans.DictEntry)
    requires src.SortedSyllabary() && src.Translatable(path.code) && IsLive(src, i, path.code, text)
    ensures UserFinds.Gives(src, path, i, x) && x.code == path.code && x.text == text
  {
    var v := src.db[i].value.unpacked;
    x := UserScans.DictEntry(text, path.code, v.commits, src.strength(v, src.presentTick) * path.credibility);
    GivesExactly(src, path, i, x);
  }

  lemma TrailIsNonempty(src: UserScans.Source, pos: nat, depth: nat, t: Trail)
    requires UserTrails.IsTrail(src, pos, depth, t)
    ensures |t| > 0
  {
  }

  lemma UserIsFound(sy: Syllabifier, prism: Prism, input: string, edges: EdgeMap, reached: nat, src: UserScans.Source,
                    result: Option<UserScans.Collector>, end: nat, code: seq<int>, text: string)
    requires Exact(sy, prism, input, edges, reached) && Transposed(edges, src.indices)
    requires src.ForwardGraph() && src.SortedSyllabary() && UserFinds.IsLookup(src, 0, 1.0, result)
    requires UserHas(src, code, text) && UserReads(sy, prism, input, 0, code, end)
    ensures HasEntry(if result.Some? then result.value else map[], end, code, text)
  {
    hide Exact, Transposed, UserReads, UserTrails.IsTrail, UserTrails.EndOf, UserFinds.Gives, IsLive, UserTrails.Trails;
    var t := UserReadsTrail(sy, prism, input, edges, reached, src, 0, [], 1.0, code, end);
    assert [] + code == code;
    var i: nat :| IsLive(src, i, code, text);
    var x := LiveGives(src, UserTrails.EndOf(src, 0, [], 1.0, t), i, text);
    LiveIsRecord(src, i, code, text);
    assert UserFinds.Finds(src, 0, 1.0, end, x, t, i);
    UserFinds.FindsAre(src, 0, 1.0, end, x, t, i);
    var finds := UserFinds.FindsAmong(src, 0, 1.0, end, x, UserTrails.Trails(src, 0, 0));
    assert (t, i) in finds;
    assert |finds| > 0;
    assert x in multiset(UserFinds.Group(if result.Some? then result.value else map[], end));
  }

  lemma LiveIsRecord(src: UserScans.Source, i: nat, code: seq<int>, text: string)
    requires src.Translatable(code) && IsLive(src, i, code, text)
    ensures i < |src.db|
  {
  }

  /** At every position there is, of the user dictionary, exactly what can be read up to there. */
  ghost predicate UserFound(sy: Syllabifier, prism: Prism, input: string, src: UserScans.Source, groups: UserScans.Collector) {
    forall end: nat, code, text ::
      HasEntry(groups, end, code, text) <==> UserHas(src, code, text) && UserReads(sy, prism, input, 0, code, end)
  }

  lemma UserFoundIs(sy: Syllabifier, prism: Prism, input: string, edges: EdgeMap, reached: nat, src: UserScans.Source,
                    result: Option<UserScans.Collector>)
    requires Exact(sy, prism, input, edges, reached) && Transposed(edges, src.indices)
    requires src.ForwardGraph() && src.SortedSyllabary() && UserFinds.IsLookup(src, 0, 1.0, result)
    ensures UserFound(sy, prism, input, src, if result.Some? then result.value else map[])
    ensures result.Some? ==> exists end: nat, code, text :: HasEntry(result.value, end, code, text)
  {
    hide Exact, Transposed, UserReads, UserHas, UserScans.Source.SortedSyllabary, UserScans.Source.ForwardGraph, UserTrails.Trails;
    var groups := if result.Some? then result.value else map[];
    forall end: nat, code, text
      ensures HasEntry(groups, end, code, text) <==> UserHas(src, code, text) && UserReads(sy, prism, input, 0, code, end)
    {
      if x :| x in UserFinds.Group(groups, end) && x.code == code && x.text == text {
        FoundInUser(sy, prism, input, edges, reached, src, result, end, x);
      }
      if UserHas(src, code, text) && UserReads(sy, prism, input, 0, code, end) {
        UserIsFound(sy, prism, input, edges, reached, src, result, end, code, text);
      }
    }
    if result.Some? { SomethingThere(src, result.value); }
  }

  lemma SomethingThere(src: UserScans.Source, groups: UserScans.Collector)
    requires src.ForwardGraph() && UserFinds.IsLookup(src, 0, 1.0, Some(groups))
    ensures exists end: nat, code, text :: HasEntry(groups, end, code, text)
  {
    hide UserTrails.Trails, UserFinds.FindsAmong;
    assert (forall e :: e !in groups) ==> groups == map[];
    var e :| e in groups;
    var x := groups[e][0];
    assert x in UserFinds.Group(groups, e);
    assert HasEntry(groups, e, x.code, x.text);
  }

  lemma NothingUserReads(sy: Syllabifier, prism: Prism, input: string, edges: EdgeMap, src: UserScans.Source)
    requires Exact(sy, prism, input, edges, 0)
    ensures UserFound(sy, prism, input, src, map[])
  {
    hide EndsMarked, NoDeadEnds, SyllableAs, UserScans.Source.Translatable;
    forall code, end: nat | |code| > 0
      ensures !UserReads(sy, prism, input, 0, code, end)
    {
      if mid: nat :| UserSyllable(sy, prism, input, 0, mid, code[0]) {
        assert SyllableAt(sy, prism, input, 0, mid, code[0]);
        HasWhatIsRead(sy, prism, input, edges, 0, 0, mid, code[0]);
      }
    }
  }

  // ----- the system dictionary -----

  /** The chunks of a lookup hold entries of the dictionary, with codes that can be read. */
  ghost predicate PhrasesRead(sy: Syllabifier, prism: Prism, input: string, entries: seq<Vocabularies.DictEntry>, phrase: Dictionaries.Collector) {
    forall e, c :: e in phrase && c in phrase[e] ==>
      DictionaryEntries.Listed(entries, c) && Reads(sy, prism, input, 0, c.code, e)
  }

  ghost predicate HasPhrase(phrase: Dictionaries.Collector, end: nat, x: Vocabularies.DictEntry) {
    end in phrase && exists c :: c in phrase[end] && c.code == x.code && TableImages.Entry(x.text, x.weight) in c.entries
  }

  /** An entry that can be read is found: a short one wherever it can be read to; a longer one, for
      each way to read its first syllables, at the farthest place the rest can be read to. */
  ghost predicate PhrasesFound(sy: Syllabifier, prism: Prism, input: string, entries: seq<Vocabularies.DictEntry>, phrase: Dictionaries.Collector) {
    && (forall x, end: nat :: x in entries && 1 <= |x.code| <= Vocabularies.INDEX_CODE_MAX_LENGTH && Reads(sy, prism, input, 0, x.code, end) ==>
          HasPhrase(phrase, end, x))
    && (forall x, mid: nat, end: nat :: x in entries && ReadsLong(sy, prism, input, x.code, mid, end) ==>
          exists far: nat :: far >= end && ReadsLong(sy, prism, input, x.code, mid, far) && HasPhrase(phrase, far, x)
                             && forall e: nat :: ReadsLong(sy, prism, input, x.code, mid, e) ==> e <= far)
  }

  /** The first syllables of a long code can be read to `mid`, and the rest from there to `end`. */
  ghost predicate ReadsLong(sy: Syllabifier, prism: Prism, input: string, code: seq<int>, mid: nat, end: nat) {
    && |code| > Vocabularies.INDEX_CODE_MAX_LENGTH
    && Reads(sy, prism, input, 0, code[..Vocabularies.INDEX_CODE_MAX_LENGTH], mid)
    && Reads(sy, prism, input, mid, code[Vocabularies.INDEX_CODE_MAX_LENGTH..], end)
  }

  lemma LookupReads(sy: Syllabifier, prism: Prism, input: string, edges: EdgeMap, indices: map<nat, SpellingIndex>, reached: nat,
                    v: Vocabularies.Vocabulary, entries: seq<Vocabularies.DictEntry>, phrase: Dictionaries.Collector)
    requires Vocabularies.Holds(v, entries)
    requires Exact(sy, prism, input, edges, reached) && Transposed(edges, indices) && 0 < reached
    requires Dictionaries.IsLookup(v, LookupGraph(indices, reached), 0, 1.0, phrase)
    ensures PhrasesRead(sy, prism, input, entries, phrase)
  {
    hide Exact, Transposed, Reads, DictionaryEntries.Listed, Dictionaries.FoundAt, Vocabularies.Holds;
    forall e, c | e in phrase && c in phrase[e]
      ensures DictionaryEntries.Listed(entries, c) && Reads(sy, prism, input, 0, c.code, e)
    {
      assert c in multiset(phrase[e]);
      FoundIsRead(sy, prism, input, edges, indices, reached, v, entries, 0, 1.0, e, c);
    }
  }

  /** What the finds give at a position is in the group there. */
  lemma FoundIsInGroup(v: Vocabularies.Vocabulary, g: TableWalks.Graph, phrase: Dictionaries.Collector, end: nat, x: Vocabularies.DictEntry)
    requires Dictionaries.IsLookup(v, g, 0, 1.0, phrase)
    requires exists c :: c in Dictionaries.FoundAt(v, g, 0, 1.0, end) && c.code == x.code && TableImages.Entry(x.text, x.weight) in c.entries
    ensures HasPhrase(phrase, end, x)
  {
    hide Dictionaries.FoundAt;
    var c :| c in Dictionaries.FoundAt(v, g, 0, 1.0, end) && c.code == x.code && TableImages.Entry(x.text, x.weight) in c.entries;
    assert c in multiset(phrase[end]);
  }

  lemma LookupFinds(sy: Syllabifier, prism: Prism, input: string, edges: EdgeMap, indices: map<nat, SpellingIndex>, reached: nat,
                    v: Vocabularies.Vocabulary, entries: seq<Vocabularies.DictEntry>, phrase: Dictionaries.Collector)
    requires Vocabularies.Holds(v, entries)
    requires Exact(sy, prism, input, edges, reached) && Transposed(edges, indices) && 0 < reached
    requires Dictionaries.IsLookup(v, LookupGraph(indices, reached), 0, 1.0, phrase)
    ensures PhrasesFound(sy, prism, input, entries, phrase)
  {
    hide Exact, Transposed, Reads, Dictionaries.FoundAt, Dictionaries.IsLookup, Vocabularies.Holds, HasPhrase;
    var g := LookupGraph(indices, reached);
    forall x, end: nat | x in entries && 1 <= |x.code| <= Vocabularies.INDEX_CODE_MAX_LENGTH && Reads(sy, prism, input, 0, x.code, end)
      ensures HasPhrase(phrase, end, x)
    {
      WordIsFound(sy, prism, input, edges, indices, reached, v, entries, 0, 1.0, x, end);
      FoundIsInGroup(v, g, phrase, end, x);
    }
    forall x, mid: nat, end: nat | x in entries && ReadsLong(sy, prism, input, x.code, mid, end)
      ensures exists far: nat :: far >= end && ReadsLong(sy, prism, input, x.code, mid, far) && HasPhrase(phrase, far, x)
                                 && forall e: nat :: ReadsLong(sy, prism, input, x.code, mid, e) ==> e <= far
    {
      var far := LongIsFound(sy, prism, input, edges, indices, reached, v, entries, 0, 1.0, x, mid, end);
      FoundIsInGroup(v, g, phrase, far, x);
    }
  }

  // ----- the evaluation -----

  lemma GraphIsFinished(sy: Syllabifier, prism: Prism, input: string, d: Draft, farthest: nat, graph: SyllableGraph)
    requires prism.Valid() && Clean(sy, prism) && sy.Represents(input, prism, d, farthest, graph)
    ensures Exact(sy, prism, input, graph.edges, farthest) && Transposed(graph.edges, graph.indices)
    ensures graph.interpretedLength == farthest
  {
    hide Clean, Transposed, Exact;
    assert d.farthest <= |input|;
    GraphIsExact(sy, prism, input, d, farthest, graph.edges);
  }

  lemma OnlyOrigin(sy: Syllabifier, prism: Prism, input: string, w: Way)
    requires input == "" && IsKeyWay(sy, prism, input, w)
    ensures w.Origin?
  {
    hide IsLink;
    if w.Hop? { LinkIsInside(sy, prism, input, w.way.End(), w.link); }
  }

  lemma NothingIsExact(sy: Syllabifier, prism: Prism, input: string, edges: EdgeMap, indices: map<nat, SpellingIndex>)
    requires input == "" && edges == map[] && indices == map[]
    ensures Exact(sy, prism, input, edges, 0) && Transposed(edges, indices)
  {
    forall p: nat, e: nat, id, kind
      ensures !SyllableAs(sy, prism, input, p, e, id, kind)
    {
      hide Admitted, IsLink;
      forall w | Leading(sy, prism, input, w)
        ensures w.Origin?
      {
        OnlyOrigin(sy, prism, input, w);
      }
    }
  }

  /** Main result: of either dictionary there is at every position exactly what can be read from the
      input up to there, and there is no result exactly if there is nothing. */
  method Evaluate(sy: Syllabifier, prism: Prism, index: seq<TableImages.HeadNode>, input: string, store: UserScans.Source,
                  ghost v: Vocabularies.Vocabulary, ghost entries: seq<Vocabularies.DictEntry>)
    returns (graph: SyllableGraph, phrase: Option<Dictionaries.Collector>, userPhrase: Option<UserScans.Collector>)
    requires prism.Valid() && Clean(sy, prism)
    requires TableImages.IsHead(v, index) && Vocabularies.Holds(v, entries)
    requires store.SortedStore() && store.SortedSyllabary()
    ensures phrase.None? <==> forall x :: x in entries ==> !IsMet(sy, prism, input, 0, x.code)
    ensures phrase.Some? ==> PhrasesRead(sy, prism, input, entries, phrase.value) && PhrasesFound(sy, prism, input, entries, phrase.value)
    ensures UserFound(sy, prism, input, store, if userPhrase.Some? then userPhrase.value else map[])
    ensures userPhrase.None? <==> NothingRead(sy, prism, input, store)
  {
    hide *;
    graph := new SyllableGraph();
    var farthest;
    ghost var d;
    farthest, d := sy.BuildSyllableGraph(input, prism, graph);
    ghost var edges := graph.edges;
    if input == "" {
      NothingIsExact(sy, prism, input, edges, graph.indices);
    } else {
      GraphIsFinished(sy, prism, input, d, farthest, graph);
    }
    var src := store.(indices := graph.indices, length := graph.interpretedLength);
    SameStore(store, graph.indices, graph.interpretedLength);
    GraphIsForward(sy, prism, input, edges, graph.indices, graph.interpretedLength, src);
    phrase := LookupPhrases(sy, prism, input, index, graph.indices, graph.interpretedLength, edges, v, entries);
    userPhrase := LookupUserPhrases(sy, prism, input, src, edges, graph.interpretedLength);
    SameFound(sy, prism, input, store, graph.indices, graph.interpretedLength, if userPhrase.Some? then userPhrase.value else map[]);
    NoneExactly(sy, prism, input, store, userPhrase);
  }

  lemma SameStore(store: UserScans.Source, indices: map<nat, SpellingIndex>, length: nat)
    ensures var src := store.(indices := indices, length := length);
            (src.SortedStore() <==> store.SortedStore()) && (src.SortedSyllabary() <==> store.SortedSyllabary())
  {
  }

  lemma {:induction false} SameCodeString(store: UserScans.Source, indices: map<nat, SpellingIndex>, length: nat, code: seq<int>)
    requires store.Translatable(code)
    ensures var src := store.(indices := indices, length := length);
            src.Translatable(code) && src.CodeString(code) == store.CodeString(code)
  {
    if |code| > 0 { SameCodeString(store, indices, length, code[..|code| - 1]); }
  }

  /** What the user dictionary has does not depend on the graph. */
  lemma SameHas(store: UserScans.Source, indices: map<nat, SpellingIndex>, length: nat, code: seq<int>, text: string)
    ensures var src := store.(indices := indices, length := length); UserHas(src, code, text) <==> UserHas(store, code, text)
  {
    var src := store.(indices := indices, length := length);
    assert src.Translatable(code) <==> store.Translatable(code);
    if store.Translatable(code) {
      SameCodeString(store, indices, length, code);
      KeyIsWhole(src, code, text);
      KeyIsWhole(store, code, text);
      assert forall i: nat :: IsLive(src, i, code, text) <==> IsLive(store, i, code, text);
    }
  }

  lemma SameFound(sy: Syllabifier, prism: Prism, input: string, store: UserScans.Source, indices: map<nat, SpellingIndex>, length: nat,
                  groups: UserScans.Collector)
    requires UserFound(sy, prism, input, store.(indices := indices, length := length), groups)
    ensures UserFound(sy, prism, input, store, groups)
  {
    hide UserHas, UserReads, HasEntry;
    forall code, text
      ensures UserHas(store.(indices := indices, length := length), code, text) <==> UserHas(store, code, text)
    {
      SameHas(store, indices, length, code, text);
    }
  }

  /** No phrase of the user dictionary can be read from the start of the input. */
  ghost predicate NothingRead(sy: Syllabifier, prism: Prism, input: string, src: UserScans.Source) {
    forall code, text, end: nat :: !(UserHas(src, code, text) && UserReads(sy, prism, input, 0, code, end))
  }

  lemma SomethingRead(sy: Syllabifier, prism: Prism, input: string, src: UserScans.Source, code: seq<int>, text: string, end: nat)
    requires UserHas(src, code, text) && UserReads(sy, prism, input, 0, code, end)
    ensures !NothingRead(sy, prism, input, src)
  {
    hide UserHas, UserReads;
  }

  /** There is no result exactly if there is nothing to read. */
  lemma NoneExactly(sy: Syllabifier, prism: Prism, input: string, src: UserScans.Source, result: Option<UserScans.Collector>)
    requires UserFound(sy, prism, input, src, if result.Some? then result.value else map[])
    requires result.Some? ==> exists end: nat, code, text :: HasEntry(result.value, end, code, text)
    ensures result.None? <==> NothingRead(sy, prism, input, src)
  {
    hide UserHas, UserReads;
    if result.Some? {
      var end: nat, code, text :| HasEntry(result.value, end, code, text);
      hide HasEntry;
      SomethingRead(sy, prism, input, src, code, text, end);
    } else {
      forall code, text, end: nat ensures !(UserHas(src, code, text) && UserReads(sy, prism, input, 0, code, end)) {
        assert !HasEntry(map[], end, code, text);
      }
    }
  }

  method LookupPhrases(sy: Syllabifier, prism: Prism, input: string, index: seq<TableImages.HeadNode>, indices: map<nat, SpellingIndex>,
                       reached: nat, ghost edges: EdgeMap, ghost v: Vocabularies.Vocabulary, ghost entries: seq<Vocabularies.DictEntry>)
    returns (phrase: Option<Dictionaries.Collector>)
    requires Exact(sy, prism, input, edges, reached) && Transposed(edges, indices)
    requires TableImages.IsHead(v, index) && Vocabularies.Holds(v, entries)
    ensures phrase.None? <==> forall x :: x in entries ==> !IsMet(sy, prism, input, 0, x.code)
    ensures phrase.Some? ==> PhrasesRead(sy, prism, input, entries, phrase.value) && PhrasesFound(sy, prism, input, entries, phrase.value)
  {
    hide Exact, Transposed, PhrasesRead, PhrasesFound, IsMet, Dictionaries.IsLookup, TableImages.IsHead, Vocabularies.Holds;
    phrase := Dictionaries.Lookup(index, LookupGraph(indices, reached), 0, 1.0, v);
    NothingExactly(sy, prism, input, edges, indices, reached, v, entries, 0);
    if phrase.Some? {
      LookupReads(sy, prism, input, edges, indices, reached, v, entries, phrase.value);
      LookupFinds(sy, prism, input, edges, indices, reached, v, entries, phrase.value);
    }
  }

  method LookupUserPhrases(sy: Syllabifier, prism: Prism, input: string, src: UserScans.Source, ghost edges: EdgeMap, ghost reached: nat)
    returns (userPhrase: Option<UserScans.Collector>)
    requires Exact(sy, prism, input, edges, reached) && Transposed(edges, src.indices) && src.length == reached
    requires src.SortedStore() && src.SortedSyllabary() && src.ForwardGraph()
    ensures UserFound(sy, prism, input, src, if userPhrase.Some? then userPhrase.value else map[])
    ensures userPhrase.Some? ==> exists end: nat, code, text :: HasEntry(userPhrase.value, end, code, text)
  {
    hide Exact, Transposed, UserFound, HasEntry, UserFinds.SortedGroups, UserFinds.IsLookup, UserScans.Source.Gather, UserScans.Source.Paths,
         UserScans.Source.SortedStore, UserScans.Source.SortedSyllabary, UserScans.Source.ForwardGraph;
    userPhrase := UserDictionaries.Lookup(src, 0, 1.0);
    if src.length > 0 {
      UserFoundIs(sy, prism, input, edges, reached, src, userPhrase);
    } else {
      NothingUserReads(sy, prism, input, edges, src);
    }
  }
}
