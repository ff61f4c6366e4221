/** From the typed input to dictionary entries: what the graph, the prism and the table have
    to do with each other. */
module Pipelines {
  import opened Spellings
  import opened GraphEdges
  import opened Prisms
  import opened Lattices
  import opened Syllabification
  import opened SyllableGraphs
  import opened TableWalks
  import opened TablePaths
  import opened TableFinds
  import opened Dictionaries
  import opened DictionaryEntries
  import opened Readings
  import Vocabularies
  import TableImages
  import ChunkMerges
  import UserScans

  // ----- what the index tells -----

  /** The graph as a lookup sees it. */
  function LookupGraph(indices: map<nat, SpellingIndex>, reached: nat): Graph {
    Graph(indices, reached)
  }

  lemma IndexTells(edges: EdgeMap, indices: map<nat, SpellingIndex>, pos: nat, id: int, k: nat)
    requires EndsMarked(edges) && Transposed(edges, indices)
    requires pos in indices && id in indices[pos] && k < |indices[pos][id]|
    ensures var p := indices[pos][id][k]; HasSyllable(edges, pos, p.endPos, id) && p == edges[pos][p.endPos][id]
    ensures forall i, j :: 0 <= i < j < |indices[pos][id]| ==> indices[pos][id][j].endPos < indices[pos][id][i].endPos
  {
    TransposedExactly(edges, pos, indices[pos], id);
    assert indices[pos][id][k] in indices[pos][id];
  }

  lemma IndexHas(edges: EdgeMap, indices: map<nat, SpellingIndex>, pos: nat, e: nat, id: int) returns (k: nat)
    requires EndsMarked(edges) && Transposed(edges, indices) && HasSyllable(edges, pos, e, id)
    ensures pos in indices && id in indices[pos] && k < |indices[pos][id]|
    ensures indices[pos][id][k] == edges[pos][e][id] && indices[pos][id][k].endPos == e
  {
    TransposedExactly(edges, pos, indices[pos], id);
    assert edges[pos][e][id].endPos == e;
    assert edges[pos][e][id] in indices[pos][id];
    k :| 0 <= k < |indices[pos][id]| && indices[pos][id][k] == edges[pos][e][id];
  }

  /** What the index lists can be read. */
  lemma IndexReads(sy: Syllabifier, prism: Prism, input: string, edges: EdgeMap, indices: map<nat, SpellingIndex>, reached: nat,
                   pos: nat, id: int, k: nat)
    requires Exact(sy, prism, input, edges, reached) && Transposed(edges, indices)
    requires pos in indices && id in indices[pos] && k < |indices[pos][id]|
    ensures var e := indices[pos][id][k].endPos; pos < e <= reached && SyllableAt(sy, prism, input, pos, e, id)
    ensures SyllableAs(sy, prism, input, pos, indices[pos][id][k].endPos, id, indices[pos][id][k].kind)
  {
    hide Transposed, SyllableAt, SyllableAs, EndsMarked, IsExactAt, NoDeadEnds;
    IndexTells(edges, indices, pos, id, k);
    HasWhatIsRead(sy, prism, input, edges, reached, pos, indices[pos][id][k].endPos, id);
  }

  /** What can be read is listed in the index. */
  lemma ReadIsIndexed(sy: Syllabifier, prism: Prism, input: string, edges: EdgeMap, indices: map<nat, SpellingIndex>, reached: nat,
                      pos: nat, e: nat, id: int) returns (k: nat)
    requires Exact(sy, prism, input, edges, reached) && Transposed(edges, indices) && SyllableAt(sy, prism, input, pos, e, id)
    ensures pos < e <= reached && pos in indices && id in indices[pos] && k < |indices[pos][id]|
    ensures indices[pos][id][k].endPos == e
    ensures forall kind: SpellingType :: SyllableAs(sy, prism, input, pos, e, id, kind) ==> indices[pos][id][k].kind == kind
  {
    hide Transposed, SyllableAt, SyllableAs, EndsMarked, NoDeadEnds;
    forall kind: SpellingType | SyllableAs(sy, prism, input, pos, e, id, kind)
      ensures HasSyllable(edges, pos, e, id) && edges[pos][e][id].kind == kind
    {
      assert IsExactAt(sy, prism, input, edges, reached, pos, e, id, kind);
    }
    hide IsExactAt;
    HasWhatIsRead(sy, prism, input, edges, reached, pos, e, id);
    k := IndexHas(edges, indices, pos, e, id);
  }

  /** Both lookups may rely on the graph: every edge of the index leads forward, within reach. */
  lemma GraphIsForward(sy: Syllabifier, prism: Prism, input: string, edges: EdgeMap, indices: map<nat, SpellingIndex>, reached: nat,
                       src: UserScans.Source)
    requires Exact(sy, prism, input, edges, reached) && Transposed(edges, indices)
    requires src.indices == indices && src.length == reached
    ensures Forward(LookupGraph(indices, reached)) && src.ForwardGraph()
  {
    hide Transposed, Exact, SyllableAt;
    forall p, id, k | p in indices && id in indices[p] && 0 <= k < |indices[p][id]|
      ensures p < indices[p][id][k].endPos <= reached
    {
      IndexReads(sy, prism, input, edges, indices, reached, p, id, k);
    }
  }

  // ----- what a path tells -----

  lemma {:induction false} PathReads(sy: Syllabifier, prism: Prism, input: string, edges: EdgeMap, indices: map<nat, SpellingIndex>,
                                     reached: nat, start: nat, t: Trail)
    requires Exact(sy, prism, input, edges, reached) && Transposed(edges, indices)
    requires IsPath(LookupGraph(indices, reached), start, t)
    ensures var g := LookupGraph(indices, reached);
            Reads(sy, prism, input, start, CodeOf(g, start, t), StopOf(g, start, t).pos)
  {
    hide Transposed, Exact, SyllableAt;
    var g := LookupGraph(indices, reached);
    if |t| > 0 {
      var init, c := t[..|t| - 1], t[|t| - 1];
      var before := StopOf(g, start, init);
      PathReads(sy, prism, input, edges, indices, reached, start, init);
      IndexReads(sy, prism, input, edges, indices, reached, before.pos, c.id, c.nth);
      var end := StopOf(g, start, t).pos;
      ReadsOne(sy, prism, input, before.pos, c.id, end);
      ReadsOn(sy, prism, input, start, before.code, before.pos, [c.id], end);
    }
  }

  lemma {:induction false} SpellsReads(sy: Syllabifier, prism: Prism, input: string, edges: EdgeMap, indices: map<nat, SpellingIndex>,
                                       reached: nat, code: seq<int>, pos: nat, end: nat)
    requires Exact(sy, prism, input, edges, reached) && Transposed(edges, indices)
    requires Spells(LookupGraph(indices, reached), code, pos, end)
    ensures Reads(sy, prism, input, pos, code, end)
    decreases |code|
  {
    hide Transposed, Exact, SyllableAt;
    if |code| > 0 {
      var list := indices[pos][code[0]];
      var k :| 0 <= k < |list| && Spells(LookupGraph(indices, reached), code[1..], list[k].endPos, end);
      IndexReads(sy, prism, input, edges, indices, reached, pos, code[0], k);
      SpellsReads(sy, prism, input, edges, indices, reached, code[1..], list[k].endPos, end);
    }
  }

  lemma SpelledReads(sy: Syllabifier, prism: Prism, input: string, edges: EdgeMap, indices: map<nat, SpellingIndex>,
                     reached: nat, start: nat, code: seq<int>, end: nat)
    requires Exact(sy, prism, input, edges, reached) && Transposed(edges, indices)
    requires Spelled(LookupGraph(indices, reached), start, code, end)
    ensures Reads(sy, prism, input, start, code, end)
  {
    hide Exact, Transposed, Reads;
    var g := LookupGraph(indices, reached);
    var n := Vocabularies.INDEX_CODE_MAX_LENGTH;
    if |code| <= n {
      var t :| SpelledBy(g, start, code, t) && StopOf(g, start, t).pos == end;
      PathReads(sy, prism, input, edges, indices, reached, start, t);
    } else {
      var t :| SpelledBy(g, start, code[..n], t) && Spells(g, code[n..], StopOf(g, start, t).pos, end);
      PathReads(sy, prism, input, edges, indices, reached, start, t);
      SpellsReads(sy, prism, input, edges, indices, reached, code[n..], StopOf(g, start, t).pos, end);
      ReadsOn(sy, prism, input, start, code[..n], StopOf(g, start, t).pos, code[n..], end);
      assert code[..n] + code[n..] == code;
    }
  }

  /** Main result: whatever a lookup finds at a position are dictionary entries whose code can
      be read from the input, from the start to there. */
  lemma FoundIsRead(sy: Syllabifier, prism: Prism, input: string, edges: EdgeMap, indices: map<nat, SpellingIndex>, reached: nat,
                     v: Vocabularies.Vocabulary, entries: seq<Vocabularies.DictEntry>, start: nat, initial: real, end: nat, c: ChunkMerges.Chunk)
    requires Vocabularies.Holds(v, entries)
    requires Exact(sy, prism, input, edges, reached) && Transposed(edges, indices) && start < reached
    requires c in FoundAt(v, LookupGraph(indices, reached), start, initial, end)
    ensures Listed(entries, c) && Reads(sy, prism, input, start, c.code, end)
  {
    hide Exact, Transposed, Reads, FoundAt, Listed, Spelled, Vocabularies.Holds;
    LookupIsSound(v, entries, LookupGraph(indices, reached), start, initial, end, c);
    SpelledReads(sy, prism, input, edges, indices, reached, start, c.code, end);
  }

  // ----- what is read is found -----

  lemma NoStep(g: Graph, start: nat)
    ensures IsPath(g, start, []) && StopOf(g, start, []).pos == start && CodeOf(g, start, []) == []
  {
  }

  lemma OneStepOn(g: Graph, start: nat, before: Trail, c: Choice)
    requires IsPath(g, start, before)
    requires var pos := StopOf(g, start, before).pos; pos < g.length && IsStepAt(g, pos, c)
    ensures IsPath(g, start, before + [c]) && CodeOf(g, start, before + [c]) == CodeOf(g, start, before) + [c.id]
    ensures StopOf(g, start, before + [c]).pos == g.indices[StopOf(g, start, before).pos][c.id][c.nth].endPos
  {
    assert (before + [c])[..|before|] == before;
  }

  /** What can be read is a path of the graph. */
  lemma {:induction false} ReadTrail(sy: Syllabifier, prism: Prism, input: string, edges: EdgeMap, indices: map<nat, SpellingIndex>,
                                     reached: nat, start: nat, before: Trail, code: seq<int>, end: nat) returns (t: Trail)
    requires Exact(sy, prism, input, edges, reached) && Transposed(edges, indices)
    requires var g := LookupGraph(indices, reached);
             IsPath(g, start, before) && Reads(sy, prism, input, StopOf(g, start, before).pos, code, end)
    ensures var g := LookupGraph(indices, reached);
            SpelledBy(g, start, CodeOf(g, start, before) + code, t) && StopOf(g, start, t).pos == end
    decreases |code|
  {
    hide Exact, Transposed, SyllableAt, SyllableAs, IsPath, StopOf;
    var g := LookupGraph(indices, reached);
    if |code| == 0 {
      t := before;
      assert CodeOf(g, start, before) + code == CodeOf(g, start, before);
    } else {
      var pos := StopOf(g, start, before).pos;
      var mid: nat :| SyllableAt(sy, prism, input, pos, mid, code[0]) && Reads(sy, prism, input, mid, code[1..], end);
      var k := ReadIsIndexed(sy, prism, input, edges, indices, reached, pos, mid, code[0]);
      var c := Choice(code[0], k);
      OneStepOn(g, start, before, c);
      t := ReadTrail(sy, prism, input, edges, indices, reached, start, before + [c], code[1..], end);
      assert CodeOf(g, start, before) + [c.id] + code[1..] == CodeOf(g, start, before) + code;
    }
  }

  lemma WholeTrail(sy: Syllabifier, prism: Prism, input: string, edges: EdgeMap, indices: map<nat, SpellingIndex>,
                   reached: nat, start: nat, code: seq<int>, end: nat) returns (t: Trail)
    requires Exact(sy, prism, input, edges, reached) && Transposed(edges, indices) && Reads(sy, prism, input, start, code, end)
    ensures SpelledBy(LookupGraph(indices, reached), start, code, t) && StopOf(LookupGraph(indices, reached), start, t).pos == end
  {
    hide Exact, Transposed, Reads, IsPath, StopOf;
    NoStep(LookupGraph(indices, reached), start);
    t := ReadTrail(sy, prism, input, edges, indices, reached, start, [], code, end);
    assert [] + code == code;
  }

  lemma {:induction false} ReadsSpells(sy: Syllabifier, prism: Prism, input: string, edges: EdgeMap, indices: map<nat, SpellingIndex>,
                                       reached: nat, code: seq<int>, pos: nat, end: nat)
    requires Exact(sy, prism, input, edges, reached) && Transposed(edges, indices) && Reads(sy, prism, input, pos, code, end)
    ensures Spells(LookupGraph(indices, reached), code, pos, end)
    ensures |code| > 0 ==> pos < end
    decreases |code|
  {
    hide Exact, Transposed, SyllableAt, SyllableAs;
    if |code| > 0 {
      var mid: nat :| SyllableAt(sy, prism, input, pos, mid, code[0]) && Reads(sy, prism, input, mid, code[1..], end);
      var k := ReadIsIndexed(sy, prism, input, edges, indices, reached, pos, mid, code[0]);
      ReadsSpells(sy, prism, input, edges, indices, reached, code[1..], mid, end);
      assert Spells(LookupGraph(indices, reached), code[1..], indices[pos][code[0]][k].endPos, end);
    }
  }

  /** Main result: an entry with a short code is found wherever its code can be read to. */
  lemma WordIsFound(sy: Syllabifier, prism: Prism, input: string, edges: EdgeMap, indices: map<nat, SpellingIndex>, reached: nat,
                    v: Vocabularies.Vocabulary, entries: seq<Vocabularies.DictEntry>, start: nat, initial: real,
                    x: Vocabularies.DictEntry, end: nat)
    requires Vocabularies.Holds(v, entries) && x in entries && 1 <= |x.code| <= Vocabularies.INDEX_CODE_MAX_LENGTH
    requires Exact(sy, prism, input, edges, reached) && Transposed(edges, indices) && start < reached
    requires Reads(sy, prism, input, start, x.code, end)
    ensures exists c :: c in FoundAt(v, LookupGraph(indices, reached), start, initial, end)
                        && c.code == x.code && TableImages.Entry(x.text, x.weight) in c.entries
  {
    hide Exact, Transposed, FoundAt, Reads;
    var t := WholeTrail(sy, prism, input, edges, indices, reached, start, x.code, end);
    hide SpelledBy;
    LookupFindsWord(v, entries, LookupGraph(indices, reached), start, initial, x, t);
  }

  /** Main result: an entry with a longer code is found if its code can be read at all: for each
      way to read its first syllables, at the farthest place the rest can be read to from there. */
  lemma LongIsFound(sy: Syllabifier, prism: Prism, input: string, edges: EdgeMap, indices: map<nat, SpellingIndex>, reached: nat,
                    v: Vocabularies.Vocabulary, entries: seq<Vocabularies.DictEntry>, start: nat, initial: real,
                    x: Vocabularies.DictEntry, mid: nat, end: nat) returns (far: nat)
    requires Vocabularies.Holds(v, entries) && x in entries && |x.code| > Vocabularies.INDEX_CODE_MAX_LENGTH
    requires Exact(sy, prism, input, edges, reached) && Transposed(edges, indices) && start < reached
    requires Reads(sy, prism, input, start, x.code[..Vocabularies.INDEX_CODE_MAX_LENGTH], mid)
    requires Reads(sy, prism, input, mid, x.code[Vocabularies.INDEX_CODE_MAX_LENGTH..], end)
    ensures end <= far && Reads(sy, prism, input, mid, x.code[Vocabularies.INDEX_CODE_MAX_LENGTH..], far)
    ensures forall e: nat :: Reads(sy, prism, input, mid, x.code[Vocabularies.INDEX_CODE_MAX_LENGTH..], e) ==> e <= far
    ensures exists c :: c in FoundAt(v, LookupGraph(indices, reached), start, initial, far)
                        && c.code == x.code && c.entries == [TableImages.Entry(x.text, x.weight)]
  {
    hide Exact, Transposed, FoundAt, Reads;
    var n := Vocabularies.INDEX_CODE_MAX_LENGTH;
    var g := LookupGraph(indices, reached);
    var t := WholeTrail(sy, prism, input, edges, indices, reached, start, x.code[..n], mid);
    ReadsSpells(sy, prism, input, edges, indices, reached, x.code[..n], start, mid);
    ReadsSpells(sy, prism, input, edges, indices, reached, x.code[n..], mid, end);
    hide SpelledBy;
    far := ReadsFarthest(sy, prism, input, edges, indices, reached, x.code[n..], mid, end);
    LookupFindsLong(v, entries, g, start, initial, x, t);
  }

  lemma ReadsFarthest(sy: Syllabifier, prism: Prism, input: string, edges: EdgeMap, indices: map<nat, SpellingIndex>, reached: nat,
                      code: seq<int>, pos: nat, end: nat) returns (far: nat)
    requires Exact(sy, prism, input, edges, reached) && Transposed(edges, indices) && pos > 0
    requires Reads(sy, prism, input, pos, code, end)
    ensures far == Farthest(LookupGraph(indices, reached), code, pos) && far != 0 && end <= far
    ensures Reads(sy, prism, input, pos, code, far)
    ensures forall e: nat :: Reads(sy, prism, input, pos, code, e) ==> e <= far
  {
    var g := LookupGraph(indices, reached);
    hide Exact, Transposed, Reads, Spells, Farthest;
    GraphLeadsForward(sy, prism, input, edges, indices, reached);
    FarthestExactly(g, code, pos);
    far := Farthest(g, code, pos);
    ReadsSpells(sy, prism, input, edges, indices, reached, code, pos, end);
    SpellsReads(sy, prism, input, edges, indices, reached, code, pos, far);
    forall e: nat | Reads(sy, prism, input, pos, code, e)
      ensures e <= far
    {
      ReadsSpells(sy, prism, input, edges, indices, reached, code, pos, e);
    }
  }

  lemma GraphLeadsForward(sy: Syllabifier, prism: Prism, input: string, edges: EdgeMap, indices: map<nat, SpellingIndex>, reached: nat)
    requires Exact(sy, prism, input, edges, reached) && Transposed(edges, indices)
    ensures Forward(LookupGraph(indices, reached))
  {
    hide Exact, Transposed, SyllableAt;
    forall p, id, k | p in indices && id in indices[p] && 0 <= k < |indices[p][id]|
      ensures p < indices[p][id][k].endPos
    {
      IndexReads(sy, prism, input, edges, indices, reached, p, id, k);
    }
  }

  // ----- when nothing is found -----

  /** The lookup comes upon the code: a short one can be read; of a longer one the first syllables
      can be read, and something can be read behind them. */
  ghost predicate IsMet(sy: Syllabifier, prism: Prism, input: string, start: nat, code: seq<int>) {
    && |code| > 0
    && (|code| <= Vocabularies.INDEX_CODE_MAX_LENGTH ==> exists end: nat :: Reads(sy, prism, input, start, code, end))
    && (|code| > Vocabularies.INDEX_CODE_MAX_LENGTH ==>
          exists mid: nat :: Reads(sy, prism, input, start, code[..Vocabularies.INDEX_CODE_MAX_LENGTH], mid)
                             && exists e: nat, id :: SyllableAt(sy, prism, input, mid, e, id))
  }

  /** A slot has entries exactly if the dictionary has one that belongs there. */
  lemma SlotHas(v: Vocabularies.Vocabulary, entries: seq<Vocabularies.DictEntry>, path: seq<int>)
    requires Vocabularies.Holds(v, entries) && |path| > 0
    ensures Vocabularies.EntriesAt(v, path) != []
            <==> exists x :: x in entries && |x.code| > 0 && Vocabularies.Slot(x.code) == path
  {
    HeldMembers(v, entries, path);
    InSlotHas(entries, path);
    var found := Vocabularies.EntriesAt(v, path);
    if found != [] { assert found[0] in found; }
  }

  lemma {:induction false} InSlotHas(entries: seq<Vocabularies.DictEntry>, path: seq<int>)
    ensures forall x :: x in Vocabularies.InSlot(entries, path) <==> x in entries && |x.code| > 0 && Vocabularies.Slot(x.code) == path
  {
    if |entries| > 0 { InSlotHas(entries[..|entries| - 1], path); }
  }

  lemma CodeIsAsLong(g: Graph, start: nat, t: Trail)
    ensures |CodeOf(g, start, t)| == |t|
  {
  }

  lemma ShortHas(v: Vocabularies.Vocabulary, entries: seq<Vocabularies.DictEntry>, code: seq<int>) returns (x: Vocabularies.DictEntry)
    requires Vocabularies.Holds(v, entries) && 0 < |code| <= Vocabularies.INDEX_CODE_MAX_LENGTH
    requires Vocabularies.EntriesAt(v, code) != []
    ensures x in entries && x.code == code
  {
    hide Vocabularies.Holds, Vocabularies.EntriesAt;
    SlotHas(v, entries, code);
    x :| x in entries && |x.code| > 0 && Vocabularies.Slot(x.code) == code;
    assert |x.code| <= Vocabularies.INDEX_CODE_MAX_LENGTH;
  }

  lemma LongHas(v: Vocabularies.Vocabulary, entries: seq<Vocabularies.DictEntry>, code: seq<int>) returns (x: Vocabularies.DictEntry)
    requires Vocabularies.Holds(v, entries) && |code| == Vocabularies.INDEX_CODE_MAX_LENGTH
    requires Vocabularies.EntriesAt(v, code + [Vocabularies.TAIL_KEY]) != []
    ensures x in entries && |x.code| > |code| && x.code[..|code|] == code
  {
    hide Vocabularies.Holds, Vocabularies.EntriesAt;
    var slot := code + [Vocabularies.TAIL_KEY];
    SlotHas(v, entries, slot);
    x :| x in entries && |x.code| > 0 && Vocabularies.Slot(x.code) == slot;
    assert |x.code| > |code| && x.code[..|code|] == slot[..|code|] == code;
  }

  lemma WordIsMet(sy: Syllabifier, prism: Prism, input: string, edges: EdgeMap, indices: map<nat, SpellingIndex>, reached: nat,
                  v: Vocabularies.Vocabulary, entries: seq<Vocabularies.DictEntry>, start: nat, t: Trail)
    requires Vocabularies.Holds(v, entries) && Exact(sy, prism, input, edges, reached) && Transposed(edges, indices)
    requires IsFind(v, LookupGraph(indices, reached), start, Word(t))
    ensures exists x :: x in entries && IsMet(sy, prism, input, start, x.code)
  {
    hide Reads, Exact, Transposed, IsPath, CodeOf, StopOf, SyllableAt, Vocabularies.Holds, Vocabularies.EntriesAt;
    PathReads(sy, prism, input, edges, indices, reached, start, t);
    CodeIsAsLong(LookupGraph(indices, reached), start, t);
    var x := ShortHas(v, entries, CodeOf(LookupGraph(indices, reached), start, t));
    assert IsMet(sy, prism, input, start, x.code);
  }

  lemma LongIsMet(sy: Syllabifier, prism: Prism, input: string, edges: EdgeMap, indices: map<nat, SpellingIndex>, reached: nat,
                  v: Vocabularies.Vocabulary, entries: seq<Vocabularies.DictEntry>, start: nat, t: Trail)
    requires Vocabularies.Holds(v, entries) && Exact(sy, prism, input, edges, reached) && Transposed(edges, indices)
    requires IsFind(v, LookupGraph(indices, reached), start, Long(t))
    ensures exists x :: x in entries && IsMet(sy, prism, input, start, x.code)
  {
    hide Reads, Exact, Transposed, IsPath, CodeOf, StopOf, SyllableAt, Vocabularies.Holds, Vocabularies.EntriesAt;
    var g := LookupGraph(indices, reached);
    PathReads(sy, prism, input, edges, indices, reached, start, t);
    StopGoesOn(sy, prism, input, edges, indices, reached, StopOf(g, start, t).pos);
    CodeIsAsLong(g, start, t);
    var x := LongHas(v, entries, CodeOf(g, start, t));
    assert IsMet(sy, prism, input, start, x.code);
  }

  lemma FindIsMet(sy: Syllabifier, prism: Prism, input: string, edges: EdgeMap, indices: map<nat, SpellingIndex>, reached: nat,
                  v: Vocabularies.Vocabulary, entries: seq<Vocabularies.DictEntry>, start: nat, f: Find)
    requires Vocabularies.Holds(v, entries) && Exact(sy, prism, input, edges, reached) && Transposed(edges, indices)
    requires IsFind(v, LookupGraph(indices, reached), start, f)
    ensures exists x :: x in entries && IsMet(sy, prism, input, start, x.code)
  {
    hide *;
    match f
    case Word(t) => WordIsMet(sy, prism, input, edges, indices, reached, v, entries, start, t);
    case Long(t) => LongIsMet(sy, prism, input, edges, indices, reached, v, entries, start, t);
  }

  lemma StopGoesOn(sy: Syllabifier, prism: Prism, input: string, edges: EdgeMap, indices: map<nat, SpellingIndex>, reached: nat, mid: nat)
    requires Exact(sy, prism, input, edges, reached) && Transposed(edges, indices) && mid in indices && mid < reached
    ensures exists e: nat, id :: SyllableAt(sy, prism, input, mid, e, id)
  {
    assert mid in edges;
    hide Transposed, IsExactAt, EndsMarked, SyllableAt;
    var e, id :| HasSyllable(edges, mid, e, id);
    HasWhatIsRead(sy, prism, input, edges, reached, mid, e, id);
  }

  lemma MetIsWord(sy: Syllabifier, prism: Prism, input: string, edges: EdgeMap, indices: map<nat, SpellingIndex>, reached: nat,
                  v: Vocabularies.Vocabulary, entries: seq<Vocabularies.DictEntry>, start: nat, x: Vocabularies.DictEntry)
    returns (t: Trail)
    requires Vocabularies.Holds(v, entries) && Exact(sy, prism, input, edges, reached) && Transposed(edges, indices)
    requires x in entries && IsMet(sy, prism, input, start, x.code) && |x.code| <= Vocabularies.INDEX_CODE_MAX_LENGTH
    ensures IsFind(v, LookupGraph(indices, reached), start, Word(t))
  {
    hide Exact, Transposed, Reads, SyllableAt, IsPath, CodeOf, StopOf, Vocabularies.Holds, Vocabularies.EntriesAt;
    SlotHas(v, entries, x.code);
    assert Vocabularies.Slot(x.code) == x.code;
    var end: nat :| Reads(sy, prism, input, start, x.code, end);
    t := WholeTrail(sy, prism, input, edges, indices, reached, start, x.code, end);
    CodeIsAsLong(LookupGraph(indices, reached), start, t);
  }

  lemma MetIsLong(sy: Syllabifier, prism: Prism, input: string, edges: EdgeMap, indices: map<nat, SpellingIndex>, reached: nat,
                  v: Vocabularies.Vocabulary, entries: seq<Vocabularies.DictEntry>, start: nat, x: Vocabularies.DictEntry)
    returns (t: Trail)
    requires Vocabularies.Holds(v, entries) && Exact(sy, prism, input, edges, reached) && Transposed(edges, indices)
    requires x in entries && IsMet(sy, prism, input, start, x.code) && |x.code| > Vocabularies.INDEX_CODE_MAX_LENGTH
    ensures IsFind(v, LookupGraph(indices, reached), start, Long(t))
  {
    var n := Vocabularies.INDEX_CODE_MAX_LENGTH;
    hide Exact, Transposed, Reads, SyllableAt, SyllableAs, IsPath, CodeOf, StopOf, Vocabularies.Holds, Vocabularies.EntriesAt;
    SlotHas(v, entries, Vocabularies.Slot(x.code));
    var mid: nat :| Reads(sy, prism, input, start, x.code[..n], mid) && exists e: nat, id :: SyllableAt(sy, prism, input, mid, e, id);
    var e: nat, id :| SyllableAt(sy, prism, input, mid, e, id);
    var _ := ReadIsIndexed(sy, prism, input, edges, indices, reached, mid, e, id);
    t := WholeTrail(sy, prism, input, edges, indices, reached, start, x.code[..n], mid);
    CodeIsAsLong(LookupGraph(indices, reached), start, t);
  }

  lemma MetIsFind(sy: Syllabifier, prism: Prism, input: string, edges: EdgeMap, indices: map<nat, SpellingIndex>, reached: nat,
                  v: Vocabularies.Vocabulary, entries: seq<Vocabularies.DictEntry>, start: nat, x: Vocabularies.DictEntry)
    returns (f: Find)
    requires Vocabularies.Holds(v, entries) && Exact(sy, prism, input, edges, reached) && Transposed(edges, indices)
    requires x in entries && IsMet(sy, prism, input, start, x.code)
    ensures IsFind(v, LookupGraph(indices, reached), start, f)
  {
    hide *;
    if |x.code| <= Vocabularies.INDEX_CODE_MAX_LENGTH {
      var t := MetIsWord(sy, prism, input, edges, indices, reached, v, entries, start, x);
      f := Word(t);
    } else {
      var t := MetIsLong(sy, prism, input, edges, indices, reached, v, entries, start, x);
      f := Long(t);
    }
  }

  /** Main result: a lookup finds nothing if and only if it comes upon no entry. */
  lemma NothingExactly(sy: Syllabifier, prism: Prism, input: string, edges: EdgeMap, indices: map<nat, SpellingIndex>, reached: nat,
                       v: Vocabularies.Vocabulary, entries: seq<Vocabularies.DictEntry>, start: nat)
    requires Vocabularies.Holds(v, entries) && Exact(sy, prism, input, edges, reached) && Transposed(edges, indices)
    ensures start >= reached || Finds(v, LookupGraph(indices, reached), start) == []
            <==> forall x :: x in entries ==> !IsMet(sy, prism, input, start, x.code)
  {
    hide Exact, Transposed, IsMet, IsFind, Vocabularies.Holds;
    var g := LookupGraph(indices, reached);
    if start < reached {
      FindsExactly(v, g, start);
      if Finds(v, g, start) != [] { FindIsMet(sy, prism, input, edges, indices, reached, v, entries, start, Finds(v, g, start)[0]); }
    }
    forall x | x in entries && IsMet(sy, prism, input, start, x.code)
      ensures start < reached && Finds(v, g, start) != []
    {
      MetIsInside(sy, prism, input, edges, reached, start, x.code);
      var f := MetIsFind(sy, prism, input, edges, indices, reached, v, entries, start, x);
      assert f in Finds(v, g, start);
    }
  }

  lemma MetIsInside(sy: Syllabifier, prism: Prism, input: string, edges: EdgeMap, reached: nat, start: nat, code: seq<int>)
    requires Exact(sy, prism, input, edges, reached) && IsMet(sy, prism, input, start, code)
    ensures start < reached
  {
    var n := Vocabularies.INDEX_CODE_MAX_LENGTH;
    hide SyllableAt, EndsMarked, NoDeadEnds, IsExactAt;
    var part := if |code| <= n then code else code[..n];
    var end: nat :| Reads(sy, prism, input, start, part, end);
    var mid: nat :| SyllableAt(sy, prism, input, start, mid, part[0]) && Reads(sy, prism, input, mid, part[1..], end);
    HasWhatIsRead(sy, prism, input, edges, reached, start, mid, part[0]);
  }
}
