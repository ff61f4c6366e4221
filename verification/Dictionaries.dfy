/** Looking a syllable graph up in a dictionary: the chunks of table entries that the paths
    from a position spell, grouped by where they end and put in order. */
module Dictionaries {
  import opened Commons
  import opened Spellings
  import opened Groupings
  import opened Vocabularies
  import opened TableImages
  import opened TableVisitors
  import opened TableWalks
  import opened TableFinds
  import opened ChunkMerges

  // ----- the rest of a long code -----

  /** Some path spells `code` from `pos` to `end`. */
  ghost predicate Spells(g: Graph, code: seq<int>, pos: nat, end: nat)
    decreases |code|
  {
    if |code| == 0 then pos == end
    else
      && pos < g.length && pos in g.indices && code[0] in g.indices[pos]
      && exists k :: 0 <= k < |g.indices[pos][code[0]]| && Spells(g, code[1..], g.indices[pos][code[0]][k].endPos, end)
  }

  ghost function Farther(a: nat, b: nat): nat {
    if a < b then b else a
  }

  /** The farthest position `code` can be spelled to, 0 if there is none. */
  ghost function Farthest(g: Graph, code: seq<int>, pos: nat): nat
    decreases |code|, 1, 0
  {
    if |code| == 0 then pos
    else if pos >= g.length || pos !in g.indices || code[0] !in g.indices[pos] then 0
    else FarthestBy(g, code, g.indices[pos][code[0]], |g.indices[pos][code[0]]|)
  }

  ghost function FarthestBy(g: Graph, code: seq<int>, list: seq<Properties>, n: nat): nat
    requires |code| > 0 && n <= |list|
    decreases |code|, 0, n
  {
    if n == 0 then 0 else Farther(FarthestBy(g, code, list, n - 1), Farthest(g, code[1..], list[n - 1].endPos))
  }

  /** Every edge leads forward. */
  ghost predicate Forward(g: Graph) {
    forall p, id, k :: p in g.indices && id in g.indices[p] && 0 <= k < |g.indices[p][id]| ==> p < g.indices[p][id][k].endPos
  }

  lemma LeadsForward(g: Graph, p: nat, id: int, k: nat)
    requires Forward(g) && p in g.indices && id in g.indices[p] && k < |g.indices[p][id]|
    ensures p < g.indices[p][id][k].endPos
  {
  }

  lemma {:induction false} FarthestIsSpelled(g: Graph, code: seq<int>, pos: nat)
    requires Farthest(g, code, pos) != 0
    ensures Spells(g, code, pos, Farthest(g, code, pos))
    decreases |code|, 1, 0
  {
    if |code| > 0 {
      var list := g.indices[pos][code[0]];
      var k := FarthestByIsSpelled(g, code, list, |list|);
    }
  }

  lemma {:induction false} FarthestByIsSpelled(g: Graph, code: seq<int>, list: seq<Properties>, n: nat) returns (k: nat)
    requires |code| > 0 && n <= |list| && FarthestBy(g, code, list, n) != 0
    ensures k < n && Spells(g, code[1..], list[k].endPos, FarthestBy(g, code, list, n))
    decreases |code|, 0, n
  {
    if FarthestBy(g, code, list, n) == Farthest(g, code[1..], list[n - 1].endPos) {
      FarthestIsSpelled(g, code[1..], list[n - 1].endPos);
      k := n - 1;
    } else {
      k := FarthestByIsSpelled(g, code, list, n - 1);
    }
  }

  lemma {:induction false} SpelledIsWithin(g: Graph, code: seq<int>, pos: nat, end: nat)
    requires Spells(g, code, pos, end)
    ensures end <= Farthest(g, code, pos)
    ensures Forward(g) && pos > 0 ==> end > 0
    decreases |code|
  {
    if |code| > 0 {
      var list := g.indices[pos][code[0]];
      var k :| 0 <= k < |list| && Spells(g, code[1..], list[k].endPos, end);
      if Forward(g) { LeadsForward(g, pos, code[0], k); }
      SpelledIsWithin(g, code[1..], list[k].endPos, end);
      WithinBy(g, code, list, |list|, k);
    }
  }

  lemma {:induction false} WithinBy(g: Graph, code: seq<int>, list: seq<Properties>, n: nat, k: nat)
    requires |code| > 0 && k < n <= |list|
    ensures Farthest(g, code[1..], list[k].endPos) <= FarthestBy(g, code, list, n)
  {
    if k < n - 1 { WithinBy(g, code, list, n - 1, k); }
  }

  /** Main result: the match is the farthest position the extra code can be spelled to, and
      there is no match exactly when it cannot be spelled. */
  lemma FarthestExactly(g: Graph, code: seq<int>, pos: nat)
    requires Forward(g) && pos > 0
    ensures Farthest(g, code, pos) == 0 <==> forall end: nat :: !Spells(g, code, pos, end)
    ensures Farthest(g, code, pos) != 0 ==> Spells(g, code, pos, Farthest(g, code, pos))
    ensures forall end: nat :: Spells(g, code, pos, end) ==> end <= Farthest(g, code, pos)
  {
    var farthest := Farthest(g, code, pos);
    forall end: nat
      ensures Spells(g, code, pos, end) ==> 0 < end <= farthest
    {
      if Spells(g, code, pos, end) { SpelledIsWithin(g, code, pos, end); }
    }
    if farthest != 0 {
      FarthestIsSpelled(g, code, pos);
      assert Spells(g, code, pos, farthest);
    }
  }

  method MatchExtraCode(extraCode: seq<int>, depth: nat, g: Graph, currentPos: nat) returns (r: nat)
    requires depth <= |extraCode|
    ensures r == Farthest(g, extraCode[depth..], currentPos)
    decreases |extraCode| - depth
  {
    if depth >= |extraCode| {
      return currentPos;
    }
    ghost var code := extraCode[depth..];
    assert code[0] == extraCode[depth] && code[1..] == extraCode[depth + 1..];
    if currentPos >= g.length {
      return 0;
    }
    if currentPos !in g.indices {
      return 0;
    }
    var index := g.indices[currentPos];
    if extraCode[depth] !in index {
      return 0;
    }
    var list := index[extraCode[depth]];
    var bestMatch := 0;
    for k := 0 to |list|
      invariant bestMatch == FarthestBy(g, code, list, k)
    {
      var matchEndPos := MatchExtraCode(extraCode, depth + 1, g, list[k].endPos);
      if matchEndPos > bestMatch {
        bestMatch := matchEndPos;
      }
    }
    r := bestMatch;
  }

  // ----- chunks -----

  function WordChunk(a: TableAccessor, credibility: real): Chunk {
    Chunk(a.indexCode, if a.contents.EntryList? && a.cursor <= |a.contents.entries| then a.contents.entries[a.cursor..] else [],
          0, "", credibility)
  }

  function TailChunk(a: TableAccessor, credibility: real): Chunk
    requires !a.Exhausted()
  {
    Chunk(a.Code(), [a.CurrentEntry()], 0, "", credibility)
  }

  /** The chunks of the tails from the accessor's position on, where their codes end. */
  ghost function TailChunks(g: Graph, end: nat, a: TableAccessor, credibility: real): seq<At<Chunk>>
    requires a.contents.CodeMap?
    decreases |a.contents.tails| - a.cursor
  {
    if a.Exhausted() then [] else FirstTail(g, end, a, credibility) + TailChunks(g, end, a.Next(), credibility)
  }

  /** What a hit gives. */
  ghost function ChunksOf(g: Graph, initial: real, h: Hit): seq<At<Chunk>> {
    var credibility := Times(initial, h.item.credibility);
    if h.item.contents.CodeMap? && !h.item.Exhausted() then TailChunks(g, h.end, h.item, credibility)
    else [At(h.end, WordChunk(h.item, credibility))]
  }

  ghost function AllChunks(g: Graph, initial: real, hits: seq<Hit>): seq<At<Chunk>> {
    if |hits| == 0 then [] else AllChunks(g, initial, hits[..|hits| - 1]) + ChunksOf(g, initial, hits[|hits| - 1])
  }

  type Collector = Groups<Chunk>

  // ----- Lookup -----

  /** The chunk of the tail an accessor stands at, if its code can be spelled. */
  ghost function FirstTail(g: Graph, end: nat, a: TableAccessor, credibility: real): seq<At<Chunk>>
    requires a.contents.CodeMap? && !a.Exhausted()
  {
    var actualEnd := Farthest(g, a.contents.tails[a.cursor].extraCode, end);
    if actualEnd == 0 then [] else [At(actualEnd, TailChunk(a, credibility))]
  }

  /** Adds the tail an accessor stands at. */
  method CollectTail(collector: Collector, g: Graph, end: nat, a: TableAccessor, credibility: real) returns (r: Collector)
    requires a.contents.CodeMap? && !a.Exhausted()
    ensures r == PutAll(collector, FirstTail(g, end, a, credibility))
  {
    var extraCode := a.contents.tails[a.cursor].extraCode;
    var actualEnd := MatchExtraCode(extraCode, 0, g, end);
    assert extraCode[0..] == extraCode;
    if actualEnd == 0 {
      return collector;
    }
    var chunk := At(actualEnd, TailChunk(a, credibility));
    assert [chunk][..0] == [];
    r := Put(collector, chunk);
  }

  /** Adds the tails of one accessor. */
  method CollectTails(collector: Collector, g: Graph, end: nat, accessor: TableAccessor, credibility: real) returns (r: Collector)
    requires accessor.contents.CodeMap? && !accessor.Exhausted()
    ensures r == PutAll(collector, TailChunks(g, end, accessor, credibility))
  {
    r := collector;
    var a := accessor;
    ghost var done: seq<At<Chunk>> := [];
    while !a.Exhausted()
      invariant a.contents == accessor.contents
      invariant done + TailChunks(g, end, a, credibility) == TailChunks(g, end, accessor, credibility)
      invariant r == PutAll(collector, done)
      decreases |accessor.contents.tails| - a.cursor
    {
      hide FirstTail, PutAll, TableAccessor.Next;
      NextTail(g, end, a, credibility);
      Associate(done, FirstTail(g, end, a, credibility), TailChunks(g, end, a.Next(), credibility));
      hide TailChunks;
      var more := CollectTail(r, g, end, a, credibility);
      PutAllConcat(collector, done, FirstTail(g, end, a, credibility));
      r := more;
      done := done + FirstTail(g, end, a, credibility);
      a := a.Next();
    }
    assert done + [] == done;
  }

  lemma NextTail(g: Graph, end: nat, a: TableAccessor, credibility: real)
    requires a.contents.CodeMap? && !a.Exhausted()
    ensures a.Next().contents == a.contents && a.Next().cursor == a.cursor + 1
    ensures TailChunks(g, end, a, credibility)
            == FirstTail(g, end, a, credibility) + TailChunks(g, end, a.Next(), credibility)
  {
  }

  /** Adds what one accessor gives. */
  method Collect(collector: Collector, g: Graph, end: nat, a: TableAccessor, initial: real) returns (r: Collector)
    ensures r == PutAll(collector, ChunksOf(g, initial, At(end, a)))
  {
    var credibility := Times(initial, a.credibility);
    if a.ExtraCode().Some? {
      r := CollectTails(collector, g, end, a, credibility);
    } else {
      r := Put(collector, At(end, WordChunk(a, credibility)));
      assert [At(end, WordChunk(a, credibility))][..0] == [];
    }
  }

  /** Adds what the accessors at one position give. */
  method CollectGroup(collector: Collector, g: Graph, end: nat, accessors: seq<TableAccessor>, initial: real) returns (r: Collector)
    ensures r == PutAll(collector, AllChunks(g, initial, Tagged(end, accessors)))
  {
    r := collector;
    for k := 0 to |accessors|
      invariant r == PutAll(collector, AllChunks(g, initial, Tagged(end, accessors[..k])))
    {
      hide AllChunks, ChunksOf, PutAll;
      TakeOne(g, initial, end, accessors, k);
      var more := Collect(r, g, end, accessors[k], initial);
      PutAllConcat(collector, AllChunks(g, initial, Tagged(end, accessors[..k])), ChunksOf(g, initial, At(end, accessors[k])));
      r := more;
    }
    assert accessors[..|accessors|] == accessors;
  }

  lemma TakeOne(g: Graph, initial: real, end: nat, accessors: seq<TableAccessor>, k: nat)
    requires k < |accessors|
    ensures AllChunks(g, initial, Tagged(end, accessors[..k + 1]))
            == AllChunks(g, initial, Tagged(end, accessors[..k])) + ChunksOf(g, initial, At(end, accessors[k]))
  {
    hide ChunksOf;
    assert Tagged(end, accessors[..k + 1])[..k] == Tagged(end, accessors[..k]);
  }

  lemma {:induction false} AllChunksConcat(g: Graph, initial: real, a: seq<Hit>, b: seq<Hit>)
    ensures AllChunks(g, initial, a + b) == AllChunks(g, initial, a) + AllChunks(g, initial, b)
  {
    hide ChunksOf;
    if |b| == 0 {
      assert a + b == a;
    } else {
      assert (a + b)[..|a + b| - 1] == a + b[..|b| - 1];
      AllChunksConcat(g, initial, a, b[..|b| - 1]);
    }
  }

  ghost predicate EndsBefore(result: QueryResult, rest: set<int>) {
    rest <= EndsOf(result) && forall d, r :: d in EndsOf(result) - rest && r in rest ==> d < r
  }

  lemma NextEnd(result: QueryResult, rest: set<int>)
    requires EndsBefore(result, rest) && |rest| > 0
    ensures var e := Least(rest);
            && EndsBefore(result, rest - {e}) && e >= 0
            && Ungrouped(result, EndsOf(result) - (rest - {e}))
               == Ungrouped(result, EndsOf(result) - rest) + Tagged(e as nat, result[e as nat])
  {
    var e := Least(rest);
    var done := EndsOf(result) - (rest - {e});
    assert forall d :: d in done <==> d == e || d in EndsOf(result) - rest;
    assert Greatest(done) == e;
    assert done - {e} == EndsOf(result) - rest;
  }

  /** Adds everything a query has found. */
  method CollectAll(result: QueryResult, g: Graph, initial: real) returns (collector: Collector)
    ensures collector == PutAll<Chunk>(map[], AllChunks(g, initial, Ungrouped(result, EndsOf(result))))
  {
    collector := map[];
    var rest := EndsOf(result);
    ghost var done: seq<Hit> := [];
    assert EndsOf(result) - rest == {};
    while |rest| > 0
      invariant EndsBefore(result, rest) && done == Ungrouped(result, EndsOf(result) - rest)
      invariant collector == PutAll<Chunk>(map[], AllChunks(g, initial, done))
    {
      hide Ungrouped, AllChunks, PutAll, Tagged;
      NextEnd(result, rest);
      var e := Least(rest);
      hide EndsBefore;
      var more := CollectGroup(collector, g, e, result[e], initial);
      AllChunksConcat(g, initial, done, Tagged(e, result[e]));
      PutAllConcat<Chunk>(map[], AllChunks(g, initial, done), AllChunks(g, initial, Tagged(e, result[e])));
      collector := more;
      done := done + Tagged(e, result[e]);
      rest := rest - {e};
    }
    assert EndsOf(result) - rest == EndsOf(result);
  }

  /** What the paths from a position spell, as far as the dictionary knows it. */
  method Lookup(index: seq<HeadNode>, g: Graph, startPos: nat, initialCredibility: real, ghost v: Vocabulary)
    returns (found: Option<Collector>)
    requires IsHead(v, index)
    ensures found == None <==> startPos >= g.length || Finds(v, g, startPos) == []
    ensures found.Some? ==> IsLookup(v, g, startPos, initialCredibility, found.value)
  {
    hide IsHead, IsLookup, AllHits, Finds, Ungrouped, AllChunks, PutAll;
    var ok, result := Query(index, g, startPos, v);
    if startPos < g.length {
      SomethingFound(v, g, startPos);
      LookupIs(v, g, startPos, initialCredibility);
    }
    if !ok {
      return None;
    }
    var collector := CollectAll(result, g, initialCredibility);
    found := Some(map e | e in collector :: Sorted(collector[e]));
  }

  /** At every position there is, in order, what the finds give there. */
  ghost predicate IsLookup(v: Vocabulary, g: Graph, start: nat, initial: real, collector: Collector) {
    forall e: nat ::
      && (e in collector <==> FoundAt(v, g, start, initial, e) != multiset{})
      && (e in collector ==> InOrder(collector[e]) && multiset(collector[e]) == FoundAt(v, g, start, initial, e))
  }

  /** The chunks that the finds give at a position. */
  ghost function FoundAt(v: Vocabulary, g: Graph, start: nat, initial: real, e: nat): multiset<Chunk> {
    multiset(ItemsAt(AllChunks(g, initial, HitsAt(v, g, start, Finds(v, g, start))), e))
  }

  lemma SomethingFound(v: Vocabulary, g: Graph, start: nat)
    requires start < g.length
    ensures PutAll<TableAccessor>(map[], AllHits(v, g, start)) == map[] <==> Finds(v, g, start) == []
  {
    FindsExactly(v, g, start);
    var hits := AllHits(v, g, start);
    if hits != [] {
      EndIsThere(hits, hits[0]);
      assert hits[0].end in PutAll<TableAccessor>(map[], hits);
    }
  }

  ghost function Grouped(g: Graph, initial: real, result: QueryResult): Collector {
    var collector := PutAll<Chunk>(map[], AllChunks(g, initial, Ungrouped(result, EndsOf(result))));
    map e | e in collector :: Sorted(collector[e])
  }

  lemma LookupIs(v: Vocabulary, g: Graph, start: nat, initial: real)
    requires start < g.length
    ensures IsLookup(v, g, start, initial, Grouped(g, initial, PutAll<TableAccessor>(map[], AllHits(v, g, start))))
  {
    var hits := AllHits(v, g, start);
    var result := PutAll<TableAccessor>(map[], hits);
    FindsExactly(v, g, start);
    UngroupedAll(hits);
    var inOrder := Ungrouped(result, EndsOf(result));
    AllChunksOfMultiset(g, initial, inOrder, hits);
    var chunks := AllChunks(g, initial, inOrder);
    forall e: nat
      ensures var collector := Grouped(g, initial, result);
              && (e in collector <==> FoundAt(v, g, start, initial, e) != multiset{})
              && (e in collector ==> InOrder(collector[e]) && multiset(collector[e]) == FoundAt(v, g, start, initial, e))
    {
      PutAllAre(chunks, e);
      ItemsAtOfMultiset(chunks, AllChunks(g, initial, hits), e);
      SortedInOrder(ItemsAt(chunks, e));
    }
  }

  lemma AllChunksOfMultiset(g: Graph, initial: real, a: seq<Hit>, b: seq<Hit>)
    requires multiset(a) == multiset(b)
    ensures multiset(AllChunks(g, initial, a)) == multiset(AllChunks(g, initial, b))
  {
    var f := (h: Hit) => ChunksOf(g, initial, h);
    AllChunksMapped(g, initial, f, a);
    AllChunksMapped(g, initial, f, b);
    FlatMapOfMultiset(f, a, b);
  }

  lemma {:induction false} AllChunksMapped(g: Graph, initial: real, f: Hit -> seq<At<Chunk>>, hits: seq<Hit>)
    requires forall h :: f(h) == ChunksOf(g, initial, h)
    ensures AllChunks(g, initial, hits) == FlatMap(f, hits)
  {
    if |hits| > 0 {
      AllChunksMapped(g, initial, f, hits[..|hits| - 1]);
      FlatMapConcat(f, hits[..|hits| - 1], [hits[|hits| - 1]]);
      assert hits == hits[..|hits| - 1] + [hits[|hits| - 1]];
      assert FlatMap(f, [hits[|hits| - 1]]) == f(hits[|hits| - 1]);
    }
  }
}
