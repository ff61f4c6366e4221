/** Querying a table by all paths of a syllable graph at once. */
module TableWalks {
  import opened Commons
  import opened Spellings
  import opened Vocabularies
  import opened TableImages
  import opened TableVisitors
  import opened TableQueries
  import opened GraphEdges
  import opened Groupings

  datatype Graph = Graph(indices: map<nat, SpellingIndex>, length: nat)

  /** Where a walk through graph and table has come. */
  datatype Stop = Stop(pos: nat, code: seq<int>, crs: seq<real>)
  {
    function Credibility(): real {
      Times(1.0, Last())
    }

    function Last(): real {
      if |crs| == 0 then 1.0 else crs[|crs| - 1]
    }

    /** One syllable further. */
    function Go(id: int, p: Properties): Stop {
      Stop(p.endPos, code + [id], crs + [Times(Last(), p.credibility)])
    }
  }

  /** A slot found at an end position. */
  type Hit = At<TableAccessor>

  type QueryResult = Groups<TableAccessor>

  // ----- what there is to find -----

  /** The slot looked up by `id` from a stop has entries. */
  ghost predicate HasEntries(v: Vocabulary, code: seq<int>, id: int) {
    EntriesAt(v, SlotBelow(code, id)) != []
  }

  /** The walk may go on by `id` to `end`. */
  ghost predicate MayGo(v: Vocabulary, g: Graph, code: seq<int>, id: int, end: nat) {
    end < g.length && |code| < INDEX_CODE_MAX_LENGTH && PageUnder(v, code + [id]).nextLevel.Some?
  }

  /** The slot met by one edge. */
  ghost function HitBy(v: Vocabulary, stop: Stop, id: int, p: Properties): seq<Hit> {
    if HasEntries(v, stop.code, id) then [At(p.endPos, AccessorFor(v, stop.code, id, stop.Credibility()))] else []
  }

  /** Where the walk goes on by one edge. */
  ghost function KidBy(v: Vocabulary, g: Graph, stop: Stop, id: int, p: Properties): seq<Stop> {
    if MayGo(v, g, stop.code, id, p.endPos) then [stop.Go(id, p)] else []
  }

  ghost function Met(v: Vocabulary, stop: Stop, index: SpellingIndex, cs: seq<Choice>): seq<Hit> {
    if |cs| == 0 then []
    else
      var c := cs[|cs| - 1];
      Met(v, stop, index, cs[..|cs| - 1]) + HitBy(v, stop, c.id, EdgeAt(index, c))
  }

  ghost function Followed(v: Vocabulary, g: Graph, stop: Stop, index: SpellingIndex, cs: seq<Choice>): seq<Stop> {
    if |cs| == 0 then []
    else
      var c := cs[|cs| - 1];
      Followed(v, g, stop, index, cs[..|cs| - 1]) + KidBy(v, g, stop, c.id, EdgeAt(index, c))
  }

  lemma {:induction false} MetConcat(v: Vocabulary, stop: Stop, index: SpellingIndex, a: seq<Choice>, b: seq<Choice>)
    ensures Met(v, stop, index, a + b) == Met(v, stop, index, a) + Met(v, stop, index, b)
  {
    hide HitBy;
    if |b| == 0 {
      assert a + b == a;
    } else {
      assert (a + b)[..|a + b| - 1] == a + b[..|b| - 1];
      MetConcat(v, stop, index, a, b[..|b| - 1]);
    }
  }

  lemma {:induction false} FollowedConcat(v: Vocabulary, g: Graph, stop: Stop, index: SpellingIndex, a: seq<Choice>, b: seq<Choice>)
    ensures Followed(v, g, stop, index, a + b) == Followed(v, g, stop, index, a) + Followed(v, g, stop, index, b)
  {
    hide KidBy;
    if |b| == 0 {
      assert a + b == a;
    } else {
      assert (a + b)[..|a + b| - 1] == a + b[..|b| - 1];
      FollowedConcat(v, g, stop, index, a, b[..|b| - 1]);
    }
  }

  ghost function EdgesFrom(g: Graph, pos: nat): seq<Choice> {
    if pos in g.indices then Edges(g.indices[pos], g.indices[pos].Keys) else []
  }

  ghost function HitsOf(v: Vocabulary, g: Graph, stop: Stop): seq<Hit> {
    if stop.pos !in g.indices then []
    else if |stop.code| == INDEX_CODE_MAX_LENGTH then HitBy(v, stop, TAIL_KEY, DEFAULT_PROPERTIES.(endPos := stop.pos))
    else Met(v, stop, g.indices[stop.pos], EdgesFrom(g, stop.pos))
  }

  ghost function KidsOf(v: Vocabulary, g: Graph, stop: Stop): seq<Stop> {
    if stop.pos !in g.indices || |stop.code| == INDEX_CODE_MAX_LENGTH then []
    else Followed(v, g, stop, g.indices[stop.pos], EdgesFrom(g, stop.pos))
  }

  ghost function KidsOfAll(v: Vocabulary, g: Graph, stops: seq<Stop>): (r: seq<Stop>)
  {
    if |stops| == 0 then [] else KidsOfAll(v, g, stops[..|stops| - 1]) + KidsOf(v, g, stops[|stops| - 1])
  }

  ghost function HitsOfAll(v: Vocabulary, g: Graph, stops: seq<Stop>): seq<Hit>
  {
    if |stops| == 0 then [] else HitsOfAll(v, g, stops[..|stops| - 1]) + HitsOf(v, g, stops[|stops| - 1])
  }

  /** The stops `n` syllables from `root`, in the order a breadth-first walk meets them. */
  ghost function StopsAt(v: Vocabulary, g: Graph, root: Stop, n: nat): (r: seq<Stop>)
  {
    if n == 0 then [root] else KidsOfAll(v, g, StopsAt(v, g, root, n - 1))
  }

  ghost function HitsUpTo(v: Vocabulary, g: Graph, root: Stop, n: nat): seq<Hit>
  {
    (if n == 0 then [] else HitsUpTo(v, g, root, n - 1)) + HitsOfAll(v, g, StopsAt(v, g, root, n))
  }

  const ROOT_CRS: seq<real> := [1.0]

  /** Everything a query from `start` finds: slots met after at most the index length. */
  ghost function AllHits(v: Vocabulary, g: Graph, start: nat): seq<Hit> {
    HitsUpTo(v, g, Stop(start, [], ROOT_CRS), INDEX_CODE_MAX_LENGTH)
  }

  // ----- the walk -----

  datatype Pending = Pending(pos: nat, visitor: TableVisitor)

  ghost predicate Matched(q: seq<Pending>, stops: seq<Stop>, v: Vocabulary)
    reads set p | p in q :: p.visitor
  {
    && |q| == |stops|
    && forall i :: 0 <= i < |q| ==> Represents(q[i], stops[i], v)
  }

  ghost predicate Represents(p: Pending, stop: Stop, v: Vocabulary)
    reads p.visitor
  {
    p.pos == stop.pos && p.visitor.vocabulary == v && p.visitor.Stands(stop.code, stop.crs)
  }

  lemma MatchedConcat(a: seq<Pending>, sa: seq<Stop>, b: seq<Pending>, sb: seq<Stop>, v: Vocabulary)
    requires Matched(a, sa, v) && Matched(b, sb, v)
    ensures Matched(a + b, sa + sb, v)
  {
    hide Represents;
  }

  lemma MatchedRest(q: seq<Pending>, stops: seq<Stop>, v: Vocabulary)
    requires Matched(q, stops, v) && |q| > 0
    ensures |stops| > 0 && Represents(q[0], stops[0], v) && Matched(q[1..], stops[1..], v)
  {
    hide Represents;
  }

  /** Follows the edges of one syllable. */
  method FollowEdges(g: Graph, visitor: TableVisitor, id: int, index: SpellingIndex, ghost v: Vocabulary, ghost stop: Stop)
    returns (hits: seq<Hit>, kids: seq<Pending>)
    requires visitor.vocabulary == v && visitor.Stands(stop.code, stop.crs)
    requires |stop.code| < INDEX_CODE_MAX_LENGTH && id in index
    modifies visitor
    ensures visitor.Stands(stop.code, stop.crs)
    ensures hits == Met(v, stop, index, EdgesOf(id, |index[id]|))
    ensures forall p :: p in kids ==> fresh(p.visitor)
    ensures Matched(kids, Followed(v, g, stop, index, EdgesOf(id, |index[id]|)), v)
  {
    hide TableVisitor.Stands, PageUnder, AccessorFor, Represents;
    hits, kids := [], [];
    var list := index[id];
    var accessor := visitor.Access(id, stop.code, stop.crs);
    LastStands(visitor, stop);
    for i := 0 to |list|
      invariant visitor.Stands(stop.code, stop.crs)
      invariant hits == Met(v, stop, index, EdgesOf(id, i))
      invariant forall p :: p in kids ==> fresh(p.visitor) && p.visitor != visitor
      invariant Matched(kids, Followed(v, g, stop, index, EdgesOf(id, i)), v)
    {
      hide Matched, Opens;
      var props := list[i];
      OneMore(v, g, stop, index, id, i);
      if !accessor.Exhausted() {
        hits := hits + [At(props.endPos, accessor)];
      }
      var kid := [];
      if props.endPos < g.length {
        kid := WalkAside(visitor, id, props, v, stop);
      } else {
        MatchedNone(v);
      }
      MatchedConcat(kids, Followed(v, g, stop, index, EdgesOf(id, i)), kid, KidBy(v, g, stop, id, props), v);
      kids := kids + kid;
    }
  }

  lemma OneMore(v: Vocabulary, g: Graph, stop: Stop, index: SpellingIndex, id: int, i: nat)
    requires id in index && i < |index[id]|
    ensures Met(v, stop, index, EdgesOf(id, i + 1)) == Met(v, stop, index, EdgesOf(id, i)) + HitBy(v, stop, id, index[id][i])
    ensures Followed(v, g, stop, index, EdgesOf(id, i + 1))
            == Followed(v, g, stop, index, EdgesOf(id, i)) + KidBy(v, g, stop, id, index[id][i])
  {
    hide HitBy, KidBy;
    assert EdgesOf(id, i + 1)[..i] == EdgesOf(id, i);
  }

  lemma LastStands(visitor: TableVisitor, stop: Stop)
    requires visitor.Stands(stop.code, stop.crs)
    ensures |stop.crs| > 0 && stop.crs[|stop.crs| - 1] == stop.Last()
  {
  }

  lemma MatchedNone(v: Vocabulary)
    ensures Matched([], [], v)
  {
  }

  /** Takes a copy of the visitor one syllable further, and leaves the visitor as it was. */
  method WalkAside(visitor: TableVisitor, id: int, props: Properties, ghost v: Vocabulary, ghost stop: Stop)
    returns (kid: seq<Pending>)
    requires visitor.vocabulary == v && visitor.Stands(stop.code, stop.crs)
    requires |stop.code| < INDEX_CODE_MAX_LENGTH
    modifies visitor
    ensures visitor.Stands(stop.code, stop.crs)
    ensures forall p :: p in kid ==> fresh(p.visitor)
    ensures Matched(kid, if PageUnder(v, stop.code + [id]).nextLevel.Some? then [stop.Go(id, props)] else [], v)
  {
    hide TableVisitor.Stands, PageUnder;
    kid := [];
    LastStands(visitor, stop);
    var ok := visitor.Walk(id, props.credibility, stop.code, stop.crs);
    if ok {
      ghost var next := stop.Go(id, props);
      var copy := new TableVisitor.Copy(visitor);
      kid := [Pending(props.endPos, copy)];
      var _ := visitor.Backdate(next.code, next.crs);
      assert next.code[..|next.code| - 1] == stop.code && next.crs[..|next.crs| - 1] == stop.crs;
    }
  }

  /** Looks at everything one syllable from a stop. */
  method ExpandStop(g: Graph, pos: nat, visitor: TableVisitor, ghost v: Vocabulary, ghost stop: Stop)
    returns (hits: seq<Hit>, kids: seq<Pending>)
    requires pos == stop.pos && visitor.vocabulary == v && visitor.Stands(stop.code, stop.crs)
    modifies visitor
    ensures hits == HitsOf(v, g, stop)
    ensures forall p :: p in kids ==> fresh(p.visitor)
    ensures Matched(kids, KidsOf(v, g, stop), v)
  {
    LengthStands(visitor, stop.code, stop.crs);
    LevelStands(visitor, stop.code, stop.crs);
    hide TableVisitor.Stands, PageUnder, AccessorFor, Met, Followed;
    hits, kids := [], [];
    if pos !in g.indices {
      return;
    }
    if visitor.level == INDEX_CODE_MAX_LENGTH {
      var accessor := visitor.Access(TAIL_KEY, stop.code, stop.crs);
      if !accessor.Exhausted() {
        hits := [At(pos, accessor)];
      }
      return;
    }
    hits, kids := ExpandIndex(g, g.indices[pos], visitor, v, stop);
  }

  method ExpandIndex(g: Graph, index: SpellingIndex, visitor: TableVisitor, ghost v: Vocabulary, ghost stop: Stop)
    returns (hits: seq<Hit>, kids: seq<Pending>)
    requires visitor.vocabulary == v && visitor.Stands(stop.code, stop.crs)
    requires |stop.code| < INDEX_CODE_MAX_LENGTH
    modifies visitor
    ensures hits == Met(v, stop, index, Edges(index, index.Keys))
    ensures forall p :: p in kids ==> fresh(p.visitor)
    ensures Matched(kids, Followed(v, g, stop, index, Edges(index, index.Keys)), v)
  {
    hits, kids := [], [];
    var rest := index.Keys;
    ghost var done := Edges(index, index.Keys - rest);
    while |rest| > 0
      invariant DoneFirst(index, rest) && visitor.Stands(stop.code, stop.crs) && done == Edges(index, index.Keys - rest)
      invariant hits == Met(v, stop, index, done)
      invariant forall p :: p in kids ==> fresh(p.visitor) && p.visitor != visitor
      invariant Matched(kids, Followed(v, g, stop, index, done), v)
    {
      hide Met, Followed, TableVisitor.Stands, Matched, Edges, EdgesOf;
      var id := Least(rest);
      NextEdges(index, rest);
      assert id in index;
      hide DoneFirst;
      var moreHits, moreKids := FollowEdges(g, visitor, id, index, v, stop);
      ghost var more := EdgesOf(id, |index[id]|);
      MetConcat(v, stop, index, done, more);
      FollowedConcat(v, g, stop, index, done, more);
      MatchedConcat(kids, Followed(v, g, stop, index, done), moreKids, Followed(v, g, stop, index, more), v);
      hits, kids := hits + moreHits, kids + moreKids;
      rest := rest - {id};
      done := done + more;
    }
    assert index.Keys - rest == index.Keys;
  }

  lemma LevelStands(visitor: TableVisitor, code: seq<int>, crs: seq<real>)
    requires visitor.Stands(code, crs)
    ensures visitor.level == |code|
  {
  }

  // ----- the queue -----

  lemma {:induction false} FollowedDeeper(v: Vocabulary, g: Graph, stop: Stop, index: SpellingIndex, cs: seq<Choice>)
    ensures forall k :: k in Followed(v, g, stop, index, cs) ==> |k.code| == |stop.code| + 1
  {
    if |cs| > 0 { FollowedDeeper(v, g, stop, index, cs[..|cs| - 1]); }
  }

  lemma {:induction false} KidsOfAllDeeper(v: Vocabulary, g: Graph, stops: seq<Stop>, n: nat)
    requires forall s :: s in stops ==> |s.code| == n
    ensures forall k :: k in KidsOfAll(v, g, stops) ==> |k.code| == n + 1 <= INDEX_CODE_MAX_LENGTH || (n > INDEX_CODE_MAX_LENGTH && |k.code| == n + 1)
  {
    if |stops| > 0 {
      var last := stops[|stops| - 1];
      KidsOfAllDeeper(v, g, stops[..|stops| - 1], n);
      assert last in stops;
      if last.pos in g.indices && n != INDEX_CODE_MAX_LENGTH {
        FollowedDeeper(v, g, last, g.indices[last.pos], EdgesFrom(g, last.pos));
      }
    }
  }

  lemma {:induction false} StopsAtDepth(v: Vocabulary, g: Graph, root: Stop, n: nat)
    requires root.code == [] && n <= INDEX_CODE_MAX_LENGTH + 1
    ensures forall s :: s in StopsAt(v, g, root, n) ==> |s.code| == n <= INDEX_CODE_MAX_LENGTH
  {
    if n > 0 {
      StopsAtDepth(v, g, root, n - 1);
      KidsOfAllDeeper(v, g, StopsAt(v, g, root, n - 1), n - 1);
    }
  }

  lemma NoStopsBeyond(v: Vocabulary, g: Graph, root: Stop, n: nat)
    requires root.code == [] && n <= INDEX_CODE_MAX_LENGTH + 1
    ensures n == INDEX_CODE_MAX_LENGTH + 1 ==> StopsAt(v, g, root, n) == []
  {
    StopsAtDepth(v, g, root, n);
    if StopsAt(v, g, root, n) != [] { assert StopsAt(v, g, root, n)[0] in StopsAt(v, g, root, n); }
  }

  lemma {:induction false} NoHitsBeyond(v: Vocabulary, g: Graph, root: Stop, m: nat, n: nat)
    requires m <= n && StopsAt(v, g, root, m) == []
    ensures StopsAt(v, g, root, n) == []
    ensures m > 0 ==> HitsUpTo(v, g, root, n) == HitsUpTo(v, g, root, m - 1)
    decreases n
  {
    hide KidsOfAll, HitsOfAll;
    NothingOfNone(v, g);
    if m < n { NoHitsBeyond(v, g, root, m, n - 1); }
  }

  lemma NothingOfNone(v: Vocabulary, g: Graph)
    ensures KidsOfAll(v, g, []) == [] && HitsOfAll(v, g, []) == []
  {
  }

  /** What was found on the levels before `n`. */
  ghost function HitsBefore(v: Vocabulary, g: Graph, root: Stop, n: nat): seq<Hit>
  {
    if n == 0 then [] else HitsUpTo(v, g, root, n - 1)
  }

  /** The queue and the hits once the first `i` stops of a level are done. */
  ghost predicate Further(v: Vocabulary, g: Graph, level: seq<Stop>, i: nat, before: seq<Hit>, stops: seq<Stop>, hits: seq<Hit>)
  {
    && i <= |level|
    && stops == level[i..] + KidsOfAll(v, g, level[..i])
    && hits == before + HitsOfAll(v, g, level[..i])
  }

  /** The queue holds the rest of level `n` from stop `i` on and the kids of those before. */
  ghost predicate Underway(v: Vocabulary, g: Graph, root: Stop, stops: seq<Stop>, hits: seq<Hit>, n: nat, i: nat)
  {
    var level := StopsAt(v, g, root, n);
    && n <= INDEX_CODE_MAX_LENGTH + 1
    && (i < |level| || (i == 0 && level == [] && n > 0))
    && Further(v, g, level, i, HitsBefore(v, g, root, n), stops, hits)
  }

  lemma Slide<T>(list: seq<T>, i: nat, more: seq<T>)
    requires i < |list|
    ensures (list[i..] + more)[0] == list[i]
    ensures (list[i..] + more)[1..] == list[i + 1..] + more
  {
  }

  lemma FurtherStep(v: Vocabulary, g: Graph, level: seq<Stop>, i: nat, before: seq<Hit>, stops: seq<Stop>, hits: seq<Hit>)
    requires Further(v, g, level, i, before, stops, hits) && i < |level|
    ensures |stops| > 0 && stops[0] == level[i]
    ensures Further(v, g, level, i + 1, before, stops[1..] + KidsOf(v, g, level[i]), hits + HitsOf(v, g, level[i]))
  {
    AllStep(v, g, level, i);
    hide KidsOfAll, KidsOf, HitsOfAll, HitsOf;
    Slide(level, i, KidsOfAll(v, g, level[..i]));
    Associate(level[i + 1..], KidsOfAll(v, g, level[..i]), KidsOf(v, g, level[i]));
    Associate(before, HitsOfAll(v, g, level[..i]), HitsOf(v, g, level[i]));
  }

  lemma InLevel(v: Vocabulary, g: Graph, root: Stop, stops: seq<Stop>, hits: seq<Hit>, n: nat, i: nat)
    requires root.code == [] && Underway(v, g, root, stops, hits, n, i) && |stops| > 0
    ensures n <= INDEX_CODE_MAX_LENGTH && i < |StopsAt(v, g, root, n)|
  {
    NoStopsBeyond(v, g, root, n);
  }

  lemma StepQueue(v: Vocabulary, g: Graph, root: Stop, stops: seq<Stop>, hits: seq<Hit>, n: nat, i: nat) returns (n': nat, i': nat)
    requires root.code == []
    requires Underway(v, g, root, stops, hits, n, i) && |stops| > 0
    ensures n <= INDEX_CODE_MAX_LENGTH
    ensures Underway(v, g, root, stops[1..] + KidsOf(v, g, stops[0]), hits + HitsOf(v, g, stops[0]), n', i')
    ensures (n' == n && i < i' <= |StopsAt(v, g, root, n)|) || n' == n + 1
  {
    InLevel(v, g, root, stops, hits, n, i);
    hide KidsOf, HitsOf, StopsAt, HitsBefore, Further;
    var level := StopsAt(v, g, root, n);
    FurtherStep(v, g, level, i, HitsBefore(v, g, root, n), stops, hits);
    n', i' := n, i + 1;
    if i + 1 == |level| {
      NextLevel(v, g, root, n, stops[1..] + KidsOf(v, g, level[i]), hits + HitsOf(v, g, level[i]));
      n', i' := n + 1, 0;
    }
  }

  lemma NextLevel(v: Vocabulary, g: Graph, root: Stop, n: nat, stops: seq<Stop>, hits: seq<Hit>)
    requires n <= INDEX_CODE_MAX_LENGTH
    requires Further(v, g, StopsAt(v, g, root, n), |StopsAt(v, g, root, n)|, HitsBefore(v, g, root, n), stops, hits)
    ensures Underway(v, g, root, stops, hits, n + 1, 0)
  {
    hide KidsOfAll, HitsOfAll, Further;
    var level := StopsAt(v, g, root, n);
    LevelDone(v, g, level, HitsBefore(v, g, root, n), stops, hits);
    LevelBegun(v, g, stops, hits);
  }

  lemma LevelDone(v: Vocabulary, g: Graph, level: seq<Stop>, before: seq<Hit>, stops: seq<Stop>, hits: seq<Hit>)
    requires Further(v, g, level, |level|, before, stops, hits)
    ensures stops == KidsOfAll(v, g, level) && hits == before + HitsOfAll(v, g, level)
  {
    hide KidsOfAll, HitsOfAll;
    assert level[..|level|] == level && level[|level|..] == [];
  }

  lemma LevelBegun(v: Vocabulary, g: Graph, level: seq<Stop>, before: seq<Hit>)
    ensures Further(v, g, level, 0, before, level, before)
  {
    NothingOfNone(v, g);
    hide KidsOfAll, HitsOfAll;
    assert level[..0] == [] && level[0..] == level;
    assert level + [] == level && before + [] == before;
  }

  lemma AllStep(v: Vocabulary, g: Graph, level: seq<Stop>, i: nat)
    requires i < |level|
    ensures KidsOfAll(v, g, level[..i + 1]) == KidsOfAll(v, g, level[..i]) + KidsOf(v, g, level[i])
    ensures HitsOfAll(v, g, level[..i + 1]) == HitsOfAll(v, g, level[..i]) + HitsOf(v, g, level[i])
  {
    assert level[..i + 1][..i] == level[..i];
  }

  lemma QueueEnds(v: Vocabulary, g: Graph, root: Stop, hits: seq<Hit>, n: nat, i: nat)
    requires root.code == []
    requires Underway(v, g, root, [], hits, n, i)
    ensures hits == HitsUpTo(v, g, root, INDEX_CODE_MAX_LENGTH)
  {
    if n <= INDEX_CODE_MAX_LENGTH { NoHitsBeyond(v, g, root, n, INDEX_CODE_MAX_LENGTH); }
  }

  /** Finds, by one breadth-first walk of graph and table, the slots that the paths from
      `startPos` open. */
  method Query(index: seq<HeadNode>, g: Graph, startPos: nat, ghost v: Vocabulary) returns (ok: bool, result: QueryResult)
    requires IsHead(v, index)
    ensures startPos >= g.length ==> !ok
    ensures startPos < g.length ==> result == PutAll<TableAccessor>(map[], AllHits(v, g, startPos)) && ok == (result != map[])
  {
    result := map[];
    if startPos >= g.length {
      return false, result;
    }
    hide IsHead, TableVisitor.Stands, Underway, AllHits, HitsUpTo, StopsAt;
    ghost var root := Stop(startPos, [], ROOT_CRS);
    var visitor := new TableVisitor(index, v);
    var q := [Pending(startPos, visitor)];
    ghost var stops, hits, n, i := [root], [], 0, 0;
    QueueStarts(v, g, root);
    while |q| > 0
      invariant forall p :: p in q ==> fresh(p.visitor)
      invariant Walking(v, g, root, q, stops, hits, n, i) && result == PutAll<TableAccessor>(map[], hits)
      decreases INDEX_CODE_MAX_LENGTH + 1 - n, |StopsAt(v, g, root, n)| - i
    {
      hide PutAll, Walking;
      q, result, stops, hits, n, i := NextStop(g, q, result, v, root, stops, hits, n, i);
    }
    WalkEnds(v, g, root, stops, hits, n, i);
    ok := result != map[];
    AllHitsAre(v, g, startPos);
  }

  ghost predicate Walking(v: Vocabulary, g: Graph, root: Stop, q: seq<Pending>, stops: seq<Stop>, hits: seq<Hit>, n: nat, i: nat)
    reads set p | p in q :: p.visitor
  {
    root.code == [] && Matched(q, stops, v) && Underway(v, g, root, stops, hits, n, i)
  }

  /** Takes the first stop off the queue and looks around it. */
  method NextStop(g: Graph, q0: seq<Pending>, result0: QueryResult, ghost v: Vocabulary, ghost root: Stop,
                  ghost stops0: seq<Stop>, ghost hits0: seq<Hit>, ghost n0: nat, ghost i0: nat)
    returns (q: seq<Pending>, result: QueryResult, ghost stops: seq<Stop>, ghost hits: seq<Hit>, ghost n: nat, ghost i: nat)
    requires |q0| > 0 && Walking(v, g, root, q0, stops0, hits0, n0, i0)
    requires result0 == PutAll<TableAccessor>(map[], hits0)
    ensures Walking(v, g, root, q, stops, hits, n, i) && result == PutAll<TableAccessor>(map[], hits)
    ensures forall p :: p in q ==> p in q0 || fresh(p.visitor)
    ensures n0 <= INDEX_CODE_MAX_LENGTH && ((n == n0 && i0 < i <= |StopsAt(v, g, root, n)|) || n == n0 + 1)
  {
    hide Matched, Represents, PutAll, Underway, KidsOf, HitsOf, StopsAt;
    MatchedRest(q0, stops0, v);
    n, i := StepQueue(v, g, root, stops0, hits0, n0, i0);
    ghost var stop := stops0[0];
    var moreHits, kids := VisitStop(g, q0[0], v, stop);
    PutAllConcat<TableAccessor>(map[], hits0, moreHits);
    hits := hits0 + moreHits;
    result := AppendHits(result0, moreHits);
    MatchedConcat(q0[1..], stops0[1..], kids, KidsOf(v, g, stop), v);
    q, stops := q0[1..] + kids, stops0[1..] + KidsOf(v, g, stop);
  }

  lemma WalkEnds(v: Vocabulary, g: Graph, root: Stop, stops: seq<Stop>, hits: seq<Hit>, n: nat, i: nat)
    requires Walking(v, g, root, [], stops, hits, n, i)
    ensures hits == HitsUpTo(v, g, root, INDEX_CODE_MAX_LENGTH)
  {
    assert stops == [];
    QueueEnds(v, g, root, hits, n, i);
  }

  /** Expands a stop with a copy of its visitor. */
  method VisitStop(g: Graph, p: Pending, ghost v: Vocabulary, ghost stop: Stop) returns (hits: seq<Hit>, kids: seq<Pending>)
    requires Represents(p, stop, v)
    ensures hits == HitsOf(v, g, stop)
    ensures forall k :: k in kids ==> fresh(k.visitor)
    ensures Matched(kids, KidsOf(v, g, stop), v)
  {
    hide TableVisitor.Stands, Represents, Matched, HitsOf, KidsOf;
    RepresentsStands(p, stop, v);
    var visitor := new TableVisitor.Copy(p.visitor);
    hits, kids := ExpandStop(g, p.pos, visitor, v, stop);
  }

  method AppendHits(before: QueryResult, hits: seq<Hit>) returns (result: QueryResult)
    ensures result == PutAll(before, hits)
  {
    result := before;
    for k := 0 to |hits|
      invariant result == PutAll(before, hits[..k])
    {
      assert hits[..k + 1][..k] == hits[..k];
      result := Put(result, hits[k]);
    }
    assert hits[..|hits|] == hits;
  }

  lemma RepresentsStands(p: Pending, stop: Stop, v: Vocabulary)
    requires Represents(p, stop, v)
    ensures p.pos == stop.pos && p.visitor.vocabulary == v && p.visitor.Stands(stop.code, stop.crs)
  {
  }

  lemma QueueStarts(v: Vocabulary, g: Graph, root: Stop)
    ensures Underway(v, g, root, [root], [], 0, 0)
  {
  }

  lemma AllHitsAre(v: Vocabulary, g: Graph, start: nat)
    ensures AllHits(v, g, start) == HitsUpTo(v, g, Stop(start, [], ROOT_CRS), INDEX_CODE_MAX_LENGTH)
  {
  }
}
