/** The syllabifier: from input text to the pruned graph of its possible syllables. */
module Syllabification {
  import opened Spellings
  import opened Prisms
  import opened Lattices
  import opened Frontiers
  import opened ExpandSearches

  class SyllableGraph {
    var inputLength: nat
    var interpretedLength: nat
    var vertices: VertexMap
    var edges: EdgeMap
    var indices: map<nat, SpellingIndex>

    constructor ()
      ensures inputLength == 0 && interpretedLength == 0
      ensures vertices == map[] && edges == map[] && indices == map[]
    {
      inputLength, interpretedLength := 0, 0;
      vertices, edges, indices := map[], map[], map[];
    }
  }

  // ----- the lattice of an input -----

  datatype Syllabifier = Syllabifier(delimiters: string, enableCompletion: bool, strictSpelling: bool)
  {
    /** The end of a match once the delimiters after it are consumed. */
    function SkipDelimiters(input: string, pos: nat): (r: nat)
      requires pos <= |input|
      ensures pos <= r <= |input|
      ensures forall k :: pos <= k < r ==> input[k] in delimiters
      ensures r < |input| ==> input[r] !in delimiters
      decreases |input| - pos
    {
      if pos < |input| && input[pos] in delimiters then SkipDelimiters(input, pos + 1) else pos
    }

    /** Strict spelling: the whole input as one syllable has to be spelled normally. */
    predicate Disqualified(input: string, pos: nat, end: nat, kind: SpellingType) {
      strictSpelling && pos == 0 && end == |input| && kind != NORMAL
    }

    /** The syllables of a match; the first listing of a syllable counts. */
    function Collected(input: string, pos: nat, end: nat, ds: seq<Descriptor>): SpellingMap {
      if |ds| == 0 then map[]
      else
        var d := ds[|ds| - 1];
        var before := Collected(input, pos, end, ds[..|ds| - 1]);
        if Disqualified(input, pos, end, d.kind) || d.syllableId in before then before
        else before[d.syllableId := Properties(d.kind, end, d.credibility, d.tips)]
    }

    function CollectedKind(input: string, pos: nat, end: nat, ds: seq<Descriptor>): SpellingType {
      if |ds| == 0 then INVALID
      else
        var d := ds[|ds| - 1];
        var before := CollectedKind(input, pos, end, ds[..|ds| - 1]);
        if Disqualified(input, pos, end, d.kind) || before <= d.kind then before else d.kind
    }

    function LinkOf(input: string, prism: Prism, pos: nat, m: Match): (l: Link)
      requires pos + m.length <= |input|
      ensures pos + m.length <= l.end <= |input|
    {
      var end := SkipDelimiters(input, pos + m.length);
      var ds := prism.QuerySpelling(m.value);
      Link(end, Collected(input, pos, end, ds), CollectedKind(input, pos, end, ds))
    }

    /** The links of the first `n` matches; a match that spells nothing gives none. */
    function LinksUpTo(input: string, prism: Prism, pos: nat, n: nat): (r: seq<Link>)
      requires pos <= |input| && n <= |prism.CommonPrefixSearch(input[pos..])|
      ensures forall l :: l in r ==> pos < l.end <= |input|
    {
      if n == 0 then []
      else
        var l := LinkOf(input, prism, pos, prism.CommonPrefixSearch(input[pos..])[n - 1]);
        var before := LinksUpTo(input, prism, pos, n - 1);
        if l.spellings == map[] then before else before + [l]
    }

    function LinksFrom(input: string, prism: Prism, pos: nat): (r: seq<Link>)
      requires pos <= |input|
      ensures forall l :: l in r ==> pos < l.end <= |input|
    {
      LinksUpTo(input, prism, pos, |prism.CommonPrefixSearch(input[pos..])|)
    }

    function LatticeOf(input: string, prism: Prism): (lattice: Lattice)
      ensures lattice.length == |input| && lattice.Forward()
      ensures forall p :: 0 <= p <= |input| ==> lattice.links[p] == LinksFrom(input, prism, p)
    {
      Lattice(|input|, seq(|input| + 1, p requires 0 <= p <= |input| => LinksFrom(input, prism, p)))
    }

    // ----- the forward pass -----

    /** Handles one match: consumes the delimiters after it and collects its syllables. */
    method SpellMatch(input: string, prism: Prism, pos: nat, m: Match) returns (link: Link)
      requires pos + m.length <= |input|
      ensures link == LinkOf(input, prism, pos, m)
    {
      var endPos := pos + m.length;
      while endPos < |input| && input[endPos] in delimiters
        invariant pos + m.length <= endPos <= |input|
        invariant SkipDelimiters(input, endPos) == SkipDelimiters(input, pos + m.length)
      {
        endPos := endPos + 1;
      }
      var matchesInput := pos == 0 && endPos == |input|;
      var spellings: SpellingMap := map[];
      var endVertexType: SpellingType := INVALID;
      var ds := prism.QuerySpelling(m.value);
      for i := 0 to |ds|
        invariant spellings == Collected(input, pos, endPos, ds[..i])
        invariant endVertexType == CollectedKind(input, pos, endPos, ds[..i])
      {
        assert ds[..i + 1][..i] == ds[..i];
        var props := Properties(ds[i].kind, endPos, ds[i].credibility, ds[i].tips);
        if strictSpelling && matchesInput && props.kind != NORMAL {
        } else {
          if ds[i].syllableId !in spellings {
            spellings := spellings[ds[i].syllableId := props];
          }
          if endVertexType > props.kind {
            endVertexType := props.kind;
          }
        }
      }
      assert ds[..|ds|] == ds;
      link := Link(endPos, spellings, endVertexType);
    }

    /** Visits every position that can be reached, best type first, recording an edge for
        each match. */
    method VisitVertices(input: string, prism: Prism, graph: SyllableGraph) returns (farthest: nat)
      requires |input| > 0 && graph.vertices == map[] && graph.edges == map[]
      modifies graph`vertices, graph`edges
      ensures LatticeOf(input, prism).Explored(graph.vertices, graph.edges, farthest)
      ensures forall p :: p in graph.edges <==> p in graph.vertices && HasMatch(input, prism, p)
    {
      hide Invariant, Drawn, LatticeOf, LinksFrom, LinksUpTo, Pushes, EdgesOf, Before;
      ghost var lattice := LatticeOf(input, prism);
      Start(lattice);
      NothingDrawn(input, prism);
      farthest := 0;
      var queue: Queue := multiset{Vertex(0, NORMAL)};
      while |queue| > 0
        invariant Invariant(lattice, graph.vertices, queue)
        invariant farthest <= |input| && forall p :: p in graph.vertices ==> p <= farthest
        invariant farthest in graph.vertices || (graph.vertices == map[] && farthest == 0)
        invariant Drawn(input, prism, graph.vertices, graph.edges)
        decreases Positions(|input|) - graph.vertices.Keys, |queue|
      {
        TopExists(queue);
        var vertex :| vertex in queue && forall u :: u in queue ==> Before(vertex, u);
        var currentPos := vertex.pos;
        if currentPos in graph.vertices {
          Discard(lattice, graph.vertices, queue, vertex);
          queue := queue - multiset{vertex};
          continue;
        }
        Visit(lattice, graph.vertices, queue, vertex);
        ghost var vertices, edges := graph.vertices, graph.edges;
        var pushes := RecordVisit(input, prism, vertex, graph);
        OneMoreDrawn(input, prism, vertices, edges, vertex, graph.edges);
        assert currentPos in Positions(|input|) - vertices.Keys;
        queue := queue - multiset{vertex} + pushes;
        if currentPos > farthest {
          farthest := currentPos;
        }
      }
      assert queue == multiset{};
      Done(input, prism, graph.vertices, graph.edges, farthest);
    }

    /** Records a vertex and the edges that start there. */
    method RecordVisit(input: string, prism: Prism, vertex: Vertex, graph: SyllableGraph) returns (pushes: Queue)
      requires vertex.pos <= |input|
      modifies graph`vertices, graph`edges
      ensures graph.vertices == old(graph.vertices)[vertex.pos := vertex.kind]
      ensures graph.edges == if HasMatch(input, prism, vertex.pos)
                             then old(graph.edges)[vertex.pos := EdgesOf(LinksFrom(input, prism, vertex.pos))]
                             else old(graph.edges)
      ensures pushes == Pushes(LinksFrom(input, prism, vertex.pos), vertex.kind)
    {
      graph.vertices := graph.vertices[vertex.pos := vertex.kind];
      var matches := prism.CommonPrefixSearch(input[vertex.pos..]);
      pushes := multiset{};
      if |matches| > 0 {
        var endVertices;
        endVertices, pushes := Advance(input, prism, vertex, matches);
        graph.edges := graph.edges[vertex.pos := endVertices];
      }
    }

    ghost function Positions(n: nat): (r: set<nat>)
      ensures forall p: nat :: p in r <==> p <= n
    {
      if n == 0 then {0} else Positions(n - 1) + {n}
    }

    ghost predicate Drawn(input: string, prism: Prism, vertices: VertexMap, edges: EdgeMap) {
      && (forall p :: p in edges <==> p in vertices && HasMatch(input, prism, p))
      && (forall p :: p in edges ==> edges[p] == EdgesOf(LinksFrom(input, prism, p)))
    }

    lemma NothingDrawn(input: string, prism: Prism)
      ensures Drawn(input, prism, map[], map[])
    {
    }

    lemma OneMoreDrawn(input: string, prism: Prism, vertices: VertexMap, edges: EdgeMap, v: Vertex, edges': EdgeMap)
      requires Drawn(input, prism, vertices, edges) && v.pos !in vertices && v.pos <= |input|
      requires edges' == if HasMatch(input, prism, v.pos)
                         then edges[v.pos := EdgesOf(LinksFrom(input, prism, v.pos))] else edges
      ensures Drawn(input, prism, vertices[v.pos := v.kind], edges')
    {
      hide LinksFrom, EdgesOf, HasMatch;
    }

    lemma NoMatchNoLinks(input: string, prism: Prism, p: nat)
      requires p <= |input| && |LinksFrom(input, prism, p)| > 0
      ensures HasMatch(input, prism, p)
    {
    }

    lemma Done(input: string, prism: Prism, vertices: VertexMap, edges: EdgeMap, farthest: nat)
      requires Invariant(LatticeOf(input, prism), vertices, multiset{})
      requires Drawn(input, prism, vertices, edges)
      requires forall p :: p in vertices ==> p <= farthest <= |input|
      requires farthest in vertices || vertices == map[]
      ensures LatticeOf(input, prism).Explored(vertices, edges, farthest)
      ensures forall p :: p in edges <==> p in vertices && HasMatch(input, prism, p)
    {
      var lattice := LatticeOf(input, prism);
      hide Invariant, Lattice.Minimax, LatticeOf, EdgesOf, LinksFrom, HasMatch, Lattice.Forward;
      MinimaxWhenDone(lattice, vertices);
      forall p | p in vertices && |LinksFrom(input, prism, p)| > 0
        ensures p in edges
      {
        NoMatchNoLinks(input, prism, p);
      }
    }

    predicate HasMatch(input: string, prism: Prism, p: nat) {
      p <= |input| && |prism.CommonPrefixSearch(input[p..])| > 0
    }

    lemma NextLink(input: string, prism: Prism, pos: nat, n: nat)
      requires pos <= |input| && n < |prism.CommonPrefixSearch(input[pos..])|
      ensures var l := LinkOf(input, prism, pos, prism.CommonPrefixSearch(input[pos..])[n]);
              LinksUpTo(input, prism, pos, n + 1)
              == if l.spellings == map[] then LinksUpTo(input, prism, pos, n) else LinksUpTo(input, prism, pos, n) + [l]
    {
      hide LinkOf, Prism.CommonPrefixSearch;
    }

    /** The first `n` matches at a vertex have been followed. */
    ghost predicate Followed(input: string, prism: Prism, vertex: Vertex, n: nat, endVertices: EndVertexMap, pushes: Queue)
      requires vertex.pos <= |input| && n <= |prism.CommonPrefixSearch(input[vertex.pos..])|
    {
      var links := LinksUpTo(input, prism, vertex.pos, n);
      endVertices == EdgesOf(links) && pushes == Pushes(links, vertex.kind)
    }

    lemma FollowedNext(input: string, prism: Prism, vertex: Vertex, n: nat, endVertices: EndVertexMap, pushes: Queue)
      requires vertex.pos <= |input| && n < |prism.CommonPrefixSearch(input[vertex.pos..])|
      requires Followed(input, prism, vertex, n, endVertices, pushes)
      ensures var l := LinkOf(input, prism, vertex.pos, prism.CommonPrefixSearch(input[vertex.pos..])[n]);
              if l.spellings == map[] then Followed(input, prism, vertex, n + 1, endVertices, pushes)
              else Followed(input, prism, vertex, n + 1, endVertices[l.end := l.spellings],
                            pushes + multiset{Vertex(l.end, Worse(l.kind, vertex.kind))})
    {
      hide EdgesOf, Pushes, LinksUpTo, LinkOf, Prism.CommonPrefixSearch;
      NextLink(input, prism, vertex.pos, n);
      var l := LinkOf(input, prism, vertex.pos, prism.CommonPrefixSearch(input[vertex.pos..])[n]);
      OneMoreLink(LinksUpTo(input, prism, vertex.pos, n), l, vertex.kind);
    }

    lemma NoneFollowed(input: string, prism: Prism, vertex: Vertex)
      requires vertex.pos <= |input|
      ensures Followed(input, prism, vertex, 0, map[], multiset{})
    {
    }

    /** Follows the matches at a vertex. */
    method Advance(input: string, prism: Prism, vertex: Vertex, matches: seq<Match>)
      returns (endVertices: EndVertexMap, pushes: Queue)
      requires vertex.pos <= |input| && matches == prism.CommonPrefixSearch(input[vertex.pos..])
      ensures endVertices == EdgesOf(LinksFrom(input, prism, vertex.pos))
      ensures pushes == Pushes(LinksFrom(input, prism, vertex.pos), vertex.kind)
    {
      hide EdgesOf, Pushes, LinkOf, LinksUpTo, Prism.CommonPrefixSearch;
      endVertices, pushes := map[], multiset{};
      NoneFollowed(input, prism, vertex);
      for i := 0 to |matches|
        invariant Followed(input, prism, vertex, i, endVertices, pushes)
      {
        hide Followed;
        FollowedNext(input, prism, vertex, i, endVertices, pushes);
        var link := SpellMatch(input, prism, vertex.pos, matches[i]);
        if link.spellings == map[] {
          continue;
        }
        endVertices := endVertices[link.end := link.spellings];
        var endVertexType := link.kind;
        if endVertexType < vertex.kind {
          endVertexType := vertex.kind;
        }
        pushes := pushes + multiset{Vertex(link.end, endVertexType)};
      }
    }

    // ----- the backward pass -----

    /** Drops the syllables of an edge that are worse than `limit`. */
    method FilterSpellings(spellings: SpellingMap, limit: SpellingType)
      returns (kept: SpellingMap, edgeType: SpellingType)
      ensures kept == Within(spellings, limit) && IsBestType(kept, edgeType)
      ensures edgeType < ABBREVIATION <==> BetterThanAbbreviated(kept)
    {
      kept, edgeType := spellings, INVALID;
      var rest: set<int> := spellings.Keys;
      while |rest| > 0
        invariant rest <= spellings.Keys
        invariant kept == Swept(spellings, limit, rest)
        invariant IsBestType(kept - rest, edgeType)
      {
        var s := Least(rest);
        NextChecked(kept, rest, s, edgeType);
        rest := rest - {s};
        if spellings[s].kind > limit {
          kept := kept - {s};
        } else if spellings[s].kind < edgeType {
          edgeType := spellings[s].kind;
        }
      }
      assert kept == Within(spellings, limit) && kept - rest == kept;
    }

    lemma NextChecked(kept: SpellingMap, rest: set<int>, s: int, best: SpellingType)
      requires s in rest && s in kept && IsBestType(kept - rest, best)
      ensures IsBestType(kept - {s} - (rest - {s}), best)
      ensures IsBestType(kept - (rest - {s}), if kept[s].kind < best then kept[s].kind else best)
    {
      var before, after := kept - rest, kept - (rest - {s});
      assert kept - {s} - (rest - {s}) == before;
      assert forall x :: x in after <==> x in before || x == s;
      assert forall x :: x in before ==> after[x] == before[x];
      assert s in after && after[s] == kept[s];
    }

    /** The best type of a syllable on an edge, and the invalid one if there is none. */
    ghost predicate IsBestType(m: SpellingMap, best: SpellingType) {
      && (forall s :: s in m ==> best <= m[s].kind)
      && (best == INVALID || exists s :: s in m && m[s].kind == best)
    }

    /** The syllables left when those in `rest` are still to be checked. */
    ghost function Swept(m: SpellingMap, limit: SpellingType, rest: set<int>): SpellingMap {
      map s | s in m && (s in rest || m[s].kind <= limit) :: m[s]
    }

    /** Marks the vertices that split an edge in two as joints. */
    method CheckOverlappedSpellings(graph: SyllableGraph, start: nat, end: nat)
      modifies graph`vertices
      ensures graph.vertices == Joined(old(graph.vertices), graph.edges, start, end, {})
    {
      if start !in graph.edges {
        return;
      }
      hide Joint, Joined;
      var rest: set<int> := graph.edges[start].Keys;
      JoinedBounds(graph.vertices, graph.edges, start, end, rest);
      while |rest| > 0
        invariant rest <= graph.edges[start].Keys
        invariant graph.vertices == Joined(old(graph.vertices), graph.edges, start, end, rest)
      {
        var joint: nat := Least(rest);
        if joint >= end {
          break;
        }
        JoinedStep(old(graph.vertices), graph.edges, start, end, rest, joint);
        rest := rest - {joint};
        var isJoint := TestJoint(graph.edges, start, end, joint);
        if isJoint {
          graph.vertices := graph.vertices[joint := AMBIGUOUS];
        }
      }
      assert forall m :: m in rest ==> m >= end;
      JoinedBounds(old(graph.vertices), graph.edges, start, end, rest);
    }

    lemma JoinedBounds(vertices: VertexMap, edges: EdgeMap, start: nat, end: nat, rest: set<int>)
      requires start in edges
      ensures rest == edges[start].Keys ==> Joined(vertices, edges, start, end, rest) == vertices
      ensures (forall m :: m in rest ==> m >= end) ==>
                Joined(vertices, edges, start, end, rest) == Joined(vertices, edges, start, end, {})
    {
    }

    lemma JoinedStep(vertices: VertexMap, edges: EdgeMap, start: nat, end: nat, rest: set<int>, joint: nat)
      requires start in edges && joint in edges[start] && joint in rest
      ensures Joined(vertices, edges, start, end, rest - {joint})
              == if Joint(edges, start, end, joint) then Joined(vertices, edges, start, end, rest)[joint := AMBIGUOUS]
                 else Joined(vertices, edges, start, end, rest)
    {
      hide Joint;
    }

    method TestJoint(edges: EdgeMap, start: nat, end: nat, joint: nat) returns (isJoint: bool)
      requires start in edges && joint in edges[start] && joint < end
      ensures isJoint <==> Joint(edges, start, end, joint)
    {
      if joint !in edges {
        return false;
      }
      isJoint := EndsAt(edges[joint], end);
    }

    method EndsAt(endVertices: EndVertexMap, end: nat) returns (found: bool)
      ensures found <==> end in endVertices
    {
      var rest: set<int> := endVertices.Keys;
      while |rest| > 0
        invariant rest <= endVertices.Keys
        invariant end in endVertices ==> end in rest
      {
        var x := Least(rest);
        if x < end {
          rest := rest - {x};
          continue;
        }
        return x == end;
      }
      found := false;
    }

    /** Prunes the edge from `i` to `j`, marking the joints it overlaps. */
    method PruneEdge(graph: SyllableGraph, i: nat, j: nat, good: set<nat>, lastType: SpellingType,
                     ghost d: Draft, ghost rest: set<int>)
      requires d.Valid() && i < d.farthest && i in d.edges && rest <= d.edges[i].Keys && IsLeast(j, rest)
      requires good == GoodAfter(d, i + 1) && lastType == d.Limit()
      requires graph.edges == EdgesAfter(d, i + 1)[i := EdgesMid(d, i, rest)]
      requires graph.vertices == VerticesMid(d, i, rest)
      modifies graph`vertices, graph`edges
      ensures graph.edges == EdgesAfter(d, i + 1)[i := EdgesMid(d, i, rest - {j})]
      ensures graph.vertices == VerticesMid(d, i, rest - {j})
    {
      hide EdgesAfter, GoodAfter, EdgesMid, VerticesMid, Joined, Within, BetterThanAbbreviated;
      EdgeFate(d, i, j, rest);
      var edgesFromHere: EndVertexMap := graph.edges[i];
      if j !in good {
        DropEdge(d, i, j, rest);
        edgesFromHere := edgesFromHere - {j};
        graph.edges := graph.edges[i := edgesFromHere];
        return;
      }
      var kept, edgeType := FilterSpellings(edgesFromHere[j], lastType);
      if kept == map[] {
        DropEdge(d, i, j, rest);
        edgesFromHere := edgesFromHere - {j};
        graph.edges := graph.edges[i := edgesFromHere];
      } else {
        KeepEdge(d, i, j, rest);
        edgesFromHere := edgesFromHere[j := kept];
        graph.edges := graph.edges[i := edgesFromHere];
        if edgeType < ABBREVIATION {
          MarkJoints(d, i, j, rest, graph.edges);
          CheckOverlappedSpellings(graph, i, j);
        } else {
          MarkNothing(d, i, j, rest);
        }
      }
    }

    /** Prunes the edges that start at `i`. */
    method PruneEdgesFrom(graph: SyllableGraph, i: nat, good: set<nat>, lastType: SpellingType, ghost d: Draft)
      requires d.Valid() && i < d.farthest && i in d.vertices
      requires graph.vertices == VerticesAfter(d, i + 1) && graph.edges == EdgesAfter(d, i + 1)
      requires good == GoodAfter(d, i + 1) && lastType == d.Limit()
      modifies graph`vertices, graph`edges
      ensures graph.vertices == VerticesMid(d, i, {})
      ensures graph.edges == EdgesAfter(d, i + 1)[i := d.KeptEdges(i)]
    {
      EdgesAt(d, i);
      hide VerticesAfter, EdgesAfter, GoodAfter, EdgesMid, VerticesMid;
      if i !in graph.edges {
        graph.edges := graph.edges[i := map[]];
      }
      var rest: set<int> := graph.edges[i].Keys;
      BeforeEdges(d, i, rest);
      assert graph.edges == EdgesAfter(d, i + 1)[i := EdgesMid(d, i, rest)];
      while |rest| > 0
        invariant rest <= if i in d.edges then d.edges[i].Keys else {}
        invariant graph.edges == EdgesAfter(d, i + 1)[i := EdgesMid(d, i, rest)]
        invariant graph.vertices == VerticesMid(d, i, rest)
      {
        var j: nat := Least(rest);
        PruneEdge(graph, i, j, good, lastType, d, rest);
        rest := rest - {j};
      }
      AfterEdges(d, i);
    }

    /** Removes stale vertices and edges, from the farthest vertex back to the start. */
    method RemoveStale(graph: SyllableGraph, farthest: nat)
      requires Draft(graph.vertices, graph.edges, farthest).Valid()
      modifies graph`vertices, graph`edges
      ensures graph.vertices == old(Draft(graph.vertices, graph.edges, farthest).PrunedVertices())
      ensures graph.edges == old(Draft(graph.vertices, graph.edges, farthest).PrunedEdges())
    {
      ghost var d := Draft(graph.vertices, graph.edges, farthest);
      var good: set<nat> := {farthest};
      hide VerticesAfter, EdgesAfter, GoodAfter, EdgesMid, VerticesMid, Draft.Good, Draft.KeptEdges,
           Draft.PrunedVertices, Draft.PrunedEdges;
      // the limit is never stricter than fuzzy
      var lastType := Worse(graph.vertices[farthest], FUZZY);
      BeforePruning(d);
      for i := farthest downto 0
        invariant graph.vertices == VerticesAfter(d, i) && graph.edges == EdgesAfter(d, i)
        invariant good == GoodAfter(d, i)
      {
        VertexAt(d, i);
        if i !in graph.vertices {
          SkipPosition(d, i);
          continue;
        }
        PruneEdgesFrom(graph, i, good, lastType, d);
        PrunePosition(d, i);
        if graph.vertices[i] > lastType || graph.edges[i] == map[] {
          graph.vertices := graph.vertices - {i};
          graph.edges := graph.edges - {i};
        } else {
          good := good + {i};
        }
      }
      AfterPruning(d);
    }

    // ----- completion -----

    /** The syllables a completion edge lists: those the remaining input begins to spell,
        normally or fuzzily. */
    function AddCompletions(known: SpellingMap, ds: seq<Descriptor>, endPos: nat): SpellingMap {
      if |ds| == 0 then known
      else
        var d := ds[|ds| - 1];
        var before := AddCompletions(known, ds[..|ds| - 1], endPos);
        if d.kind < ABBREVIATION && d.syllableId !in before
        then before[d.syllableId := Properties(COMPLETION, endPos, d.credibility * 0.5, d.tips)]
        else before
    }

    function Completions(prism: Prism, keys: seq<Match>, codeLength: nat, endPos: nat): SpellingMap {
      if |keys| == 0 then map[]
      else
        var m := keys[|keys| - 1];
        var before := Completions(prism, keys[..|keys| - 1], codeLength, endPos);
        if m.length < codeLength then before else AddCompletions(before, prism.QuerySpelling(m.value), endPos)
    }

    ghost function CompletionEdge(input: string, prism: Prism, farthest: nat): SpellingMap
      requires farthest < |input| && forall k :: k in prism.Hits(input[farthest..]) ==> k in prism.keys
    {
      Completions(prism, Reported(prism, Truncated(prism.Hits(input[farthest..]), EXPAND_SEARCH_LIMIT)),
                  |input| - farthest, |input|)
    }

    /** Adds the edge from the farthest vertex to the end of the input, if the rest of the
        input begins some syllable. */
    method Complete(input: string, prism: Prism, graph: SyllableGraph, farthest: nat) returns (reached: nat)
      requires prism.Valid() && farthest < |input|
      requires farthest in graph.edges ==> graph.edges[farthest] == map[]
      modifies graph`edges
      ensures forall k :: k in prism.Hits(input[farthest..]) ==> k in prism.keys
      ensures Completed(input, prism, old(graph.edges), farthest, reached, graph.edges)
    {
      reached := farthest;
      var keys := ExpandSearch(prism, input[farthest..], EXPAND_SEARCH_LIMIT);
      if |keys| > 0 {
        var spellings := SpellCompletions(prism, keys, |input| - farthest, |input|);
        if spellings == map[] {
          graph.edges := graph.edges[farthest := map[]];
        } else {
          var completion: EndVertexMap := map[|input| := spellings];
          graph.edges := graph.edges[farthest := completion];
          reached := |input|;
        }
      }
    }

    method SpellCompletions(prism: Prism, keys: seq<Match>, codeLength: nat, endPos: nat) returns (spellings: SpellingMap)
      ensures spellings == Completions(prism, keys, codeLength, endPos)
    {
      spellings := map[];
      for i := 0 to |keys|
        invariant spellings == Completions(prism, keys[..i], codeLength, endPos)
      {
        assert keys[..i + 1][..i] == keys[..i];
        if keys[i].length < codeLength {
          continue;
        }
        spellings := CollectCompletions(spellings, prism.QuerySpelling(keys[i].value), endPos);
      }
      assert keys[..|keys|] == keys;
    }

    method CollectCompletions(known: SpellingMap, ds: seq<Descriptor>, endPos: nat) returns (spellings: SpellingMap)
      ensures spellings == AddCompletions(known, ds, endPos)
    {
      spellings := known;
      for j := 0 to |ds|
        invariant spellings == AddCompletions(known, ds[..j], endPos)
      {
        assert ds[..j + 1][..j] == ds[..j];
        if ds[j].kind < ABBREVIATION && ds[j].syllableId !in spellings {
          spellings := spellings[ds[j].syllableId := Properties(COMPLETION, endPos, ds[j].credibility * 0.5, ds[j].tips)];
        }
      }
      assert ds[..|ds|] == ds;
    }

    // ----- transposition -----

    /** Lists the spellings of each syllable at each position, farthest end first. */
    method Transpose(graph: SyllableGraph)
      modifies graph`indices
      ensures Transposed(graph.edges, graph.indices)
    {
      graph.indices := map[];
      var starts: set<int> := graph.edges.Keys;
      while |starts| > 0
        invariant starts <= graph.edges.Keys
        invariant graph.indices.Keys == graph.edges.Keys - starts
        invariant forall p :: p in graph.indices ==> Indexes(graph.indices[p], graph.edges[p], graph.edges[p].Keys)
      {
        var start: nat := Least(starts);
        starts := starts - {start};
        var index := TransposeEdges(graph.edges[start]);
        graph.indices := graph.indices[start := index];
      }
    }

    method TransposeEdges(endVertices: EndVertexMap) returns (index: SpellingIndex)
      ensures Indexes(index, endVertices, endVertices.Keys)
    {
      index := map[];
      var ends: set<int> := endVertices.Keys;
      ghost var done: set<int> := {};
      while |ends| > 0
        invariant Above(endVertices, ends, done)
        invariant Indexes(index, endVertices, done)
      {
        hide *;
        var end: nat := Greatest(ends);
        ghost var before := index;
        index := AppendSpellings(index, endVertices[end]);
        GreatestIsNext(endVertices, ends, done, end);
        IndexesStep(endVertices, done, end, before, index);
        ends := ends - {end};
        done := done + {end};
      }
      assert done == endVertices.Keys;
    }

    method AppendSpellings(index0: SpellingIndex, spellings: SpellingMap) returns (index: SpellingIndex)
      ensures Appended(index0, spellings, {}, index)
    {
      index := index0;
      var rest: set<int> := spellings.Keys;
      while |rest| > 0
        invariant rest <= spellings.Keys
        invariant Appended(index0, spellings, rest, index)
      {
        var s := Least(rest);
        rest := rest - {s};
        index := index[s := (if s in index then index[s] else []) + [spellings[s]]];
      }
    }

    // ----- the whole -----

    method BuildPruned(input: string, prism: Prism, graph: SyllableGraph) returns (farthest: nat, ghost d: Draft)
      requires |input| > 0 && graph.vertices == map[] && graph.edges == map[]
      modifies graph`vertices, graph`edges
      ensures Built(input, prism, d) && d.Valid() && farthest == d.farthest <= |input|
      ensures graph.vertices == d.PrunedVertices() && graph.edges == d.PrunedEdges()
      ensures farthest in graph.edges ==> graph.edges[farthest] == map[]
    {
      hide *;
      farthest := VisitVertices(input, prism, graph);
      d := Draft(graph.vertices, graph.edges, farthest);
      DraftIsBuilt(input, prism, d);
      RemoveStale(graph, farthest);
      NothingFromFarthest(d);
    }

    /** Builds the graph of `input` and returns how far it reaches. `d` is the graph between
        the two passes. */
    method BuildSyllableGraph(input: string, prism: Prism, graph: SyllableGraph)
      returns (farthest: nat, ghost d: Draft)
      requires prism.Valid()
      requires graph.vertices == map[] && graph.edges == map[]
      modifies graph
      ensures input == "" ==> farthest == 0 && graph.vertices == map[] && graph.edges == map[]
                              && graph.indices == old(graph.indices) && graph.interpretedLength == old(graph.interpretedLength)
      ensures input != "" ==> Represents(input, prism, d, farthest, graph)
    {
      hide *;
      if input == "" {
        return 0, Draft(map[], map[], 0);
      }
      farthest, d := BuildPruned(input, prism, graph);
      if enableCompletion && farthest < |input| {
        farthest := Complete(input, prism, graph, farthest);
      }
      EdgesAreBuilt(input, prism, d, farthest, graph.edges);
      graph.inputLength := |input|;
      graph.interpretedLength := farthest;
      Transpose(graph);
      WholeIsRepresented(input, prism, d, farthest, graph);
    }

    /** The finished graph of a nonempty input. */
    ghost predicate Represents(input: string, prism: Prism, d: Draft, farthest: nat, graph: SyllableGraph)
      reads graph
    {
      && Built(input, prism, d) && graph.vertices == d.PrunedVertices()
      && EdgesBuilt(input, prism, d, farthest, graph.edges)
      && graph.inputLength == |input| && graph.interpretedLength == farthest
      && Transposed(graph.edges, graph.indices)
    }

    lemma WholeIsRepresented(input: string, prism: Prism, d: Draft, farthest: nat, graph: SyllableGraph)
      requires Built(input, prism, d) && d.Valid() && graph.vertices == d.PrunedVertices()
      requires EdgesBuilt(input, prism, d, farthest, graph.edges)
      requires graph.inputLength == |input| && graph.interpretedLength == farthest
      requires Transposed(graph.edges, graph.indices)
      ensures Represents(input, prism, d, farthest, graph)
    {
      hide Built, EdgesBuilt, Transposed, Draft.PrunedVertices;
    }

    lemma EdgesAreBuilt(input: string, prism: Prism, d: Draft, farthest: nat, edges: EdgeMap)
      requires d.Valid()
      requires if enableCompletion && d.farthest < |input|
               then (forall k :: k in prism.Hits(input[d.farthest..]) ==> k in prism.keys)
                    && Completed(input, prism, d.PrunedEdges(), d.farthest, farthest, edges)
               else farthest == d.farthest && edges == d.PrunedEdges()
      ensures EdgesBuilt(input, prism, d, farthest, edges)
    {
    }

    /** The pruned edges, with the completion edge where completion is on and applies. */
    ghost predicate EdgesBuilt(input: string, prism: Prism, d: Draft, farthest: nat, edges: EdgeMap)
      requires d.Valid()
    {
      if enableCompletion && d.farthest < |input|
      then (forall k :: k in prism.Hits(input[d.farthest..]) ==> k in prism.keys)
           && Completed(input, prism, d.PrunedEdges(), d.farthest, farthest, edges)
      else farthest == d.farthest && edges == d.PrunedEdges()
    }

    /** `d` is what the forward pass makes of `input`. */
    ghost predicate Built(input: string, prism: Prism, d: Draft) {
      d.Valid() && LatticeOf(input, prism).Explored(d.vertices, d.edges, d.farthest)
    }

    lemma DraftIsBuilt(input: string, prism: Prism, d: Draft)
      requires LatticeOf(input, prism).Explored(d.vertices, d.edges, d.farthest)
      ensures Built(input, prism, d) && d.Valid() && d.farthest <= |input|
    {
      DraftIsValid(LatticeOf(input, prism), d);
    }

    /** What completion makes of the pruned `edges`. */
    ghost predicate Completed(input: string, prism: Prism, edges: EdgeMap, farthest: nat, reached: nat, edges': EdgeMap)
      requires farthest < |input|
      requires forall k :: k in prism.Hits(input[farthest..]) ==> k in prism.keys
    {
      var completion := CompletionEdge(input, prism, farthest);
      if completion == map[]
      then reached == farthest && edges' == if prism.Hits(input[farthest..]) == [] then edges else edges[farthest := map[]]
      else reached == |input| && edges' == edges[farthest := map[|input| := completion]]
    }
  }

  const EXPAND_SEARCH_LIMIT := 512

  lemma DraftIsValid(lattice: Lattice, d: Draft)
    requires lattice.Forward() && lattice.Explored(d.vertices, d.edges, d.farthest)
    ensures d.Valid()
  {
    forall p, e | p in d.edges && e in d.edges[p]
      ensures p < e <= d.farthest
    {
      EdgeStaysInside(lattice, d, p, e);
    }
  }

  lemma EdgeStaysInside(lattice: Lattice, d: Draft, p: nat, e: nat)
    requires lattice.Forward() && lattice.Explored(d.vertices, d.edges, d.farthest)
    requires p in d.edges && e in d.edges[p]
    ensures p < e <= d.farthest
  {
    EdgesOfLinks(lattice.links[p]);
    var l :| l in lattice.links[p] && l.end == e && l.spellings == d.edges[p][e];
    var w: Way :| lattice.IsWay(w) && w.End() == p && w.Worst() == d.vertices[p];
    var x := Hop(w, l);
    assert lattice.IsWay(x) && x.End() == e;
  }

  lemma NothingFromFarthest(d: Draft)
    requires d.Valid()
    ensures d.farthest in d.PrunedEdges() ==> d.PrunedEdges()[d.farthest] == map[]
  {
  }

  // ----- what the index lists -----

  /** The spellings of syllable `s` on the edges to `ends`, farthest first. */
  ghost function ListDown(endVertices: EndVertexMap, ends: set<int>, s: int): seq<Properties>
    requires ends <= endVertices.Keys
    decreases |ends|
  {
    if |ends| == 0 then []
    else
      var e := Least(ends);
      ListDown(endVertices, ends - {e}, s) + (if s in endVertices[e] then [endVertices[e][s]] else [])
  }

  ghost predicate Transposed(edges: EdgeMap, indices: map<nat, SpellingIndex>) {
    indices.Keys == edges.Keys
    && forall p :: p in edges ==> Indexes(indices[p], edges[p], edges[p].Keys)
  }

  ghost predicate Indexes(index: SpellingIndex, endVertices: EndVertexMap, ends: set<int>)
    requires ends <= endVertices.Keys
  {
    && (forall s :: s in index <==> ListDown(endVertices, ends, s) != [])
    && (forall s :: s in index ==> index[s] == ListDown(endVertices, ends, s))
  }

  /** The spellings outside `rest` have been appended to the lists of their syllables. */
  ghost predicate Appended(index0: SpellingIndex, spellings: SpellingMap, rest: set<int>, index: SpellingIndex) {
    && (forall s :: s in index <==> s in index0 || (s in spellings && s !in rest))
    && (forall s :: s in index ==>
          index[s] == (if s in index0 then index0[s] else [])
                    + (if s in spellings && s !in rest then [spellings[s]] else []))
  }

  ghost predicate Above(endVertices: EndVertexMap, ends: set<int>, done: set<int>) {
    && done == endVertices.Keys - ends && ends <= endVertices.Keys && done <= endVertices.Keys
    && forall d, e :: d in done && e in ends ==> e < d
  }

  lemma GreatestIsNext(endVertices: EndVertexMap, ends: set<int>, done: set<int>, end: nat)
    requires Above(endVertices, ends, done) && IsGreatest(end, ends)
    ensures end in endVertices && end in ends && done <= endVertices.Keys && forall d :: d in done ==> end < d
    ensures Above(endVertices, ends - {end}, done + {end})
  {
  }

  lemma IndexesStep(endVertices: EndVertexMap, done: set<int>, end: nat, index0: SpellingIndex, index: SpellingIndex)
    requires end in endVertices && done <= endVertices.Keys && forall d :: d in done ==> end < d
    requires Indexes(index0, endVertices, done) && Appended(index0, endVertices[end], {}, index)
    ensures Indexes(index, endVertices, done + {end})
  {
    forall s
      ensures ListDown(endVertices, done + {end}, s)
              == ListDown(endVertices, done, s) + (if s in endVertices[end] then [endVertices[end][s]] else [])
    {
      ListDownStep(endVertices, done, end, s);
    }
    hide ListDown;
  }

  lemma ListDownStep(endVertices: EndVertexMap, done: set<int>, end: nat, s: int)
    requires end in endVertices && done <= endVertices.Keys && forall d :: d in done ==> end < d
    ensures ListDown(endVertices, done + {end}, s)
            == ListDown(endVertices, done, s) + (if s in endVertices[end] then [endVertices[end][s]] else [])
  {
    assert Least(done + {end}) == end;
    assert done + {end} - {end} == done;
  }

  predicate Joint(edges: EdgeMap, start: nat, end: nat, m: nat) {
    start in edges && m in edges[start] && m < end && m in edges && end in edges[m]
  }

  /** The joints outside `rest` are marked. */
  ghost function Joined(vertices: VertexMap, edges: EdgeMap, start: nat, end: nat, rest: set<int>): VertexMap {
    if start !in edges then vertices
    else vertices + (map m | m in edges[start] && m !in rest && Joint(edges, start, end, m) :: AMBIGUOUS)
  }

  // ----- the state of the backward pass when the positions from `n` on are done -----

  ghost function VerticesAfter(d: Draft, n: nat): VertexMap
    requires d.Valid()
  {
    map p | p in d.vertices && (p < n || d.Good(p)) :: if d.MarkedFrom(p, n) then AMBIGUOUS else d.vertices[p]
  }

  ghost function EdgesAfter(d: Draft, n: nat): EdgeMap
    requires d.Valid()
  {
    map p | p in d.edges && (p < n || d.Good(p)) :: if p < n then d.edges[p] else d.KeptEdges(p)
  }

  ghost function GoodAfter(d: Draft, n: nat): set<nat>
    requires d.Valid()
  {
    set p | p in d.vertices && n <= p && d.Good(p)
  }

  // ----- the state while the edges from `i` are pruned, those to `rest` still to come -----

  ghost function EdgesMid(d: Draft, i: nat, rest: set<int>): EndVertexMap
    requires d.Valid()
  {
    if i !in d.edges then map[]
    else map e | e in d.edges[i] && (e in rest || d.KeepsEdge(i, e)) ::
           if e in rest then d.edges[i][e] else d.Filtered(d.edges[i][e])
  }

  ghost predicate CoversOutside(d: Draft, i: nat, m: nat, rest: set<int>)
    requires d.Valid()
  {
    exists e: nat :: e !in rest && d.Covers(i, m, e)
  }

  ghost function VerticesMid(d: Draft, i: nat, rest: set<int>): VertexMap
    requires d.Valid()
  {
    map p | p in d.vertices && (p < i + 1 || d.Good(p)) ::
      if d.MarkedFrom(p, i + 1) || CoversOutside(d, i, p, rest) then AMBIGUOUS else d.vertices[p]
  }

  lemma BeforeEdges(d: Draft, i: nat, rest: set<int>)
    requires d.Valid() && i < d.farthest && i in d.vertices
    requires rest == if i in d.edges then d.edges[i].Keys else {}
    ensures EdgesMid(d, i, rest) == if i in d.edges then d.edges[i] else map[]
    ensures VerticesMid(d, i, rest) == VerticesAfter(d, i + 1)
  {
  }

  lemma EdgesAt(d: Draft, i: nat)
    requires d.Valid() && i in d.vertices
    ensures i in EdgesAfter(d, i + 1) <==> i in d.edges
    ensures i in d.edges ==> EdgesAfter(d, i + 1)[i] == d.edges[i]
  {
  }

  lemma EdgeFate(d: Draft, i: nat, j: nat, rest: set<int>)
    requires d.Valid() && i in d.edges && j in d.edges[i] && j in rest
    ensures j in EdgesMid(d, i, rest) && EdgesMid(d, i, rest)[j] == d.edges[i][j]
    ensures d.KeepsEdge(i, j) <==> j in GoodAfter(d, i + 1) && Within(d.edges[i][j], d.Limit()) != map[]
    ensures d.Filtered(d.edges[i][j]) == Within(d.edges[i][j], d.Limit())
  {
    if d.Admits(d.edges[i][j]) {
      var s :| s in d.edges[i][j] && d.edges[i][j][s].kind <= d.Limit();
      assert s in Within(d.edges[i][j], d.Limit());
    } else {
      assert forall s :: s !in Within(d.edges[i][j], d.Limit());
    }
  }

  lemma AfterEdges(d: Draft, i: nat)
    requires d.Valid() && i < d.farthest
    ensures EdgesMid(d, i, {}) == d.KeptEdges(i)
  {
  }

  lemma DropEdge(d: Draft, i: nat, j: nat, rest: set<int>)
    requires d.Valid() && i in d.edges && rest <= d.edges[i].Keys
    requires j in rest && !d.KeepsEdge(i, j)
    ensures EdgesMid(d, i, rest - {j}) == EdgesMid(d, i, rest) - {j}
    ensures VerticesMid(d, i, rest - {j}) == VerticesMid(d, i, rest)
  {
    forall m | CoversOutside(d, i, m, rest - {j})
      ensures CoversOutside(d, i, m, rest)
    {
      var e: nat :| e !in rest - {j} && d.Covers(i, m, e);
      assert e != j;
    }
  }

  lemma MarkNothing(d: Draft, i: nat, j: nat, rest: set<int>)
    requires d.Valid() && i in d.edges && j in d.edges[i]
    requires !BetterThanAbbreviated(d.Filtered(d.edges[i][j]))
    ensures VerticesMid(d, i, rest - {j}) == VerticesMid(d, i, rest)
  {
    forall m | CoversOutside(d, i, m, rest - {j})
      ensures CoversOutside(d, i, m, rest)
    {
      var e: nat :| e !in rest - {j} && d.Covers(i, m, e);
      assert e != j;
    }
  }

  /** The joints found in the graph at hand are the ones the definition asks for. */
  lemma JointIsCovers(d: Draft, i: nat, j: nat, rest: set<int>, edges: EdgeMap, m: nat)
    requires d.Valid() && i in d.edges && rest <= d.edges[i].Keys && i < d.farthest
    requires IsLeast(j, rest) && d.KeepsEdge(i, j) && BetterThanAbbreviated(d.Filtered(d.edges[i][j]))
    requires edges == EdgesAfter(d, i + 1)[i := EdgesMid(d, i, rest - {j})]
    ensures Joint(edges, i, j, m) <==> d.Covers(i, m, j)
  {
    if m < j && d.KeepsEdge(i, m) {
      assert i < m && m !in rest;
      assert m in edges <==> m in d.edges;
    }
  }

  lemma OneMoreEnd(d: Draft, i: nat, j: nat, rest: set<int>, m: nat)
    requires d.Valid() && j in rest
    ensures CoversOutside(d, i, m, rest - {j}) <==> CoversOutside(d, i, m, rest) || d.Covers(i, m, j)
  {
    hide Draft.Covers;
    if CoversOutside(d, i, m, rest - {j}) {
      var e: nat :| e !in rest - {j} && d.Covers(i, m, e);
      assert e == j || e !in rest;
    }
  }

  lemma MarkJoints(d: Draft, i: nat, j: nat, rest: set<int>, edges: EdgeMap)
    requires d.Valid() && i in d.edges && rest <= d.edges[i].Keys && i < d.farthest
    requires IsLeast(j, rest) && d.KeepsEdge(i, j) && BetterThanAbbreviated(d.Filtered(d.edges[i][j]))
    requires edges == EdgesAfter(d, i + 1)[i := EdgesMid(d, i, rest - {j})]
    ensures VerticesMid(d, i, rest - {j}) == Joined(VerticesMid(d, i, rest), edges, i, j, {})
  {
    forall m: nat
      ensures CoversOutside(d, i, m, rest - {j}) <==> CoversOutside(d, i, m, rest) || Joint(edges, i, j, m)
      ensures Joint(edges, i, j, m) ==> m in d.vertices && d.Good(m)
    {
      JointIsCovers(d, i, j, rest, edges, m);
      OneMoreEnd(d, i, j, rest, m);
    }
    hide Joint, CoversOutside, Draft.Good, EdgesAfter, EdgesMid, Draft.MarkedFrom;
  }

  lemma KeepEdge(d: Draft, i: nat, j: nat, rest: set<int>)
    requires d.Valid() && i in d.edges && rest <= d.edges[i].Keys
    requires IsLeast(j, rest) && d.KeepsEdge(i, j)
    ensures EdgesMid(d, i, rest - {j}) == EdgesMid(d, i, rest)[j := d.Filtered(d.edges[i][j])]
  {
  }

  lemma BeforePruning(d: Draft)
    requires d.Valid()
    ensures VerticesAfter(d, d.farthest) == d.vertices
    ensures EdgesAfter(d, d.farthest) == d.edges
    ensures GoodAfter(d, d.farthest) == {d.farthest}
  {
  }

  lemma AfterPruning(d: Draft)
    requires d.Valid()
    ensures VerticesAfter(d, 0) == d.PrunedVertices()
    ensures EdgesAfter(d, 0) == d.PrunedEdges()
  {
  }

  lemma VertexAt(d: Draft, i: nat)
    requires d.Valid()
    ensures i in VerticesAfter(d, i + 1) <==> i in d.vertices
  {
  }

  lemma SkipPosition(d: Draft, i: nat)
    requires d.Valid() && i < d.farthest && i !in d.vertices
    ensures VerticesAfter(d, i) == VerticesAfter(d, i + 1)
    ensures EdgesAfter(d, i) == EdgesAfter(d, i + 1)
    ensures GoodAfter(d, i) == GoodAfter(d, i + 1)
  {
    forall m | d.MarkedFrom(m, i)
      ensures d.MarkedFrom(m, i + 1)
    {
      var start: nat, e: nat :| i <= start < d.farthest && d.Covers(start, m, e);
      assert start != i;
    }
  }

  lemma GoodByEdges(d: Draft, i: nat)
    requires d.Valid() && i < d.farthest && i in d.vertices
    ensures d.Good(i) <==> d.vertices[i] <= d.Limit() && d.KeptEdges(i) != map[]
  {
    if d.KeptEdges(i) != map[] {
      assert d.KeptEdges(i).Keys != {};
      var e :| e in d.KeptEdges(i);
    }
    if d.Good(i) {
      var e :| e in d.edges[i] && d.Admits(d.edges[i][e]) && d.Good(e);
      assert e in d.KeptEdges(i);
    }
  }

  lemma PruneVertex(d: Draft, i: nat)
    requires d.Valid() && i < d.farthest && i in d.vertices
    ensures i in VerticesMid(d, i, {}) && VerticesMid(d, i, {})[i] == d.vertices[i]
    ensures VerticesAfter(d, i) == if d.Good(i) then VerticesMid(d, i, {}) else VerticesMid(d, i, {}) - {i}
  {
    hide Draft.Good, Draft.MarkedFrom, CoversOutside, Draft.Valid;
    NoMarkAtOrBelow(d, i);
    forall m: nat
      ensures d.MarkedFrom(m, i) <==> d.MarkedFrom(m, i + 1) || CoversOutside(d, i, m, {})
    {
      MarkedOneMore(d, i, m);
    }
  }

  lemma PruneEdges(d: Draft, i: nat)
    requires d.Valid() && i < d.farthest && i in d.vertices
    ensures EdgesAfter(d, i) == if d.Good(i) then EdgesAfter(d, i + 1)[i := d.KeptEdges(i)]
                                else EdgesAfter(d, i + 1)[i := d.KeptEdges(i)] - {i}
  {
    GoodByEdges(d, i);
    hide Draft.Good;
  }

  /** The step the outer loop takes at position `i` once its edges are pruned. */
  lemma PrunePosition(d: Draft, i: nat)
    requires d.Valid() && i < d.farthest && i in d.vertices
    ensures i in VerticesMid(d, i, {}) && VerticesMid(d, i, {})[i] == d.vertices[i]
    ensures VerticesAfter(d, i) == if d.Good(i) then VerticesMid(d, i, {}) else VerticesMid(d, i, {}) - {i}
    ensures EdgesAfter(d, i) == if d.Good(i) then EdgesAfter(d, i + 1)[i := d.KeptEdges(i)]
                                else EdgesAfter(d, i + 1)[i := d.KeptEdges(i)] - {i}
    ensures GoodAfter(d, i) == if d.Good(i) then GoodAfter(d, i + 1) + {i} else GoodAfter(d, i + 1)
    ensures d.Good(i) <==> d.vertices[i] <= d.Limit() && d.KeptEdges(i) != map[]
  {
    hide VerticesAfter, VerticesMid, EdgesAfter, Draft.KeptEdges;
    PruneVertex(d, i);
    PruneEdges(d, i);
    GoodByEdges(d, i);
    hide Draft.Good;
  }

  lemma NoMarkAtOrBelow(d: Draft, i: nat)
    requires d.Valid() && i < d.farthest
    ensures !d.MarkedFrom(i, i)
  {
  }

  lemma MarkedOneMore(d: Draft, i: nat, m: nat)
    requires d.Valid() && i < d.farthest
    ensures d.MarkedFrom(m, i) <==> d.MarkedFrom(m, i + 1) || CoversOutside(d, i, m, {})
  {
    if d.MarkedFrom(m, i) {
      var start: nat, e: nat :| i <= start < d.farthest && d.Covers(start, m, e);
      if start != i { assert d.MarkedFrom(m, i + 1); }
    }
  }
}
