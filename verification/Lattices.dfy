/** The search space of syllabification and what the two passes over it mean.

    A lattice holds, for each input position, the links that spell one more syllable from
    there. A way is a chain of links from position 0. The forward pass grades every
    position by its best way; the backward pass keeps the part of the lattice that lies on
    good ways to the farthest position. */
module Lattices {
  import opened Spellings

  type SpellingMap = map<int, Properties>
  type EndVertexMap = map<nat, SpellingMap>
  type VertexMap = map<nat, SpellingType>
  type EdgeMap = map<nat, EndVertexMap>

  /** One match: where it ends, what it may stand for, and the best type among those. */
  datatype Link = Link(end: nat, spellings: SpellingMap, kind: SpellingType)

  datatype Way = Origin | Hop(way: Way, link: Link)
  {
    function End(): nat {
      match this
      case Origin => 0
      case Hop(_, l) => l.end
    }

    /** The type of the worst link on the way. */
    function Worst(): SpellingType {
      match this
      case Origin => NORMAL
      case Hop(w, l) => Worse(l.kind, w.Worst())
    }
  }

  /** The edges recorded for one position: a later link overwrites an earlier one that
      ends at the same position. */
  function EdgesOf(links: seq<Link>): EndVertexMap {
    if |links| == 0 then map[]
    else
      var last := links[|links| - 1];
      EdgesOf(links[..|links| - 1])[last.end := last.spellings]
  }

  datatype Lattice = Lattice(length: nat, links: seq<seq<Link>>)
  {
    /** Every link moves on, and stays within the input. */
    ghost predicate Forward() {
      && |links| == length + 1
      && forall p, l :: 0 <= p <= length && l in links[p] ==> p < l.end <= length
    }

    ghost predicate IsWay(w: Way)
      requires |links| == length + 1
    {
      match w
      case Origin => true
      case Hop(v, l) => IsWay(v) && v.End() <= length && l in links[v.End()]
    }

    /** `vertices` holds exactly the positions some way reaches, each with the type of its
        best way, where a way is as good as its worst link. */
    ghost predicate Minimax(vertices: VertexMap)
      requires |links| == length + 1
    {
      && (forall p :: p in vertices ==> exists w: Way :: IsWay(w) && w.End() == p && w.Worst() == vertices[p])
      && (forall w: Way :: IsWay(w) ==> w.End() in vertices && vertices[w.End()] <= w.Worst())
    }

    /** What the forward pass leaves in the graph. */
    ghost predicate Explored(vertices: VertexMap, edges: EdgeMap, farthest: nat)
      requires |links| == length + 1
    {
      && Minimax(vertices)
      && farthest in vertices
      && (forall p :: p in vertices ==> p <= farthest <= length)
      && edges.Keys <= vertices.Keys
      && (forall p :: p in edges ==> p <= length && edges[p] == EdgesOf(links[p]))
      && (forall p :: p in vertices && p <= length && |links[p]| > 0 ==> p in edges)
    }

    /** No link hides another, and the type of a link is the best type of a syllable it
        lists. */
    ghost predicate Unambiguous()
      requires |links| == length + 1
    {
      && (forall p, k, l :: 0 <= p <= length && k in links[p] && l in links[p] && k.end == l.end ==> k == l)
      && (forall p, l :: 0 <= p <= length && l in links[p] ==> Attained(l))
    }
  }

  ghost predicate Attained(l: Link) {
    && (exists s :: s in l.spellings && l.spellings[s].kind == l.kind)
    && (forall s :: s in l.spellings ==> l.kind <= l.spellings[s].kind)
  }

  lemma {:induction false} LinkIsEdge(links: seq<Link>, l: Link)
    requires l in links
    requires forall k :: k in links && k.end == l.end ==> k == l
    ensures l.end in EdgesOf(links) && EdgesOf(links)[l.end] == l.spellings
  {
    var init := links[..|links| - 1];
    var last := links[|links| - 1];
    assert links == init + [last];
    if last != l {
      LinkIsEdge(init, l);
    }
  }

  lemma {:induction false} EdgesOfLinks(links: seq<Link>)
    ensures forall l :: l in links ==> l.end in EdgesOf(links)
    ensures forall e :: e in EdgesOf(links) ==> exists l :: l in links && l.end == e && l.spellings == EdgesOf(links)[e]
  {
    if |links| > 0 {
      var init := links[..|links| - 1];
      var last := links[|links| - 1];
      EdgesOfLinks(init);
      assert links == init + [last];
      forall e | e in EdgesOf(links)
        ensures exists l :: l in links && l.end == e && l.spellings == EdgesOf(links)[e]
      {
        if e == last.end {
          assert last in links;
        } else {
          assert e in EdgesOf(init);
          var l :| l in init && l.end == e && l.spellings == EdgesOf(init)[e];
          assert l in links;
        }
      }
    }
  }

  // ----- the backward pass -----

  /** The syllables of an edge whose type is at most `limit`. */
  function Within(m: SpellingMap, limit: SpellingType): SpellingMap {
    map s | s in m && m[s].kind <= limit :: m[s]
  }

  ghost predicate BetterThanAbbreviated(m: SpellingMap) {
    exists s :: s in m && m[s].kind < ABBREVIATION
  }

  /** The graph between the two passes. */
  datatype Draft = Draft(vertices: VertexMap, edges: EdgeMap, farthest: nat)
  {
    ghost predicate Valid() {
      && farthest in vertices
      && (forall p :: p in vertices ==> p <= farthest)
      && edges.Keys <= vertices.Keys
      && (forall p, e :: p in edges && e in edges[p] ==> p < e <= farthest)
    }

    /** The worst type that stays: that of the farthest vertex, and at least fuzzy. */
    function Limit(): SpellingType
      requires farthest in vertices
    {
      Worse(vertices[farthest], FUZZY)
    }

    function Filtered(m: SpellingMap): SpellingMap
      requires farthest in vertices
    {
      Within(m, Limit())
    }

    /** Some syllable of the edge is within the limit. */
    ghost predicate Admits(m: SpellingMap)
      requires farthest in vertices
    {
      exists s :: s in m && m[s].kind <= Limit()
    }

    /** Vertex `p` survives: it leads to the farthest vertex by links and vertices within
        the limit. */
    ghost predicate Good(p: nat)
      requires Valid()
      decreases farthest - p
    {
      || p == farthest
      || (&& p < farthest && p in vertices && vertices[p] <= Limit()
          && p in edges
          && exists e :: e in edges[p] && Admits(edges[p][e]) && Good(e))
    }

    ghost predicate KeepsEdge(p: nat, e: nat)
      requires Valid()
    {
      p in edges && e in edges[p] && Admits(edges[p][e]) && Good(e)
    }

    ghost function KeptEdges(p: nat): EndVertexMap
      requires Valid()
    {
      if p in edges
      then map e | e in edges[p] && KeepsEdge(p, e) :: Filtered(edges[p][e])
      else map[]
    }

    /** `m` joins two edges that together span the edge from `start` to `e`, which is
        spelled better than abbreviated. */
    ghost predicate Covers(start: nat, m: nat, e: nat)
      requires Valid()
    {
      && m < e
      && KeepsEdge(start, m) && KeepsEdge(m, e)
      && KeepsEdge(start, e) && BetterThanAbbreviated(Filtered(edges[start][e]))
    }

    /** `m` is an ambiguous syllable joint. The covered edge may start at a vertex that is
        itself dropped. */
    ghost predicate Marked(m: nat)
      requires Valid()
    {
      MarkedFrom(m, 0)
    }

    ghost predicate MarkedFrom(m: nat, n: nat)
      requires Valid()
    {
      exists start: nat, e: nat :: n <= start < farthest && Covers(start, m, e)
    }

    ghost function PrunedVertices(): VertexMap
      requires Valid()
    {
      map p | p in vertices && Good(p) :: if Marked(p) then AMBIGUOUS else vertices[p]
    }

    ghost function PrunedEdges(): EdgeMap
      requires Valid()
    {
      map p | p in edges && Good(p) :: KeptEdges(p)
    }
  }
}
