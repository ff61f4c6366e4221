/** What pruning means: exactly the vertices and edges on a way to the farthest position
    whose worst link is within the limit survive. */
module Pruning {
  import opened Spellings
  import opened Lattices

  predicate Visits(w: Way, p: nat) {
    match w
    case Origin => p == 0
    case Hop(v, l) => p == l.end || Visits(v, p)
  }

  predicate Uses(w: Way, p: nat, e: nat) {
    match w
    case Origin => false
    case Hop(v, l) => (v.End() == p && l.end == e) || Uses(v, p, e)
  }

  /** No worse than the type of the farthest vertex, or than fuzzy. */
  ghost predicate WithinLimit(d: Draft, kind: SpellingType)
    requires d.farthest in d.vertices
  {
    kind <= d.vertices[d.farthest] || kind <= FUZZY
  }

  /** `w` leads to the farthest vertex and none of its links is worse than the limit. */
  ghost predicate Favoured(lattice: Lattice, d: Draft, w: Way)
    requires |lattice.links| == lattice.length + 1
    requires d.farthest in d.vertices
  {
    lattice.IsWay(w) && w.End() == d.farthest && WithinLimit(d, w.Worst())
  }

  ghost predicate FromForwardPass(lattice: Lattice, d: Draft) {
    && lattice.Forward()
    && lattice.Unambiguous()
    && lattice.Explored(d.vertices, d.edges, d.farthest)
    && d.Valid()
  }

  /** The edge a link leaves in the graph is the link itself. */
  lemma LinkLeavesEdge(lattice: Lattice, d: Draft, p: nat, l: Link)
    requires FromForwardPass(lattice, d)
    requires p <= lattice.length && p in d.vertices && l in lattice.links[p]
    ensures p in d.edges && l.end in d.edges[p] && d.edges[p][l.end] == l.spellings
    ensures l.kind <= d.Limit() <==> d.Admits(l.spellings)
  {
    LinkIsEdge(lattice.links[p], l);
    assert Attained(l);
  }

  /** Backwards along a way within the limit, survival is inherited. */
  lemma {:induction false} GoodAlong(lattice: Lattice, d: Draft, w: Way)
    requires FromForwardPass(lattice, d)
    requires lattice.IsWay(w) && w.Worst() <= d.Limit() && d.Good(w.End())
    ensures forall p :: Visits(w, p) ==> d.Good(p)
    ensures forall p, e :: Uses(w, p, e) ==> d.Good(p) && d.KeepsEdge(p, e)
  {
    match w
    case Origin =>
    case Hop(v, l) =>
      hide FromForwardPass, Draft.Good, Draft.KeepsEdge;
      StepBack(lattice, d, v, l);
      GoodAlong(lattice, d, v);
  }

  lemma StepBack(lattice: Lattice, d: Draft, v: Way, l: Link)
    requires FromForwardPass(lattice, d)
    requires lattice.IsWay(Hop(v, l)) && Hop(v, l).Worst() <= d.Limit() && d.Good(l.end)
    ensures v.Worst() <= d.Limit() && d.Good(v.End()) && d.KeepsEdge(v.End(), l.end)
  {
    LinkOfWay(lattice, d, v, l);
    WorstOn(v, l);
    hide FromForwardPass, Lattice.IsWay, Draft.Good, Draft.KeepsEdge;
    LinkLeavesEdge(lattice, d, v.End(), l);
    KeptByLink(d, v.End(), l);
    GoodByEdge(d, v.End(), l.end);
  }

  lemma WorstOn(v: Way, l: Link)
    ensures v.Worst() <= Hop(v, l).Worst() && l.kind <= Hop(v, l).Worst()
  {
  }

  lemma KeptByLink(d: Draft, p: nat, l: Link)
    requires d.Valid() && p in d.edges && l.end in d.edges[p] && d.Admits(d.edges[p][l.end]) && d.Good(l.end)
    ensures d.KeepsEdge(p, l.end)
  {
    hide Draft.Good, Draft.Admits;
  }

  /** A link of a way starts at a recorded vertex before the farthest one. */
  lemma LinkOfWay(lattice: Lattice, d: Draft, v: Way, l: Link)
    requires FromForwardPass(lattice, d) && lattice.IsWay(Hop(v, l))
    ensures v.End() in d.vertices && d.vertices[v.End()] <= v.Worst() && v.End() < d.farthest
    ensures v.End() <= lattice.length && l in lattice.links[v.End()]
  {
    hide EdgesOf;
    assert lattice.IsWay(v);
    assert l.end == Hop(v, l).End();
  }

  lemma GoodByEdge(d: Draft, p: nat, e: nat)
    requires d.Valid() && p < d.farthest && p in d.vertices && d.vertices[p] <= d.Limit() && d.KeepsEdge(p, e)
    ensures d.Good(p)
  {
    hide Draft.Admits;
  }

  predicate StartsWith(x: Way, w: Way) {
    x == w || (x.Hop? && StartsWith(x.way, w))
  }

  lemma StartsWithUses(x: Way, w: Way)
    requires StartsWith(x, w)
    ensures forall p :: Visits(w, p) ==> Visits(x, p)
    ensures forall p, e :: Uses(w, p, e) ==> Uses(x, p, e)
  {
  }

  lemma StartsWithHop(x: Way, w: Way, l: Link)
    requires StartsWith(x, Hop(w, l))
    ensures StartsWith(x, w)
  {
  }

  /** A surviving vertex with a good way to it has a good way through it. */
  lemma {:induction false} Extend(lattice: Lattice, d: Draft, w: Way) returns (x: Way)
    requires FromForwardPass(lattice, d)
    requires lattice.IsWay(w) && w.Worst() <= d.Limit() && d.Good(w.End())
    ensures Favoured(lattice, d, x) && StartsWith(x, w)
    decreases d.farthest - w.End()
  {
    hide FromForwardPass;
    if w.End() == d.farthest {
      x := w;
    } else {
      var l := NextLink(lattice, d, w.End());
      x := Extend(lattice, d, Hop(w, l));
      StartsWithHop(x, w, l);
    }
  }

  lemma BestWay(lattice: Lattice, d: Draft, p: nat) returns (w: Way)
    requires FromForwardPass(lattice, d)
    requires d.Good(p)
    ensures |lattice.links| == lattice.length + 1 && p <= lattice.length
    ensures lattice.IsWay(w) && w.End() == p && w.Worst() <= d.Limit()
  {
    w :| lattice.IsWay(w) && w.End() == p && w.Worst() == d.vertices[p];
  }

  lemma NextLink(lattice: Lattice, d: Draft, p: nat) returns (l: Link)
    requires FromForwardPass(lattice, d)
    requires d.Good(p) && p != d.farthest
    ensures p <= lattice.length && l in lattice.links[p] && l.kind <= d.Limit() && d.Good(l.end) && p < l.end <= d.farthest
  {
    var e :| e in d.edges[p] && d.Admits(d.edges[p][e]) && d.Good(e);
    l := EdgeIsLink(lattice, d, p, e);
  }

  lemma EdgeIsLink(lattice: Lattice, d: Draft, p: nat, e: nat) returns (l: Link)
    requires FromForwardPass(lattice, d)
    requires p in d.edges && e in d.edges[p] && d.Admits(d.edges[p][e])
    ensures p <= lattice.length && l in lattice.links[p] && l.end == e && l.spellings == d.edges[p][e] && l.kind <= d.Limit()
  {
    EdgesOfLinks(lattice.links[p]);
    l :| l in lattice.links[p] && l.end == e && l.spellings == d.edges[p][e];
    LinkLeavesEdge(lattice, d, p, l);
  }

  /** Main result on vertices. */
  lemma SurvivingVertices(lattice: Lattice, d: Draft, p: nat)
    requires FromForwardPass(lattice, d)
    ensures p in d.PrunedVertices() <==> exists w: Way :: Favoured(lattice, d, w) && Visits(w, p)
  {
    if p in d.PrunedVertices() {
      var w := FavouredTo(lattice, d, p);
    }
    if w: Way :| Favoured(lattice, d, w) && Visits(w, p) {
      FavouredIsGood(lattice, d, w, p);
    }
  }

  lemma FavouredTo(lattice: Lattice, d: Draft, p: nat) returns (x: Way)
    requires FromForwardPass(lattice, d) && d.Good(p)
    ensures Favoured(lattice, d, x) && Visits(x, p)
  {
    hide FromForwardPass, Draft.Good;
    var w := BestWay(lattice, d, p);
    VisitsEnd(w);
    x := Extend(lattice, d, w);
    StartsWithUses(x, w);
  }

  lemma FavouredAlong(lattice: Lattice, d: Draft, w: Way)
    requires FromForwardPass(lattice, d) && Favoured(lattice, d, w)
    ensures forall p :: Visits(w, p) ==> d.Good(p)
    ensures forall p, e :: Uses(w, p, e) ==> d.Good(p) && d.KeepsEdge(p, e)
  {
    FavouredIsWithin(lattice, d, w);
    hide *;
    GoodAlong(lattice, d, w);
  }

  lemma FavouredIsWithin(lattice: Lattice, d: Draft, w: Way)
    requires FromForwardPass(lattice, d) && Favoured(lattice, d, w)
    ensures lattice.IsWay(w) && w.Worst() <= d.Limit() && d.Good(w.End())
  {
    hide Lattice.Explored, Lattice.Unambiguous, Lattice.IsWay, Lattice.Forward;
    FarthestIsGood(d);
  }

  lemma FavouredIsGood(lattice: Lattice, d: Draft, w: Way, p: nat)
    requires FromForwardPass(lattice, d) && Favoured(lattice, d, w) && Visits(w, p)
    ensures d.Good(p) && p in d.vertices
  {
    hide Draft.Good, Draft.KeepsEdge, Visits, Uses;
    FavouredAlong(lattice, d, w);
    GoodIsVertex(d, p);
  }

  lemma FarthestIsGood(d: Draft)
    requires d.Valid()
    ensures d.Good(d.farthest)
  {
  }

  lemma GoodIsVertex(d: Draft, p: nat)
    requires d.Valid() && d.Good(p)
    ensures p in d.vertices
  {
  }

  lemma VisitsEnd(w: Way)
    ensures Visits(w, w.End())
  {
  }

  /** Main result on edges: those used by a good way survive, with exactly the syllables
      within the limit. */
  lemma SurvivingEdges(lattice: Lattice, d: Draft, p: nat, e: nat)
    requires FromForwardPass(lattice, d)
    ensures HasEdge(d.PrunedEdges(), p, e) <==> exists w: Way :: Favoured(lattice, d, w) && Uses(w, p, e)
  {
    if HasEdge(d.PrunedEdges(), p, e) {
      var w := FavouredThrough(lattice, d, p, e);
    }
    if w: Way :| Favoured(lattice, d, w) && Uses(w, p, e) {
      FavouredAlong(lattice, d, w);
      assert d.KeepsEdge(p, e);
    }
  }

  predicate HasEdge(edges: EdgeMap, p: nat, e: nat) {
    p in edges && e in edges[p]
  }

  lemma FavouredThrough(lattice: Lattice, d: Draft, p: nat, e: nat) returns (x: Way)
    requires FromForwardPass(lattice, d)
    requires d.KeepsEdge(p, e) && d.Good(p)
    ensures Favoured(lattice, d, x) && Uses(x, p, e)
  {
    hide FromForwardPass;
    var w := BestWay(lattice, d, p);
    var l := EdgeIsLink(lattice, d, p, e);
    var hop := Hop(w, l);
    x := Extend(lattice, d, hop);
    StartsWithUses(x, hop);
    assert Uses(hop, p, e);
  }

  // ----- the graph that is left is trimmed -----

  /** A route through the edges of a graph. */
  datatype Route = Here(at: nat) | Along(route: Route, next: nat)
  {
    function First(): nat { match this case Here(p) => p case Along(r, _) => r.First() }
    function Last(): nat { match this case Here(p) => p case Along(_, e) => e }
  }

  predicate IsRoute(edges: EdgeMap, r: Route) {
    match r
    case Here(_) => true
    case Along(q, e) => IsRoute(edges, q) && q.Last() in edges && e in edges[q.Last()]
  }

  predicate Passes(r: Route, p: nat) {
    match r
    case Here(at) => p == at
    case Along(q, e) => p == e || Passes(q, p)
  }

  function RouteOf(w: Way): Route {
    match w
    case Origin => Here(0)
    case Hop(v, l) => Along(RouteOf(v), l.end)
  }

  lemma {:induction false} WayIsRoute(edges: EdgeMap, w: Way)
    requires forall p, e :: Uses(w, p, e) ==> p in edges && e in edges[p]
    ensures IsRoute(edges, RouteOf(w))
    ensures RouteOf(w).First() == 0 && RouteOf(w).Last() == w.End()
    ensures forall p :: Visits(w, p) <==> Passes(RouteOf(w), p)
  {
    match w
    case Origin =>
    case Hop(v, l) =>
      assert Uses(w, v.End(), l.end);
      assert forall p, e :: Uses(v, p, e) ==> Uses(w, p, e);
      WayIsRoute(edges, v);
  }

  /** A complete route through the pruned graph. */
  ghost predicate Spans(d: Draft, r: Route)
    requires d.Valid()
  {
    IsRoute(d.PrunedEdges(), r) && r.First() == 0 && r.Last() == d.farthest
  }

  lemma KeptSpans(d: Draft, w: Way)
    requires d.Valid() && w.End() == d.farthest && forall p, e :: Uses(w, p, e) ==> d.Good(p) && d.KeepsEdge(p, e)
    ensures Spans(d, RouteOf(w))
    ensures forall p :: Visits(w, p) <==> Passes(RouteOf(w), p)
  {
    hide Draft.Good;
    WayIsRoute(d.PrunedEdges(), w);
  }

  lemma FavouredSpans(lattice: Lattice, d: Draft, w: Way)
    requires FromForwardPass(lattice, d) && Favoured(lattice, d, w)
    ensures Spans(d, RouteOf(w))
    ensures forall p :: Visits(w, p) <==> Passes(RouteOf(w), p)
  {
    hide Draft.Good, Draft.KeepsEdge, Visits, Uses, Spans, RouteOf;
    FavouredAlong(lattice, d, w);
    KeptSpans(d, w);
  }

  lemma SpannedThrough(lattice: Lattice, d: Draft, p: nat) returns (r: Route)
    requires FromForwardPass(lattice, d)
    requires p in d.PrunedVertices()
    ensures Spans(d, r) && Passes(r, p)
  {
    hide Passes;
    SurvivingVertices(lattice, d, p);
    var x: Way :| Favoured(lattice, d, x) && Visits(x, p);
    FavouredSpans(lattice, d, x);
    r := RouteOf(x);
  }

  lemma EndsSurvive(lattice: Lattice, d: Draft)
    requires FromForwardPass(lattice, d)
    ensures 0 in d.PrunedVertices() && d.farthest in d.PrunedVertices()
  {
    var w := BestWay(lattice, d, d.farthest);
    VisitsEnd(w);
    VisitsOrigin(w);
    assert Favoured(lattice, d, w);
    SurvivingVertices(lattice, d, 0);
    SurvivingVertices(lattice, d, d.farthest);
  }

  /** Vertex 0 and the farthest vertex survive, and every surviving vertex lies on a route
      between them made of surviving edges only. */
  lemma Trimmed(lattice: Lattice, d: Draft)
    requires FromForwardPass(lattice, d)
    ensures 0 in d.PrunedVertices() && d.farthest in d.PrunedVertices()
    ensures forall p :: p in d.PrunedVertices() ==> exists r :: Spans(d, r) && Passes(r, p)
  {
    EndsSurvive(lattice, d);
    forall p | p in d.PrunedVertices()
      ensures exists r :: Spans(d, r) && Passes(r, p)
    {
      hide FromForwardPass, Spans, Passes;
      var r := SpannedThrough(lattice, d, p);
    }
  }

  /** Both ends of a surviving edge survive, and the edge keeps exactly the syllables
      within the limit, at least one of them. */
  lemma SurvivingEdge(lattice: Lattice, d: Draft, p: nat, e: nat)
    requires FromForwardPass(lattice, d)
    requires HasEdge(d.PrunedEdges(), p, e)
    ensures p in d.PrunedVertices() && e in d.PrunedVertices()
    ensures d.PrunedEdges()[p][e] != map[]
    ensures forall s :: s in d.PrunedEdges()[p][e] <==> s in d.edges[p][e] && WithinLimit(d, d.edges[p][e][s].kind)
    ensures forall s :: s in d.PrunedEdges()[p][e] ==> d.PrunedEdges()[p][e][s] == d.edges[p][e][s]
  {
    var x := FavouredThrough(lattice, d, p, e);
    UsesVisits(x, p, e);
    SurvivingVertices(lattice, d, e);
    var s :| s in d.edges[p][e] && d.edges[p][e][s].kind <= d.Limit();
    assert s in d.PrunedEdges()[p][e];
  }

  lemma VisitsOrigin(w: Way)
    ensures Visits(w, 0)
  {
  }

  lemma UsesVisits(w: Way, p: nat, e: nat)
    requires Uses(w, p, e)
    ensures Visits(w, p) && Visits(w, e)
  {
    match w
    case Origin =>
    case Hop(v, l) =>
      if v.End() == p && l.end == e { VisitsEnd(v); } else { UsesVisits(v, p, e); }
  }
}
