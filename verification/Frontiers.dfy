/** The invariant of the forward pass: a priority queue of positions still to visit, each
    with the type of some way to it. */
module Frontiers {
  import opened Spellings
  import opened Lattices

  datatype Vertex = Vertex(pos: nat, kind: SpellingType)

  type Queue = multiset<Vertex>

  /** The order of the queue: by position, and the better type first. */
  predicate Before(u: Vertex, v: Vertex) {
    u.pos < v.pos || (u.pos == v.pos && u.kind <= v.kind)
  }

  ghost predicate IsTop(v: Vertex, queue: Queue) {
    v in queue && forall u :: u in queue ==> Before(v, u)
  }

  lemma {:induction false} TopExists(queue: Queue)
    requires |queue| > 0
    ensures exists v :: IsTop(v, queue)
  {
    assert (forall a :: a !in queue) ==> queue == multiset{};
    var a :| a in queue;
    var rest := queue - multiset{a};
    if |rest| == 0 {
      assert queue == multiset{a};
      assert IsTop(a, queue);
    } else {
      TopExists(rest);
      var b :| IsTop(b, rest);
      hide Before;
      assert forall u :: u in queue ==> u == a || u in rest;
      BetterIsTop(queue, a, b);
    }
  }

  lemma BetterIsTop(queue: Queue, a: Vertex, b: Vertex)
    requires a in queue && b in queue && forall u :: u in queue ==> u == a || Before(b, u)
    ensures IsTop(if Before(a, b) then a else b, queue)
  {
  }

  /** What one visit adds to the queue. */
  function Pushes(links: seq<Link>, kind: SpellingType): Queue {
    if |links| == 0 then multiset{}
    else
      var last := links[|links| - 1];
      Pushes(links[..|links| - 1], kind) + multiset{Vertex(last.end, Worse(last.kind, kind))}
  }

  lemma OneMoreLink(links: seq<Link>, link: Link, kind: SpellingType)
    ensures EdgesOf(links + [link]) == EdgesOf(links)[link.end := link.spellings]
    ensures Pushes(links + [link], kind) == Pushes(links, kind) + multiset{Vertex(link.end, Worse(link.kind, kind))}
  {
    assert (links + [link])[..|links|] == links;
  }

  lemma {:induction false} PushesContents(links: seq<Link>, kind: SpellingType)
    ensures forall l :: l in links ==> Vertex(l.end, Worse(l.kind, kind)) in Pushes(links, kind)
    ensures forall v :: v in Pushes(links, kind) ==> exists l :: l in links && v == Vertex(l.end, Worse(l.kind, kind))
  {
    if |links| > 0 {
      var init := links[..|links| - 1];
      var last := links[|links| - 1];
      assert links == init + [last];
      PushesContents(init, kind);
      forall v | v in Pushes(links, kind)
        ensures exists l :: l in links && v == Vertex(l.end, Worse(l.kind, kind))
      {
        if v == Vertex(last.end, Worse(last.kind, kind)) {
          assert last in links;
        } else {
          var l :| l in init && v == Vertex(l.end, Worse(l.kind, kind));
          assert l in links;
        }
      }
    }
  }

  ghost predicate Spelt(lattice: Lattice, p: nat, kind: SpellingType)
    requires |lattice.links| == lattice.length + 1
  {
    exists w: Way :: lattice.IsWay(w) && w.End() == p && w.Worst() == kind
  }

  /** Position `p` is known, or will be known, to be at least as good as `kind`. */
  ghost predicate Covered(vertices: VertexMap, queue: Queue, p: nat, kind: SpellingType) {
    || (p in vertices && vertices[p] <= kind)
    || (exists v :: v in queue && v.pos == p && v.kind <= kind)
  }

  ghost predicate Closed(lattice: Lattice, vertices: VertexMap, queue: Queue)
    requires |lattice.links| == lattice.length + 1
  {
    && Covered(vertices, queue, 0, NORMAL)
    && (forall p, l :: p in vertices && p <= lattice.length && l in lattice.links[p] ==>
          Covered(vertices, queue, l.end, Worse(l.kind, vertices[p])))
  }

  ghost predicate Ordered(vertices: VertexMap, queue: Queue) {
    && (forall v, p :: v in queue && p in vertices ==> p <= v.pos)
    && (forall v :: v in queue && v.pos in vertices ==> vertices[v.pos] <= v.kind)
  }

  ghost predicate Invariant(lattice: Lattice, vertices: VertexMap, queue: Queue)
    requires |lattice.links| == lattice.length + 1
  {
    && (forall v :: v in queue ==> v.pos <= lattice.length && Spelt(lattice, v.pos, v.kind))
    && (forall p :: p in vertices ==> p <= lattice.length && Spelt(lattice, p, vertices[p]))
    && Closed(lattice, vertices, queue)
    && Ordered(vertices, queue)
  }

  lemma Start(lattice: Lattice)
    requires |lattice.links| == lattice.length + 1
    ensures Invariant(lattice, map[], multiset{Vertex(0, NORMAL)})
  {
    assert lattice.IsWay(Origin) && Origin.End() == 0 && Origin.Worst() == NORMAL;
    assert Vertex(0, NORMAL) in multiset{Vertex(0, NORMAL)};
  }

  /** A vertex that is already recorded is discarded: it was recorded with a type at least
      as good. */
  lemma Discard(lattice: Lattice, vertices: VertexMap, queue: Queue, v: Vertex)
    requires lattice.Forward() && Invariant(lattice, vertices, queue)
    requires IsTop(v, queue) && v.pos in vertices
    ensures Invariant(lattice, vertices, queue - multiset{v})
  {
    var queue' := queue - multiset{v};
    forall p, kind | Covered(vertices, queue, p, kind)
      ensures Covered(vertices, queue', p, kind)
    {
      if !(p in vertices && vertices[p] <= kind) {
        var u :| u in queue && u.pos == p && u.kind <= kind;
        assert u != v;
        assert u in queue';
      }
    }
  }

  lemma CoveredAfterVisit(vertices: VertexMap, queue: Queue, v: Vertex, pushes: Queue, p: nat, kind: SpellingType)
    requires v.pos !in vertices && Covered(vertices, queue, p, kind)
    ensures Covered(vertices[v.pos := v.kind], queue - multiset{v} + pushes, p, kind)
  {
    if !(p in vertices && vertices[p] <= kind) {
      var u :| u in queue && u.pos == p && u.kind <= kind;
      if u != v { assert u in queue - multiset{v} + pushes; }
    }
  }

  lemma PushedIsSpelt(lattice: Lattice, v: Vertex, u: Vertex)
    requires lattice.Forward() && v.pos <= lattice.length && Spelt(lattice, v.pos, v.kind)
    requires u in Pushes(lattice.links[v.pos], v.kind)
    ensures v.pos < u.pos <= lattice.length && Spelt(lattice, u.pos, u.kind)
  {
    PushesContents(lattice.links[v.pos], v.kind);
    var l :| l in lattice.links[v.pos] && u == Vertex(l.end, Worse(l.kind, v.kind));
    var w: Way :| lattice.IsWay(w) && w.End() == v.pos && w.Worst() == v.kind;
    var x := Hop(w, l);
    assert lattice.IsWay(x) && x.End() == u.pos && x.Worst() == u.kind;
  }

  lemma ClosedAfterVisit(lattice: Lattice, vertices: VertexMap, queue: Queue, v: Vertex)
    requires |lattice.links| == lattice.length + 1 && Closed(lattice, vertices, queue)
    requires v.pos !in vertices && v.pos <= lattice.length
    ensures Closed(lattice, vertices[v.pos := v.kind], queue - multiset{v} + Pushes(lattice.links[v.pos], v.kind))
  {
    var links := lattice.links[v.pos];
    var pushes := Pushes(links, v.kind);
    var vertices' := vertices[v.pos := v.kind];
    var queue' := queue - multiset{v} + pushes;
    PushesContents(links, v.kind);
    CoveredAfterVisit(vertices, queue, v, pushes, 0, NORMAL);
    forall p, l | p in vertices' && p <= lattice.length && l in lattice.links[p]
      ensures Covered(vertices', queue', l.end, Worse(l.kind, vertices'[p]))
    {
      if p == v.pos {
        assert Vertex(l.end, Worse(l.kind, v.kind)) in queue';
      } else {
        CoveredAfterVisit(vertices, queue, v, pushes, l.end, Worse(l.kind, vertices[p]));
      }
    }
  }

  lemma QueueAfterVisit(lattice: Lattice, queue: Queue, v: Vertex, u: Vertex)
    requires lattice.Forward() && IsTop(v, queue)
    requires forall x :: x in queue ==> x.pos <= lattice.length && Spelt(lattice, x.pos, x.kind)
    requires u in queue - multiset{v} + Pushes(lattice.links[v.pos], v.kind)
    ensures u.pos <= lattice.length && Spelt(lattice, u.pos, u.kind) && Before(v, u)
  {
    hide Pushes, Spelt;
    if u !in queue {
      PushedIsSpelt(lattice, v, u);
    }
  }

  lemma OrderedAfterVisit(vertices: VertexMap, queue: Queue, v: Vertex, queue': Queue)
    requires Ordered(vertices, queue) && v in queue && v.pos !in vertices
    requires forall u :: u in queue' ==> Before(v, u)
    ensures Ordered(vertices[v.pos := v.kind], queue')
  {
  }

  /** Visiting the top of the queue records its position with its final type. */
  lemma Visit(lattice: Lattice, vertices: VertexMap, queue: Queue, v: Vertex)
    requires lattice.Forward() && Invariant(lattice, vertices, queue)
    requires IsTop(v, queue) && v.pos !in vertices
    ensures v.pos <= lattice.length
    ensures Invariant(lattice, vertices[v.pos := v.kind],
                      queue - multiset{v} + Pushes(lattice.links[v.pos], v.kind))
  {
    hide Closed, Pushes, Spelt, Ordered;
    ClosedAfterVisit(lattice, vertices, queue, v);
    var queue' := queue - multiset{v} + Pushes(lattice.links[v.pos], v.kind);
    forall u | u in queue'
      ensures u.pos <= lattice.length && Spelt(lattice, u.pos, u.kind) && Before(v, u)
    {
      QueueAfterVisit(lattice, queue, v, u);
    }
    OrderedAfterVisit(vertices, queue, v, queue');
  }

  lemma MinimaxWhenDone(lattice: Lattice, vertices: VertexMap)
    requires lattice.Forward() && Invariant(lattice, vertices, multiset{})
    ensures lattice.Minimax(vertices) && 0 in vertices
  {
    forall w: Way | lattice.IsWay(w)
      ensures w.End() in vertices && vertices[w.End()] <= w.Worst()
    {
      Finished(lattice, vertices, w);
    }
    Finished(lattice, vertices, Origin);
  }

  /** When the queue is empty every way has been accounted for. */
  lemma {:induction false} Finished(lattice: Lattice, vertices: VertexMap, w: Way)
    requires lattice.Forward() && Invariant(lattice, vertices, multiset{})
    requires lattice.IsWay(w)
    ensures w.End() in vertices && vertices[w.End()] <= w.Worst()
  {
    match w
    case Origin => assert Covered(vertices, multiset{}, 0, NORMAL);
    case Hop(v, l) =>
      Finished(lattice, vertices, v);
      assert Covered(vertices, multiset{}, l.end, Worse(l.kind, vertices[v.End()]));
  }
}
