/** What a table query finds, path by path: one slot for every path of the graph that spells
    the key of a slot with entries, each path once. */
module TablePaths {
  import opened Spellings
  import opened GraphEdges
  import opened Vocabularies
  import opened TableWalks

  // ----- trails -----

  /** The spelling an edge reads; what is no edge reads nothing. */
  ghost function Edge(g: Graph, pos: nat, c: Choice): Properties {
    if pos in g.indices then EdgeAt(g.indices[pos], c) else DEFAULT_PROPERTIES
  }

  ghost predicate IsStepAt(g: Graph, pos: nat, c: Choice) {
    pos in g.indices && IsEdge(g.indices[pos], c)
  }

  /** Where a trail leads. */
  ghost function StopOf(g: Graph, start: nat, t: Trail): (stop: Stop)
    ensures |stop.code| == |t|
  {
    if |t| == 0 then Stop(start, [], ROOT_CRS)
    else
      var before, c := StopOf(g, start, t[..|t| - 1]), t[|t| - 1];
      before.Go(c.id, Edge(g, before.pos, c))
  }

  /** A path of the graph; it goes on only from positions inside the interpreted input. */
  ghost predicate IsPath(g: Graph, start: nat, t: Trail) {
    |t| == 0 || (
      var before := StopOf(g, start, t[..|t| - 1]);
      IsPath(g, start, t[..|t| - 1]) && before.pos < g.length && IsStepAt(g, before.pos, t[|t| - 1]))
  }

  /** The last step of a trail is an edge by which the walk goes on. */
  ghost predicate GoesBy(v: Vocabulary, g: Graph, before: Stop, c: Choice) {
    IsStepAt(g, before.pos, c) && MayGo(v, g, before.code, c.id, Edge(g, before.pos, c).endPos)
  }

  /** The trails of the walk: the table has something below every step. */
  ghost predicate Goes(v: Vocabulary, g: Graph, start: nat, t: Trail) {
    |t| == 0 || (Goes(v, g, start, t[..|t| - 1]) && GoesBy(v, g, StopOf(g, start, t[..|t| - 1]), t[|t| - 1]))
  }

  /** `t`, extended by those of the edges `cs` that the walk goes on by. */
  ghost function Extended(v: Vocabulary, g: Graph, stop: Stop, t: Trail, cs: seq<Choice>): seq<Trail> {
    if |cs| == 0 then []
    else
      var c := cs[|cs| - 1];
      Extended(v, g, stop, t, cs[..|cs| - 1]) + (if GoesBy(v, g, stop, c) then [t + [c]] else [])
  }

  ghost function Onward(v: Vocabulary, g: Graph, start: nat, t: Trail): seq<Trail> {
    var stop := StopOf(g, start, t);
    Extended(v, g, stop, t, EdgesFrom(g, stop.pos))
  }

  ghost function OnwardAll(v: Vocabulary, g: Graph, start: nat, ts: seq<Trail>): seq<Trail> {
    if |ts| == 0 then [] else OnwardAll(v, g, start, ts[..|ts| - 1]) + Onward(v, g, start, ts[|ts| - 1])
  }

  ghost function TrailsAt(v: Vocabulary, g: Graph, start: nat, n: nat): seq<Trail> {
    if n == 0 then [[]] else OnwardAll(v, g, start, TrailsAt(v, g, start, n - 1))
  }

  ghost function StopsOf(g: Graph, start: nat, ts: seq<Trail>): seq<Stop> {
    seq(|ts|, i requires 0 <= i < |ts| => StopOf(g, start, ts[i]))
  }

  lemma StopsOfConcat(g: Graph, start: nat, a: seq<Trail>, b: seq<Trail>)
    ensures StopsOf(g, start, a + b) == StopsOf(g, start, a) + StopsOf(g, start, b)
  {
    hide StopOf;
  }

  // ----- the stops of the walk are the ends of the trails -----

  lemma {:induction false} ExtendedStops(v: Vocabulary, g: Graph, start: nat, t: Trail, cs: seq<Choice>)
    requires StopOf(g, start, t).pos in g.indices
    requires forall c :: c in cs ==> IsStepAt(g, StopOf(g, start, t).pos, c)
    ensures var stop := StopOf(g, start, t);
            StopsOf(g, start, Extended(v, g, stop, t, cs)) == Followed(v, g, stop, g.indices[stop.pos], cs)
  {
    hide StopsOf, MayGo;
    var stop := StopOf(g, start, t);
    if |cs| == 0 {
      NoStops(g, start);
    } else {
      var init, c := cs[..|cs| - 1], cs[|cs| - 1];
      ExtendedStops(v, g, start, t, init);
      var more := if GoesBy(v, g, stop, c) then [t + [c]] else [];
      StopsOfConcat(g, start, Extended(v, g, stop, t, init), more);
      OneExtended(v, g, start, t, c);
    }
  }

  lemma NoStops(g: Graph, start: nat)
    ensures StopsOf(g, start, []) == []
  {
  }

  lemma OneExtended(v: Vocabulary, g: Graph, start: nat, t: Trail, c: Choice)
    requires var stop := StopOf(g, start, t); IsStepAt(g, stop.pos, c)
    ensures var stop := StopOf(g, start, t);
            StopsOf(g, start, if GoesBy(v, g, stop, c) then [t + [c]] else []) == KidBy(v, g, stop, c.id, Edge(g, stop.pos, c))
  {
    hide MayGo;
    assert (t + [c])[..|t|] == t;
  }

  lemma {:induction false} NoneExtended(v: Vocabulary, g: Graph, stop: Stop, t: Trail, cs: seq<Choice>)
    requires |stop.code| == INDEX_CODE_MAX_LENGTH || stop.pos !in g.indices
    ensures Extended(v, g, stop, t, cs) == []
  {
    if |cs| > 0 { NoneExtended(v, g, stop, t, cs[..|cs| - 1]); }
  }

  lemma OnwardStops(v: Vocabulary, g: Graph, start: nat, t: Trail)
    ensures StopsOf(g, start, Onward(v, g, start, t)) == KidsOf(v, g, StopOf(g, start, t))
  {
    hide StopsOf, Extended, Followed;
    var stop := StopOf(g, start, t);
    if stop.pos !in g.indices || |stop.code| == INDEX_CODE_MAX_LENGTH {
      NoneExtended(v, g, stop, t, EdgesFrom(g, stop.pos));
      NoStops(g, start);
    } else {
      EdgesAre(g.indices[stop.pos], g.indices[stop.pos].Keys);
      ExtendedStops(v, g, start, t, EdgesFrom(g, stop.pos));
    }
  }

  lemma {:induction false} OnwardAllStops(v: Vocabulary, g: Graph, start: nat, ts: seq<Trail>)
    ensures StopsOf(g, start, OnwardAll(v, g, start, ts)) == KidsOfAll(v, g, StopsOf(g, start, ts))
  {
    hide Onward, KidsOf;
    if |ts| > 0 {
      var init, t := ts[..|ts| - 1], ts[|ts| - 1];
      OnwardAllStops(v, g, start, init);
      OnwardStops(v, g, start, t);
      StopsOfConcat(g, start, OnwardAll(v, g, start, init), Onward(v, g, start, t));
      var stops := StopsOf(g, start, ts);
      assert stops[..|ts| - 1] == StopsOf(g, start, init);
    }
  }

  lemma {:induction false} TrailsAtStops(v: Vocabulary, g: Graph, start: nat, n: nat)
    ensures StopsAt(v, g, Stop(start, [], ROOT_CRS), n) == StopsOf(g, start, TrailsAt(v, g, start, n))
  {
    hide OnwardAll, KidsOfAll;
    if n > 0 {
      TrailsAtStops(v, g, start, n - 1);
      OnwardAllStops(v, g, start, TrailsAt(v, g, start, n - 1));
    }
  }

  // ----- every trail of the walk, each once -----

  lemma {:induction false} ExtendedAre(v: Vocabulary, g: Graph, stop: Stop, t: Trail, cs: seq<Choice>)
    requires Once(cs)
    ensures Once(Extended(v, g, stop, t, cs))
    ensures forall u :: u in Extended(v, g, stop, t, cs) <==>
              |u| == |t| + 1 && u[..|t|] == t && u[|t|] in cs && GoesBy(v, g, stop, u[|t|])
  {
    hide GoesBy;
    if |cs| > 0 {
      var init, c := cs[..|cs| - 1], cs[|cs| - 1];
      assert cs == init + [c];
      ExtendedAre(v, g, stop, t, init);
      assert c !in init;
      var more := if GoesBy(v, g, stop, c) then [t + [c]] else [];
      forall u
        ensures u in more <==> |u| == |t| + 1 && u[..|t|] == t && u[|t|] == c && GoesBy(v, g, stop, c)
      {
        if |u| == |t| + 1 && u[..|t|] == t { assert u == t + [u[|t|]]; }
      }
      OnceConcat(Extended(v, g, stop, t, init), more);
    }
  }

  lemma OnwardAre(v: Vocabulary, g: Graph, start: nat, t: Trail)
    requires Goes(v, g, start, t)
    ensures Once(Onward(v, g, start, t))
    ensures forall u :: u in Onward(v, g, start, t) <==> |u| == |t| + 1 && u[..|t|] == t && Goes(v, g, start, u)
  {
    hide Extended, EdgeAt, MayGo;
    var stop := StopOf(g, start, t);
    var cs := EdgesFrom(g, stop.pos);
    if stop.pos in g.indices { EdgesAre(g.indices[stop.pos], g.indices[stop.pos].Keys); }
    ExtendedAre(v, g, stop, t, cs);
  }

  ghost predicate AllGoing(v: Vocabulary, g: Graph, start: nat, ts: seq<Trail>, n: nat) {
    Once(ts) && forall t :: t in ts ==> |t| == n && Goes(v, g, start, t)
  }

  lemma {:induction false} OnwardAllAre(v: Vocabulary, g: Graph, start: nat, ts: seq<Trail>, n: nat)
    requires AllGoing(v, g, start, ts, n)
    ensures Once(OnwardAll(v, g, start, ts))
    ensures forall u :: u in OnwardAll(v, g, start, ts) <==> |u| == n + 1 && u[..n] in ts && Goes(v, g, start, u)
  {
    hide Onward, Goes;
    if |ts| > 0 {
      var init, t := ts[..|ts| - 1], ts[|ts| - 1];
      assert ts == init + [t];
      OnwardAllAre(v, g, start, init, n);
      OnwardAre(v, g, start, t);
      assert t !in init;
      OnceConcat(OnwardAll(v, g, start, init), Onward(v, g, start, t));
    }
  }

  lemma {:induction false} TrailsAtAre(v: Vocabulary, g: Graph, start: nat, n: nat)
    ensures Once(TrailsAt(v, g, start, n))
    ensures forall t :: t in TrailsAt(v, g, start, n) <==> |t| == n && Goes(v, g, start, t)
  {
    if n == 0 {
      OnlyEmpty(v, g, start);
    } else {
      TrailsAtAre(v, g, start, n - 1);
      TrailsNext(v, g, start, TrailsAt(v, g, start, n - 1), n - 1);
    }
  }

  lemma TrailsNext(v: Vocabulary, g: Graph, start: nat, before: seq<Trail>, n: nat)
    requires Once(before)
    requires forall t :: t in before <==> |t| == n && Goes(v, g, start, t)
    ensures Once(OnwardAll(v, g, start, before))
    ensures forall t :: t in OnwardAll(v, g, start, before) <==> |t| == n + 1 && Goes(v, g, start, t)
  {
    hide Goes, OnwardAll, Once;
    OnwardAllAre(v, g, start, before, n);
    forall t | |t| == n + 1 && Goes(v, g, start, t)
      ensures t[..n] in before
    {
      GoesBefore(v, g, start, t);
    }
  }

  lemma GoesBefore(v: Vocabulary, g: Graph, start: nat, t: Trail)
    requires Goes(v, g, start, t) && |t| > 0
    ensures Goes(v, g, start, t[..|t| - 1])
  {
  }

  lemma OnlyEmpty(v: Vocabulary, g: Graph, start: nat)
    ensures Once(TrailsAt(v, g, start, 0))
    ensures forall t :: t in TrailsAt(v, g, start, 0) <==> |t| == 0 && Goes(v, g, start, t)
  {
  }
}
