/** The paths a user dictionary lookup tries, one by one: every chain of choices through the
    graph is tried exactly once. */
module UserTrails {
  import opened Commons
  import opened Spellings
  import opened GraphEdges
  import opened UserScans

  ghost predicate IsStep(src: Source, pos: nat, c: Choice) {
    && pos in src.indices && c.id in src.indices[pos] && 0 <= c.id < |src.syllabary|
    && c.nth < |src.indices[pos][c.id]| && (c.nth == 0 || src.indices[pos][c.id][c.nth].kind < ABBREVIATION)
  }

  ghost function StepTo(src: Source, pos: nat, c: Choice): Properties
    requires IsStep(src, pos, c)
  {
    src.indices[pos][c.id][c.nth]
  }

  /** `t` leads on from `pos`, where `depth` syllables have been read already; a path may not
      go on beyond the depth limit. */
  ghost predicate IsTrail(src: Source, pos: nat, depth: nat, t: Trail)
    decreases |t|
  {
    && |t| > 0 && IsStep(src, pos, t[0])
    && (|t| > 1 ==>
          (src.depthLimit == 0 || depth + 1 < src.depthLimit)
          && IsTrail(src, StepTo(src, pos, t[0]).endPos, depth + 1, t[1..]))
  }

  /** Where a trail leads: its syllables, its end, the product of its credibilities. */
  ghost function EndOf(src: Source, pos: nat, code: seq<int>, credibility: real, t: Trail): PathEnd
    requires IsTrail(src, pos, |code|, t)
    decreases |t|
  {
    var p := StepTo(src, pos, t[0]);
    if |t| == 1 then PathEnd(code + [t[0].id], p.endPos, Times(credibility, p.credibility))
    else EndOf(src, p.endPos, code + [t[0].id], Times(credibility, p.credibility), t[1..])
  }

  /** The trails in the order they are tried. */
  ghost function Trails(src: Source, pos: nat, depth: nat): seq<Trail>
    requires src.ForwardGraph() && pos <= src.length
    decreases src.length - pos, 3, 0
  {
    if pos in src.indices then TrailsOver(src, pos, depth, src.indices[pos].Keys) else []
  }

  ghost function TrailsOver(src: Source, pos: nat, depth: nat, ids: set<int>): seq<Trail>
    requires src.ForwardGraph() && pos <= src.length && pos in src.indices && ids <= src.indices[pos].Keys
    decreases src.length - pos, 2, |ids|
  {
    if |ids| == 0 then []
    else
      var id := Least(ids);
      (if src.Known(id) then TrailsBy(src, pos, depth, id, 0) else []) + TrailsOver(src, pos, depth, ids - {id})
  }

  ghost function TrailsBy(src: Source, pos: nat, depth: nat, id: int, i: nat): seq<Trail>
    requires src.ForwardGraph() && pos <= src.length && pos in src.indices && id in src.indices[pos]
    requires i <= |src.indices[pos][id]|
    decreases src.length - pos, 1, |src.indices[pos][id]| - i
  {
    var list := src.indices[pos][id];
    if i == |list| then []
    else
      (if src.Usable(list, i) then TrailsAlong(src, depth + 1, list[i].endPos, Choice(id, i)) else [])
      + TrailsBy(src, pos, depth, id, i + 1)
  }

  ghost function TrailsAlong(src: Source, depth: nat, end: nat, c: Choice): seq<Trail>
    requires src.ForwardGraph() && end <= src.length
    decreases src.length - end, 4, 0
  {
    [[c]] + (if src.depthLimit == 0 || depth < src.depthLimit then Behind(c, Trails(src, end, depth)) else [])
  }

  ghost function Behind(c: Choice, ts: seq<Trail>): seq<Trail> {
    seq(|ts|, k requires 0 <= k < |ts| => [c] + ts[k])
  }

  // ----- every trail is tried -----

  ghost predicate Starts(t: Trail, c: Choice) {
    |t| > 0 && t[0] == c
  }

  lemma {:induction false} TrailsAre(src: Source, pos: nat, depth: nat, t: Trail)
    requires src.ForwardGraph() && pos <= src.length
    ensures t in Trails(src, pos, depth) <==> IsTrail(src, pos, depth, t)
    decreases src.length - pos, 3, 0
  {
    if pos in src.indices { TrailsOverAre(src, pos, depth, src.indices[pos].Keys, t); }
  }

  lemma {:induction false} TrailsOverAre(src: Source, pos: nat, depth: nat, ids: set<int>, t: Trail)
    requires src.ForwardGraph() && pos <= src.length && pos in src.indices && ids <= src.indices[pos].Keys
    ensures t in TrailsOver(src, pos, depth, ids) <==> IsTrail(src, pos, depth, t) && t[0].id in ids
    decreases src.length - pos, 2, |ids|
  {
    if |ids| > 0 {
      var id := Least(ids);
      TrailsOverAre(src, pos, depth, ids - {id}, t);
      if src.Known(id) { TrailsByAre(src, pos, depth, id, 0, t); }
    }
  }

  lemma {:induction false} TrailsByAre(src: Source, pos: nat, depth: nat, id: int, i: nat, t: Trail)
    requires src.ForwardGraph() && pos <= src.length && pos in src.indices && id in src.indices[pos] && src.Known(id)
    requires i <= |src.indices[pos][id]|
    ensures t in TrailsBy(src, pos, depth, id, i) <==> IsTrail(src, pos, depth, t) && t[0].id == id && i <= t[0].nth
    decreases src.length - pos, 1, |src.indices[pos][id]| - i
  {
    var list := src.indices[pos][id];
    if i < |list| {
      TrailsByAre(src, pos, depth, id, i + 1, t);
      if src.Usable(list, i) { TrailsAlongAre(src, pos, depth, Choice(id, i), t); }
    }
  }

  lemma {:induction false} TrailsAlongAre(src: Source, pos: nat, depth: nat, c: Choice, t: Trail)
    requires src.ForwardGraph() && pos <= src.length && IsStep(src, pos, c)
    ensures t in TrailsAlong(src, depth + 1, StepTo(src, pos, c).endPos, c)
            <==> IsTrail(src, pos, depth, t) && t[0] == c
    decreases src.length - StepTo(src, pos, c).endPos, 4, 0
  {
    var end := StepTo(src, pos, c).endPos;
    var ts := Trails(src, end, depth + 1);
    if |t| > 0 {
      TrailsAre(src, end, depth + 1, t[1..]);
      BehindContents(c, ts, t);
    }
    if |t| == 1 && t[0] == c { assert t == [c]; }
    BehindContents(c, ts, [c]);
    if |t| == 1 { assert t[1..] == []; }
  }

  lemma BehindContents(c: Choice, ts: seq<Trail>, t: Trail)
    requires |t| > 0
    ensures t in Behind(c, ts) <==> t[0] == c && t[1..] in ts
  {
    if t[0] == c && t[1..] in ts {
      var k :| 0 <= k < |ts| && ts[k] == t[1..];
      assert Behind(c, ts)[k] == t;
    }
  }

  // ----- no trail is tried twice -----

  lemma {:induction false} TrailsDistinct(src: Source, pos: nat, depth: nat)
    requires src.ForwardGraph() && pos <= src.length
    ensures Once(Trails(src, pos, depth))
    decreases src.length - pos, 3, 0
  {
    if pos in src.indices { TrailsOverDistinct(src, pos, depth, src.indices[pos].Keys); }
  }

  lemma {:induction false} TrailsOverDistinct(src: Source, pos: nat, depth: nat, ids: set<int>)
    requires src.ForwardGraph() && pos <= src.length && pos in src.indices && ids <= src.indices[pos].Keys
    ensures Once(TrailsOver(src, pos, depth, ids))
    decreases src.length - pos, 2, |ids|
  {
    if |ids| > 0 {
      var id := Least(ids);
      TrailsOverDistinct(src, pos, depth, ids - {id});
      if src.Known(id) {
        TrailsByDistinct(src, pos, depth, id, 0);
        forall t | t in TrailsBy(src, pos, depth, id, 0)
          ensures t !in TrailsOver(src, pos, depth, ids - {id})
        {
          TrailsByAre(src, pos, depth, id, 0, t);
          TrailsOverAre(src, pos, depth, ids - {id}, t);
        }
        OnceConcat(TrailsBy(src, pos, depth, id, 0), TrailsOver(src, pos, depth, ids - {id}));
      }
    }
  }

  lemma {:induction false} TrailsByDistinct(src: Source, pos: nat, depth: nat, id: int, i: nat)
    requires src.ForwardGraph() && pos <= src.length && pos in src.indices && id in src.indices[pos] && src.Known(id)
    requires i <= |src.indices[pos][id]|
    ensures Once(TrailsBy(src, pos, depth, id, i))
    decreases src.length - pos, 1, |src.indices[pos][id]| - i
  {
    var list := src.indices[pos][id];
    if i < |list| {
      TrailsByDistinct(src, pos, depth, id, i + 1);
      if src.Usable(list, i) {
        var c := Choice(id, i);
        TrailsAlongDistinct(src, pos, depth, c);
        var along := TrailsAlong(src, depth + 1, list[i].endPos, c);
        forall t | t in along
          ensures t !in TrailsBy(src, pos, depth, id, i + 1)
        {
          TrailsAlongAre(src, pos, depth, c, t);
          TrailsByAre(src, pos, depth, id, i + 1, t);
        }
        OnceConcat(along, TrailsBy(src, pos, depth, id, i + 1));
      }
    }
  }

  lemma {:induction false} TrailsAlongDistinct(src: Source, pos: nat, depth: nat, c: Choice)
    requires src.ForwardGraph() && pos <= src.length && IsStep(src, pos, c)
    ensures Once(TrailsAlong(src, depth + 1, StepTo(src, pos, c).endPos, c))
    decreases src.length - StepTo(src, pos, c).endPos, 4, 0
  {
    var end := StepTo(src, pos, c).endPos;
    var ts := Trails(src, end, depth + 1);
    TrailsDistinct(src, end, depth + 1);
    var behind := Behind(c, ts);
    forall i, j | 0 <= i < j < |behind|
      ensures behind[i] != behind[j]
    {
      assert behind[i][1..] == ts[i] && behind[j][1..] == ts[j];
    }
    TrailsAre(src, end, depth + 1, []);
    BehindContents(c, ts, [c]);
    assert [c][1..] == [];
    OnceConcat([[c]], behind);
  }

  // ----- the paths are the ends of the trails -----

  ghost predicate EndsOf(src: Source, pos: nat, code: seq<int>, credibility: real, paths: seq<PathEnd>, ts: seq<Trail>) {
    && |paths| == |ts|
    && forall k :: 0 <= k < |ts| ==> IsTrail(src, pos, |code|, ts[k]) && paths[k] == EndOf(src, pos, code, credibility, ts[k])
  }

  lemma {:induction false} PathsEndTrails(src: Source, pos: nat, code: seq<int>, credibility: real)
    requires src.ForwardGraph() && pos <= src.length
    ensures EndsOf(src, pos, code, credibility, src.Paths(pos, code, credibility), Trails(src, pos, |code|))
    decreases src.length - pos, 3, 0
  {
    if pos in src.indices { PathsOverEndTrails(src, pos, code, credibility, src.indices[pos].Keys); }
  }

  lemma {:induction false} PathsOverEndTrails(src: Source, pos: nat, code: seq<int>, credibility: real, ids: set<int>)
    requires src.ForwardGraph() && pos <= src.length && pos in src.indices && ids <= src.indices[pos].Keys
    ensures EndsOf(src, pos, code, credibility, src.PathsOver(pos, code, credibility, ids), TrailsOver(src, pos, |code|, ids))
    decreases src.length - pos, 2, |ids|
  {
    if |ids| > 0 {
      var id := Least(ids);
      PathsOverEndTrails(src, pos, code, credibility, ids - {id});
      if src.Known(id) { PathsByEndTrails(src, pos, code, credibility, id, 0); }
    }
  }

  lemma {:induction false} PathsByEndTrails(src: Source, pos: nat, code: seq<int>, credibility: real, id: int, i: nat)
    requires src.ForwardGraph() && pos <= src.length && pos in src.indices && id in src.indices[pos] && src.Known(id)
    requires i <= |src.indices[pos][id]|
    ensures EndsOf(src, pos, code, credibility, src.PathsBy(pos, code + [id], credibility, src.indices[pos][id], i),
                   TrailsBy(src, pos, |code|, id, i))
    decreases src.length - pos, 1, |src.indices[pos][id]| - i
  {
    var list := src.indices[pos][id];
    if i < |list| {
      PathsByEndTrails(src, pos, code, credibility, id, i + 1);
      if src.Usable(list, i) { PathsAlongEndTrails(src, pos, code, credibility, Choice(id, i)); }
    }
  }

  lemma {:induction false} PathsAlongEndTrails(src: Source, pos: nat, code: seq<int>, credibility: real, c: Choice)
    requires src.ForwardGraph() && pos <= src.length && IsStep(src, pos, c)
    ensures var p := StepTo(src, pos, c);
            EndsOf(src, pos, code, credibility, src.PathsAlong(code + [c.id], Times(credibility, p.credibility), p.endPos),
                   TrailsAlong(src, |code| + 1, p.endPos, c))
    decreases src.length - StepTo(src, pos, c).endPos, 4, 0
  {
    var p := StepTo(src, pos, c);
    var code' := code + [c.id];
    var ts := Trails(src, p.endPos, |code'|);
    PathsEndTrails(src, p.endPos, code', Times(credibility, p.credibility));
    forall k | 0 <= k < |ts| && src.MayDeepen(code')
      ensures IsTrail(src, pos, |code|, [c] + ts[k])
      ensures EndOf(src, pos, code, credibility, [c] + ts[k]) == EndOf(src, p.endPos, code', Times(credibility, p.credibility), ts[k])
    {
      assert ([c] + ts[k])[1..] == ts[k];
    }
  }

  /** Main result: the paths of a lookup are the ends of all trails, each trail once. */
  lemma PathsExactly(src: Source, start: nat, credibility: real)
    requires src.ForwardGraph() && start <= src.length
    ensures EndsOf(src, start, [], credibility, src.Paths(start, [], credibility), Trails(src, start, 0))
    ensures Once(Trails(src, start, 0))
    ensures forall t :: t in Trails(src, start, 0) <==> IsTrail(src, start, 0, t)
  {
    PathsEndTrails(src, start, [], credibility);
    TrailsDistinct(src, start, 0);
    forall t
      ensures t in Trails(src, start, 0) <==> IsTrail(src, start, 0, t)
    {
      TrailsAre(src, start, 0, t);
    }
  }
}
