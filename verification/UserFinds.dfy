/** What a user dictionary lookup has to find: for every path of the graph, the live records of
    its code. */
module UserFinds {
  import opened Commons
  import opened Spellings
  import opened GraphEdges
  import opened UserScans
  import opened UserTrails

  ghost predicate Descending(entries: seq<DictEntry>) {
    forall i, j :: 0 <= i < j < |entries| ==> entries[i].weight >= entries[j].weight
  }

  ghost predicate SortedGroups(groups: Collector, sorted: Collector) {
    && sorted.Keys == groups.Keys
    && forall p :: p in groups ==> multiset(sorted[p]) == multiset(groups[p]) && Descending(sorted[p])
  }

  /** The entries of the paths that end at `pos`, path by path. */
  ghost function GroupAt(src: Source, paths: seq<PathEnd>, pos: nat): seq<DictEntry>
    requires src.AllTranslatable(paths)
    decreases |paths|
  {
    if |paths| == 0 then []
    else (if paths[0].pos == pos then src.Matches(paths[0]) else []) + GroupAt(src, paths[1..], pos)
  }

  /** The groups of a collector, empty where it has none. */
  ghost function Group(collector: Collector, pos: nat): seq<DictEntry> {
    if pos in collector then collector[pos] else []
  }

  lemma {:induction false} GatherGroups(src: Source, collector: Collector, paths: seq<PathEnd>, pos: nat)
    requires src.AllTranslatable(paths)
    ensures Group(src.Gather(collector, paths), pos) == Group(collector, pos) + GroupAt(src, paths, pos)
    decreases |paths|
  {
    if |paths| > 0 {
      GatherGroups(src, AddEntries(collector, paths[0].pos, src.Matches(paths[0])), paths[1..], pos);
    }
  }

  lemma GivesEntry(src: Source, path: PathEnd, i: nat, e: DictEntry)
    requires src.Translatable(path.code) && i < |src.db|
    ensures multiset(src.EntryAt(path, i))[e] == if Gives(src, path, i, e) then 1 else 0
  {
  }

  /** An entry is recruited for a path exactly once per live record of the path's code. */
  lemma {:induction false} MatchesContents(src: Source, path: PathEnd, n: nat, e: DictEntry)
    requires src.Translatable(path.code) && n <= |src.db|
    ensures multiset(src.MatchesUpTo(path, n))[e] == |Givers(src, path, n, e)|
  {
    hide Gives, Givers, Source.EntryAt;
    if n > 0 {
      MatchesContents(src, path, n - 1, e);
      GivesEntry(src, path, n - 1, e);
      GiversStep(src, path, n, e);
    } else {
      NoGivers(src, path, e);
    }
  }

  lemma NoGivers(src: Source, path: PathEnd, e: DictEntry)
    requires src.Translatable(path.code)
    ensures |Givers(src, path, 0, e)| == 0
  {
    assert Givers(src, path, 0, e) == {};
  }

  lemma GiversStep(src: Source, path: PathEnd, n: nat, e: DictEntry)
    requires src.Translatable(path.code) && 0 < n <= |src.db|
    ensures |Givers(src, path, n, e)| == |Givers(src, path, n - 1, e)| + if Gives(src, path, n - 1, e) then 1 else 0
  {
    hide Gives;
    var before := Givers(src, path, n - 1, e);
    if Gives(src, path, n - 1, e) {
      assert Givers(src, path, n, e) == before + {n - 1};
    } else {
      assert Givers(src, path, n, e) == before;
    }
  }

  /** Record `i` is live, its key is the path's code, a tab and the text of `e`. */
  ghost predicate Gives(src: Source, path: PathEnd, i: nat, e: DictEntry)
    requires src.Translatable(path.code) && i < |src.db|
  {
    Exact(src, path.code, i) && src.CreateDictEntry(src.db[i], path.code, path.credibility) == Some(e)
  }

  ghost function Givers(src: Source, path: PathEnd, n: nat, e: DictEntry): set<nat>
    requires src.Translatable(path.code) && n <= |src.db|
  {
    set i: nat | i < n && Gives(src, path, i, e)
  }

  // ----- path by path, record by record -----

  /** The trail leads to position `end`, where record `i` gives entry `x`. */
  ghost predicate Finds(src: Source, start: nat, credibility: real, end: nat, x: DictEntry, t: Trail, i: nat) {
    && IsTrail(src, start, 0, t) && i < |src.db|
    && var path := EndOf(src, start, [], credibility, t);
       path.pos == end && src.Translatable(path.code) && Gives(src, path, i, x)
  }

  ghost function FindsAmong(src: Source, start: nat, credibility: real, end: nat, x: DictEntry, ts: seq<Trail>): set<(Trail, nat)> {
    set t, i | t in ts && 0 <= i < |src.db| && Finds(src, start, credibility, end, x, t, i) :: (t, i)
  }

  ghost function Paired(t: Trail, s: set<nat>): set<(Trail, nat)> {
    set i | i in s :: (t, i)
  }

  lemma {:induction false} PairedCount(t: Trail, s: set<nat>)
    ensures |Paired(t, s)| == |s|
  {
    if s == {} {
      assert Paired(t, s) == {};
    } else {
      var i :| i in s;
      PairedCount(t, s - {i});
      assert Paired(t, s) == Paired(t, s - {i}) + {(t, i)};
    }
  }

  lemma FoundBy(src: Source, start: nat, credibility: real, end: nat, x: DictEntry, ts: seq<Trail>, f: (Trail, nat))
    ensures f in FindsAmong(src, start, credibility, end, x, ts) <==> f.0 in ts && Finds(src, start, credibility, end, x, f.0, f.1)
  {
    hide Gives, IsTrail, EndOf, Source.Translatable;
    if f.0 in ts && Finds(src, start, credibility, end, x, f.0, f.1) { assert (f.0, f.1) == f; }
  }

  lemma FirstFinds(src: Source, start: nat, credibility: real, end: nat, x: DictEntry, t: Trail, i: nat)
    requires IsTrail(src, start, 0, t) && src.Translatable(EndOf(src, start, [], credibility, t).code)
    ensures var path := EndOf(src, start, [], credibility, t);
            Finds(src, start, credibility, end, x, t, i) <==> path.pos == end && i in Givers(src, path, |src.db|, x)
  {
    hide Gives, IsTrail, EndOf, Source.Translatable;
  }

  lemma FindsStep(src: Source, start: nat, credibility: real, end: nat, x: DictEntry, ts: seq<Trail>)
    requires |ts| > 0 && Once(ts) && IsTrail(src, start, 0, ts[0])
    requires src.Translatable(EndOf(src, start, [], credibility, ts[0]).code)
    ensures var path := EndOf(src, start, [], credibility, ts[0]);
            |FindsAmong(src, start, credibility, end, x, ts)|
            == (if path.pos == end then |Givers(src, path, |src.db|, x)| else 0)
               + |FindsAmong(src, start, credibility, end, x, ts[1..])|
  {
    var path := EndOf(src, start, [], credibility, ts[0]);
    var first := if path.pos == end then Paired(ts[0], Givers(src, path, |src.db|, x)) else {};
    var rest := FindsAmong(src, start, credibility, end, x, ts[1..]);
    hide Gives, IsTrail, EndOf, Source.Translatable;
    var all := FindsAmong(src, start, credibility, end, x, ts);
    assert forall t :: t in ts <==> t == ts[0] || t in ts[1..];
    assert ts[0] !in ts[1..];
    forall f
      ensures f in all <==> f in first || f in rest
      ensures !(f in first && f in rest)
    {
      FoundBy(src, start, credibility, end, x, ts, f);
      FoundBy(src, start, credibility, end, x, ts[1..], f);
      if f.0 == ts[0] { FirstFinds(src, start, credibility, end, x, ts[0], f.1); }
    }
    hide FindsAmong, Givers, Finds, Paired;
    assert all == first + rest && first !! rest;
    if path.pos == end { PairedCount(ts[0], Givers(src, path, |src.db|, x)); }
  }

  lemma {:induction false} GroupCounts(src: Source, start: nat, credibility: real, end: nat, x: DictEntry,
                                       paths: seq<PathEnd>, ts: seq<Trail>)
    requires src.AllTranslatable(paths) && EndsOf(src, start, [], credibility, paths, ts) && Once(ts)
    ensures multiset(GroupAt(src, paths, end))[x] == |FindsAmong(src, start, credibility, end, x, ts)|
  {
    if |paths| == 0 {
      assert FindsAmong(src, start, credibility, end, x, ts) == {};
    } else {
      var path := paths[0];
      GroupCounts(src, start, credibility, end, x, paths[1..], ts[1..]);
      FindsStep(src, start, credibility, end, x, ts);
      MatchesContents(src, path, |src.db|, x);
      hide FindsAmong, Givers, IsTrail, EndOf, Once, EndsOf;
      assert src.Matches(path) == src.MatchesUpTo(path, |src.db|);
    }
  }

  /** An entry is found at a position as often as there are a path to it and a live record of the
      path's code that give it; heavier entries come first; and there is a result, and a group,
      exactly where something is found. */
  ghost predicate IsLookup(src: Source, start: nat, credibility: real, result: Option<Collector>)
    requires src.ForwardGraph() && start <= src.length
  {
    var trails := Trails(src, start, 0);
    var groups := if result.Some? then result.value else map[];
    && (result.Some? ==> groups != map[])
    && forall e: nat ::
         && (e in groups ==> groups[e] != [] && Descending(groups[e]))
         && forall x :: multiset(Group(groups, e))[x] == |FindsAmong(src, start, credibility, e, x, trails)|
  }

  lemma {:induction false} GatherIsSolid(src: Source, collector: Collector, paths: seq<PathEnd>)
    requires src.AllTranslatable(paths) && forall e :: e in collector ==> collector[e] != []
    ensures forall e :: e in src.Gather(collector, paths) ==> src.Gather(collector, paths)[e] != []
    decreases |paths|
  {
    if |paths| > 0 { GatherIsSolid(src, AddEntries(collector, paths[0].pos, src.Matches(paths[0])), paths[1..]); }
  }

  lemma GatherCounts(src: Source, start: nat, credibility: real, end: nat, x: DictEntry)
    requires src.ForwardGraph() && start <= src.length && src.AllTranslatable(src.Paths(start, [], credibility))
    ensures multiset(Group(src.Gather(map[], src.Paths(start, [], credibility)), end))[x]
            == |FindsAmong(src, start, credibility, end, x, Trails(src, start, 0))|
  {
    PathsExactly(src, start, credibility);
    hide Source.Gather, Source.Paths, Trails, FindsAmong, IsTrail, Source.AllTranslatable, Once, EndsOf;
    var paths := src.Paths(start, [], credibility);
    GatherGroups(src, map[], paths, end);
    assert Group(map[], end) + GroupAt(src, paths, end) == GroupAt(src, paths, end);
    GroupCounts(src, start, credibility, end, x, paths, Trails(src, start, 0));
  }

  lemma SortedGroup(groups: Collector, sorted: Collector)
    requires SortedGroups(groups, sorted) && forall e :: e in groups ==> groups[e] != []
    ensures forall e: nat :: multiset(Group(sorted, e)) == multiset(Group(groups, e))
    ensures forall e :: e in sorted ==> sorted[e] != [] && Descending(sorted[e])
    ensures groups != map[] ==> sorted != map[]
  {
    hide Descending;
    forall e | e in sorted
      ensures sorted[e] != []
    {
      assert |multiset(sorted[e])| == |multiset(groups[e])|;
    }
    assert (forall e :: e !in groups) ==> groups == map[];
  }

  /** Main result: collecting the matches of all paths and sorting them is finding what all trails
      find. */
  lemma LookupIs(src: Source, start: nat, credibility: real, result: Option<Collector>)
    requires src.ForwardGraph() && start <= src.length && src.AllTranslatable(src.Paths(start, [], credibility))
    requires var groups := src.Gather(map[], src.Paths(start, [], credibility));
             if groups == map[] then result.None? else result.Some? && SortedGroups(groups, result.value)
    ensures IsLookup(src, start, credibility, result)
  {
    hide Source.Gather, Source.Paths, Trails, FindsAmong, Source.AllTranslatable, Descending, SortedGroups;
    var groups := src.Gather(map[], src.Paths(start, [], credibility));
    GatherIsSolid(src, map[], src.Paths(start, [], credibility));
    if result.Some? { SortedGroup(groups, result.value); }
    forall e: nat, x
      ensures multiset(Group(groups, e))[x] == |FindsAmong(src, start, credibility, e, x, Trails(src, start, 0))|
    {
      GatherCounts(src, start, credibility, e, x);
    }
  }

  /** What is found, for any pair of a path and a record. */
  lemma FindsAre(src: Source, start: nat, credibility: real, end: nat, x: DictEntry, t: Trail, i: nat)
    requires src.ForwardGraph() && start <= src.length
    ensures (t, i) in FindsAmong(src, start, credibility, end, x, Trails(src, start, 0))
            <==> Finds(src, start, credibility, end, x, t, i)
  {
    PathsExactly(src, start, credibility);
    hide Trails;
  }
}
