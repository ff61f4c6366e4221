/** What the graph built for an input guarantees, and what it needs from the prism. */
module SyllableGraphs {
  import opened Spellings
  import opened Prisms
  import opened Lattices
  import opened Pruning
  import opened Syllabification

  /** `b` is `a` followed by delimiters. */
  ghost predicate Shadows(sy: Syllabifier, a: string, b: string) {
    |a| < |b| && a <= b && forall i :: |a| <= i < |b| ==> b[i] in sy.delimiters
  }

  /** Some key is another one followed by delimiters. */
  ghost predicate HasShadow(sy: Syllabifier, prism: Prism) {
    exists a, b :: a in prism.keys && b in prism.keys && |a| > 0 && Shadows(sy, a, b)
  }

  /** No key shadows another, and no spelling lists a syllable twice. */
  ghost predicate Clean(sy: Syllabifier, prism: Prism) {
    !HasShadow(sy, prism) && forall id :: ListsEachOnce(prism.QuerySpelling(id))
  }

  ghost predicate ListsEachOnce(ds: seq<Descriptor>) {
    forall i, j :: 0 <= i < j < |ds| ==> ds[i].syllableId != ds[j].syllableId
  }

  // ----- a clean prism gives an unambiguous lattice -----

  lemma {:induction false} CollectedIds(sy: Syllabifier, input: string, pos: nat, end: nat, ds: seq<Descriptor>)
    ensures forall s :: s in sy.Collected(input, pos, end, ds) ==> exists i :: 0 <= i < |ds| && ds[i].syllableId == s
  {
    if |ds| > 0 { CollectedIds(sy, input, pos, end, ds[..|ds| - 1]); }
  }

  lemma {:induction false} CollectedAttained(sy: Syllabifier, input: string, pos: nat, end: nat, ds: seq<Descriptor>)
    requires ListsEachOnce(ds)
    ensures var m, kind := sy.Collected(input, pos, end, ds), sy.CollectedKind(input, pos, end, ds);
            && (forall s :: s in m ==> kind <= m[s].kind && m[s].endPos == end)
            && (m != map[] ==> exists s :: s in m && m[s].kind == kind)
            && (m == map[] ==> kind == INVALID)
  {
    if |ds| > 0 {
      var init, d := ds[..|ds| - 1], ds[|ds| - 1];
      CollectedAttained(sy, input, pos, end, init);
      CollectedIds(sy, input, pos, end, init);
      var before := sy.Collected(input, pos, end, init);
      var m, kind := sy.Collected(input, pos, end, ds), sy.CollectedKind(input, pos, end, ds);
      assert d.syllableId !in before;
      if !sy.Disqualified(input, pos, end, d.kind) {
        assert d.syllableId in m && m[d.syllableId].kind == d.kind;
        if before != map[] {
          var s :| s in before && before[s].kind == sy.CollectedKind(input, pos, end, init);
          assert s in m && m[s] == before[s];
        }
      }
    }
  }

  lemma {:induction false} LinksFromMatches(sy: Syllabifier, input: string, prism: Prism, pos: nat, n: nat, l: Link)
    requires pos <= |input| && n <= |prism.CommonPrefixSearch(input[pos..])|
    ensures l in sy.LinksUpTo(input, prism, pos, n) <==>
              exists i :: 0 <= i < n && IsLinkOf(sy, input, prism, pos, i, l)
  {
    hide Prism.CommonPrefixSearch, IsLinkOf, Syllabifier.LinkOf;
    if n > 0 {
      LinksFromMatches(sy, input, prism, pos, n - 1, l);
      OneMoreMatch(sy, input, prism, pos, n, l);
      hide Syllabifier.LinksUpTo;
    }
  }

  lemma OneMoreMatch(sy: Syllabifier, input: string, prism: Prism, pos: nat, n: nat, l: Link)
    requires pos <= |input| && 0 < n <= |prism.CommonPrefixSearch(input[pos..])|
    ensures l in sy.LinksUpTo(input, prism, pos, n) <==>
              l in sy.LinksUpTo(input, prism, pos, n - 1) || IsLinkOf(sy, input, prism, pos, n - 1, l)
  {
    hide Prism.CommonPrefixSearch, Syllabifier.LinkOf;
  }

  ghost predicate IsLinkOf(sy: Syllabifier, input: string, prism: Prism, pos: nat, i: nat, l: Link)
    requires pos <= |input| && i < |prism.CommonPrefixSearch(input[pos..])|
  {
    l == sy.LinkOf(input, prism, pos, prism.CommonPrefixSearch(input[pos..])[i]) && l.spellings != map[]
  }

  /** Two matches at one place end together if and only if the longer key is the shorter one
      followed by delimiters; otherwise the longer one ends later. */
  lemma MatchesEndTogether(sy: Syllabifier, input: string, prism: Prism, pos: nat, i: nat, j: nat)
    requires pos <= |input| && i < j < |prism.CommonPrefixSearch(input[pos..])|
    ensures var text, ms := input[pos..], prism.CommonPrefixSearch(input[pos..]);
            var a, b := sy.LinkOf(input, prism, pos, ms[i]).end, sy.LinkOf(input, prism, pos, ms[j]).end;
            && a <= b && (a == b <==> Shadows(sy, text[..ms[i].length], text[..ms[j].length]))
  {
    var text, ms := input[pos..], prism.CommonPrefixSearch(input[pos..]);
    var m, n := ms[i].length, ms[j].length;
    EndsTogether(sy, input, pos + m, pos + n);
    assert forall h :: m <= h < n ==> text[..n][h] == input[pos + h];
    assert text[..n][..m] == text[..m];
    if h :| pos + m <= h < pos + n && input[h] !in sy.delimiters { assert text[..n][h - pos] == input[h]; }
  }

  /** Skipping delimiters from two places ends together if only delimiters are between. */
  lemma EndsTogether(sy: Syllabifier, input: string, m: nat, n: nat)
    requires m <= n <= |input|
    ensures sy.SkipDelimiters(input, m) <= sy.SkipDelimiters(input, n)
    ensures sy.SkipDelimiters(input, m) == sy.SkipDelimiters(input, n)
            <==> forall h :: m <= h < n ==> input[h] in sy.delimiters
  {
    var a, b := sy.SkipDelimiters(input, m), sy.SkipDelimiters(input, n);
    if h :| m <= h < n && input[h] !in sy.delimiters { assert a <= h; }
    if a < n { assert input[a] !in sy.delimiters; }
  }

  /** The keys of two matches at one place. */
  lemma MatchedKeys(prism: Prism, text: string, i: nat, j: nat)
    requires i < j < |prism.CommonPrefixSearch(text)|
    ensures var ms := prism.CommonPrefixSearch(text);
            0 < ms[i].length < ms[j].length <= |text| && text[..ms[i].length] in prism.keys && text[..ms[j].length] in prism.keys
  {
  }

  /** In a clean prism the longer match ends later. */
  lemma MatchesEndApart(sy: Syllabifier, input: string, prism: Prism, pos: nat, i: nat, j: nat)
    requires Clean(sy, prism) && pos <= |input| && i < j < |prism.CommonPrefixSearch(input[pos..])|
    ensures var ms := prism.CommonPrefixSearch(input[pos..]);
            sy.LinkOf(input, prism, pos, ms[i]).end < sy.LinkOf(input, prism, pos, ms[j]).end
  {
    MatchesEndTogether(sy, input, prism, pos, i, j);
    MatchedKeys(prism, input[pos..], i, j);
    hide Prism.CommonPrefixSearch, Shadows;
  }

  // ----- which prisms overwrite edges -----

  /** Two matches at one place of the input make edges to the same end. */
  ghost predicate Overwrites(sy: Syllabifier, prism: Prism, input: string, pos: nat) {
    pos <= |input|
    && exists i, j :: 0 <= i < j < |sy.LinksFrom(input, prism, pos)|
                      && sy.LinksFrom(input, prism, pos)[i].end == sy.LinksFrom(input, prism, pos)[j].end
  }

  /** Each link comes from a match, later links from later matches. */
  lemma {:induction false} LinksInOrder(sy: Syllabifier, input: string, prism: Prism, pos: nat, n: nat, x: nat, y: nat)
    returns (i: nat, j: nat)
    requires pos <= |input| && n <= |prism.CommonPrefixSearch(input[pos..])| && x < y < |sy.LinksUpTo(input, prism, pos, n)|
    ensures i < j < n && IsLinkOf(sy, input, prism, pos, i, sy.LinksUpTo(input, prism, pos, n)[x])
    ensures IsLinkOf(sy, input, prism, pos, j, sy.LinksUpTo(input, prism, pos, n)[y])
  {
    hide Prism.CommonPrefixSearch, Syllabifier.LinkOf;
    var before := sy.LinksUpTo(input, prism, pos, n - 1);
    if y < |before| {
      i, j := LinksInOrder(sy, input, prism, pos, n - 1, x, y);
    } else {
      LinksFromMatches(sy, input, prism, pos, n - 1, before[x]);
      i :| 0 <= i < n - 1 && IsLinkOf(sy, input, prism, pos, i, before[x]);
      j := n - 1;
    }
  }

  lemma OverwritingNeedsShadow(sy: Syllabifier, prism: Prism, input: string, pos: nat)
    requires Overwrites(sy, prism, input, pos)
    ensures HasShadow(sy, prism)
  {
    hide Prism.CommonPrefixSearch, Syllabifier.LinkOf, Syllabifier.LinksUpTo;
    var links, ms := sy.LinksFrom(input, prism, pos), prism.CommonPrefixSearch(input[pos..]);
    var x, y :| 0 <= x < y < |links| && links[x].end == links[y].end;
    var i, j := LinksInOrder(sy, input, prism, pos, |ms|, x, y);
    MatchesEndTogether(sy, input, prism, pos, i, j);
    MatchedKeys(prism, input[pos..], i, j);
  }

  /** A match that does not begin the input always gives a link. */
  lemma MatchGivesLink(sy: Syllabifier, input: string, prism: Prism, pos: nat, i: nat)
    requires 0 < pos <= |input| && i < |prism.CommonPrefixSearch(input[pos..])|
    ensures IsLinkOf(sy, input, prism, pos, i, sy.LinkOf(input, prism, pos, prism.CommonPrefixSearch(input[pos..])[i]))
  {
    var m := prism.CommonPrefixSearch(input[pos..])[i];
    var ds := prism.QuerySpelling(m.value);
    var l := sy.LinkOf(input, prism, pos, m);
    assert ds[|ds| - 1].syllableId in sy.Collected(input, pos, l.end, ds);
  }

  /** Where every match gives a link, there is a link for each match. */
  lemma {:induction false} LinkPerMatch(sy: Syllabifier, input: string, prism: Prism, pos: nat, n: nat)
    requires pos <= |input| && n <= |prism.CommonPrefixSearch(input[pos..])|
    requires forall i :: 0 <= i < n ==>
               IsLinkOf(sy, input, prism, pos, i, sy.LinkOf(input, prism, pos, prism.CommonPrefixSearch(input[pos..])[i]))
    ensures var links := sy.LinksUpTo(input, prism, pos, n);
            |links| == n && forall i :: 0 <= i < n ==> links[i] == sy.LinkOf(input, prism, pos, prism.CommonPrefixSearch(input[pos..])[i])
  {
    hide Prism.CommonPrefixSearch, Syllabifier.LinkOf;
    if n > 0 { LinkPerMatch(sy, input, prism, pos, n - 1); }
  }

  /** A key that starts the text is one of the matches, and a longer one comes later. */
  lemma KeyIsMatch(prism: Prism, text: string, a: string, b: string) returns (i: nat, j: nat)
    requires a in prism.keys && b in prism.keys && 0 < |a| < |b| && a <= text && b <= text
    ensures i < j < |prism.CommonPrefixSearch(text)|
    ensures prism.CommonPrefixSearch(text)[i].length == |a| && prism.CommonPrefixSearch(text)[j].length == |b|
  {
    var ms := prism.CommonPrefixSearch(text);
    assert text[..|a|] == a && text[..|b|] == b;
    assert Match(prism.keys[a], |a|) in ms && Match(prism.keys[b], |b|) in ms;
    i :| 0 <= i < |ms| && ms[i] == Match(prism.keys[a], |a|);
    j :| 0 <= j < |ms| && ms[j] == Match(prism.keys[b], |b|);
  }

  lemma ShadowOverwrites(sy: Syllabifier, prism: Prism, a: string, b: string)
    requires a in prism.keys && b in prism.keys && |a| > 0 && Shadows(sy, a, b)
    ensures Overwrites(sy, prism, b[..1] + b, 1)
  {
    var input := b[..1] + b;
    assert input[1..] == b && b[..|a|] == a && b[..|b|] == b;
    var i, j := KeyIsMatch(prism, b, a, b);
    var ms := prism.CommonPrefixSearch(input[1..]);
    MatchesEndTogether(sy, input, prism, 1, i, j);
    forall k: nat | k < |ms|
      ensures IsLinkOf(sy, input, prism, 1, k, sy.LinkOf(input, prism, 1, ms[k]))
    {
      MatchGivesLink(sy, input, prism, 1, k);
    }
    LinkPerMatch(sy, input, prism, 1, |ms|);
    hide Prism.CommonPrefixSearch, Syllabifier.LinkOf, Syllabifier.LinksUpTo, IsLinkOf, Shadows;
    assert sy.LinksFrom(input, prism, 1)[i].end == sy.LinksFrom(input, prism, 1)[j].end;
  }

  /** Main result: an edge is overwritten for some input if and only if some key is another one
      followed by delimiters. */
  lemma OverwritesExactly(sy: Syllabifier, prism: Prism)
    ensures (exists input, pos :: Overwrites(sy, prism, input, pos)) <==> HasShadow(sy, prism)
  {
    if input, pos :| Overwrites(sy, prism, input, pos) { OverwritingNeedsShadow(sy, prism, input, pos); }
    if HasShadow(sy, prism) {
      var a, b :| a in prism.keys && b in prism.keys && |a| > 0 && Shadows(sy, a, b);
      ShadowOverwrites(sy, prism, a, b);
    }
  }

  // ----- links and edges of a clean prism -----

  lemma SameEndSameLink(sy: Syllabifier, input: string, prism: Prism, p: nat, k: Link, l: Link)
    requires Clean(sy, prism) && p <= |input|
    requires k in sy.LinksFrom(input, prism, p) && l in sy.LinksFrom(input, prism, p) && k.end == l.end
    ensures k == l
  {
    hide Clean, Prism.CommonPrefixSearch, Syllabifier.LinkOf, Syllabifier.LinksUpTo;
    var ms := prism.CommonPrefixSearch(input[p..]);
    LinksFromMatches(sy, input, prism, p, |ms|, k);
    LinksFromMatches(sy, input, prism, p, |ms|, l);
    var i :| 0 <= i < |ms| && IsLinkOf(sy, input, prism, p, i, k);
    var j :| 0 <= j < |ms| && IsLinkOf(sy, input, prism, p, j, l);
    if i < j { MatchesEndApart(sy, input, prism, p, i, j); }
    if j < i { MatchesEndApart(sy, input, prism, p, j, i); }
  }

  lemma CleanIsUnambiguous(sy: Syllabifier, input: string, prism: Prism)
    requires Clean(sy, prism)
    ensures sy.LatticeOf(input, prism).Unambiguous()
  {
    hide Clean, Syllabifier.LinksFrom, Attained;
    var lattice := sy.LatticeOf(input, prism);
    forall p, k, l | 0 <= p <= lattice.length && k in lattice.links[p] && l in lattice.links[p] && k.end == l.end
      ensures k == l
    {
      SameEndSameLink(sy, input, prism, p, k, l);
    }
    forall p, l | 0 <= p <= lattice.length && l in lattice.links[p]
      ensures Attained(l)
    {
      LinkIsAttained(sy, input, prism, p, l);
    }
  }

  lemma LinkIsAttained(sy: Syllabifier, input: string, prism: Prism, p: nat, l: Link)
    requires Clean(sy, prism) && p <= |input| && l in sy.LinksFrom(input, prism, p)
    ensures Attained(l)
    ensures forall s :: s in l.spellings ==> l.spellings[s].endPos == l.end
  {
    var ms := prism.CommonPrefixSearch(input[p..]);
    LinksFromMatches(sy, input, prism, p, |ms|, l);
    var i :| 0 <= i < |ms| && IsLinkOf(sy, input, prism, p, i, l);
    CollectedAttained(sy, input, p, l.end, prism.QuerySpelling(ms[i].value));
  }

  /** Main result: for a clean prism the graph between the passes meets everything the
      results on pruning ask for. */
  lemma BuiltFromForwardPass(sy: Syllabifier, input: string, prism: Prism, d: Draft)
    requires Clean(sy, prism) && sy.Built(input, prism, d)
    ensures FromForwardPass(sy.LatticeOf(input, prism), d)
  {
    CleanIsUnambiguous(sy, input, prism);
  }

  /** Every spelling on an edge says where the edge ends. */
  ghost predicate EndsMarked(edges: EdgeMap) {
    forall p, e, s :: p in edges && e in edges[p] && s in edges[p][e] ==> edges[p][e][s].endPos == e && p < e
  }

  lemma PrunedEndsMarked(sy: Syllabifier, input: string, prism: Prism, d: Draft)
    requires Clean(sy, prism) && sy.Built(input, prism, d)
    ensures EndsMarked(d.PrunedEdges())
  {
    var lattice := sy.LatticeOf(input, prism);
    BuiltFromForwardPass(sy, input, prism, d);
    forall p, e, s | p in d.PrunedEdges() && e in d.PrunedEdges()[p] && s in d.PrunedEdges()[p][e]
      ensures d.PrunedEdges()[p][e][s].endPos == e && p < e
    {
      var l := EdgeIsLink(lattice, d, p, e);
      LinkIsAttained(sy, input, prism, p, l);
    }
  }

  // ----- what the transposed graph lists -----

  lemma {:induction false} ListDownContents(endVertices: EndVertexMap, ends: set<int>, s: int)
    requires ends <= endVertices.Keys
    requires forall e :: e in endVertices && s in endVertices[e] ==> endVertices[e][s].endPos == e
    ensures forall p :: p in ListDown(endVertices, ends, s) <==>
              p.endPos in ends && s in endVertices[p.endPos] && p == endVertices[p.endPos][s]
    ensures forall i, j :: 0 <= i < j < |ListDown(endVertices, ends, s)| ==>
              ListDown(endVertices, ends, s)[j].endPos < ListDown(endVertices, ends, s)[i].endPos
    decreases |ends|
  {
    if |ends| > 0 {
      var e := Least(ends);
      ListDownContents(endVertices, ends - {e}, s);
      var before := ListDown(endVertices, ends - {e}, s);
      forall p
        ensures p in ListDown(endVertices, ends, s) <==>
                  p.endPos in ends && s in endVertices[p.endPos] && p == endVertices[p.endPos][s]
      {
        if s in endVertices[e] && p == endVertices[e][s] { assert p in ListDown(endVertices, ends, s); }
      }
      forall i | 0 <= i < |before|
        ensures e < before[i].endPos
      {
        assert before[i] in before;
      }
    }
  }

  /** Main result: the index lists, for each start and syllable, exactly the edges that carry
      the syllable, each once and the farthest first. */
  lemma TransposedExactly(edges: EdgeMap, start: nat, index: SpellingIndex, s: int)
    requires EndsMarked(edges) && start in edges && Indexes(index, edges[start], edges[start].Keys)
    ensures s in index <==> exists e :: e in edges[start] && s in edges[start][e]
    ensures s in index ==> forall p :: p in index[s] <==>
              p.endPos in edges[start] && s in edges[start][p.endPos] && p == edges[start][p.endPos][s]
    ensures s in index ==> forall i, j :: 0 <= i < j < |index[s]| ==> index[s][j].endPos < index[s][i].endPos
  {
    ListDownContents(edges[start], edges[start].Keys, s);
    var list := ListDown(edges[start], edges[start].Keys, s);
    if list != [] { assert list[0] in list; }
    if e :| e in edges[start] && s in edges[start][e] {
      assert edges[start][e][s] in list;
    }
  }

  // ----- ambiguous joints -----

  /** A surviving vertex where two surviving edges meet under a third, better than
      abbreviated one is an ambiguous joint; an unmarked vertex keeps the type of its best
      way. Marking never decides which vertices survive. */
  lemma JointsOfSurvivors(d: Draft, i: nat, m: nat, e: nat)
    requires d.Valid() && HasEdge(d.PrunedEdges(), i, m) && HasEdge(d.PrunedEdges(), m, e)
    requires HasEdge(d.PrunedEdges(), i, e) && exists s :: s in d.PrunedEdges()[i][e] && d.PrunedEdges()[i][e][s].kind < ABBREVIATION
    requires m < e
    ensures m in d.PrunedVertices() && d.PrunedVertices()[m] == AMBIGUOUS
  {
    assert d.KeepsEdge(i, m) && d.KeepsEdge(m, e) && d.KeepsEdge(i, e);
    assert d.Covers(i, m, e);
  }

  /** The edge has a syllable within the limit, no worse than `worst`, and leads to a vertex that is
      left. */
  ghost predicate StaysLinked(d: Draft, p: nat, e: nat, worst: SpellingType)
    requires d.Valid()
  {
    && p in d.edges && e in d.edges[p] && e in d.PrunedVertices()
    && exists s :: s in d.edges[p][e] && WithinLimit(d, d.edges[p][e][s].kind) && d.edges[p][e][s].kind <= worst
  }

  /** `m` lies under an edge from `i` to `e` that is fuzzy at worst, and joins two others. */
  ghost predicate Overlaps(d: Draft, i: nat, m: nat, e: nat)
    requires d.Valid()
  {
    i < d.farthest && m < e && StaysLinked(d, i, m, INVALID) && StaysLinked(d, m, e, INVALID) && StaysLinked(d, i, e, FUZZY)
  }

  lemma KeptIsLinked(d: Draft, p: nat, e: nat)
    requires d.Valid()
    ensures StaysLinked(d, p, e, INVALID) <==> d.KeepsEdge(p, e)
    ensures StaysLinked(d, p, e, FUZZY) <==> d.KeepsEdge(p, e) && BetterThanAbbreviated(d.Filtered(d.edges[p][e]))
  {
    hide Draft.Good;
    GoodIsIn(d, e);
    if d.KeepsEdge(p, e) {
      var s :| s in d.edges[p][e] && d.edges[p][e][s].kind <= d.Limit();
      assert WithinLimit(d, d.edges[p][e][s].kind);
      if t :| t in d.Filtered(d.edges[p][e]) && d.Filtered(d.edges[p][e])[t].kind < ABBREVIATION {
        assert t in d.edges[p][e] && WithinLimit(d, d.edges[p][e][t].kind) && d.edges[p][e][t].kind <= FUZZY;
      }
    }
    if StaysLinked(d, p, e, FUZZY) {
      var s :| s in d.edges[p][e] && WithinLimit(d, d.edges[p][e][s].kind) && d.edges[p][e][s].kind <= FUZZY;
      assert s in d.Filtered(d.edges[p][e]) && d.Filtered(d.edges[p][e])[s].kind < ABBREVIATION;
    }
  }

  lemma GoodIsIn(d: Draft, p: nat)
    requires d.Valid()
    ensures d.Good(p) <==> p in d.PrunedVertices()
  {
  }

  /** Main result: a vertex that is left is an ambiguous joint if it lies under an overlap, and else
      of the type of its best way. */
  lemma MarkedExactly(d: Draft, m: nat)
    requires d.Valid() && m in d.PrunedVertices()
    ensures d.PrunedVertices()[m] == if exists i: nat, e: nat :: Overlaps(d, i, m, e) then AMBIGUOUS else d.vertices[m]
  {
    forall i: nat, e: nat
      ensures Overlaps(d, i, m, e) <==> i < d.farthest && d.Covers(i, m, e)
    {
      KeptIsLinked(d, i, m);
      KeptIsLinked(d, m, e);
      KeptIsLinked(d, i, e);
      hide StaysLinked, Draft.KeepsEdge, BetterThanAbbreviated, Draft.PrunedVertices;
    }
    hide Overlaps, Draft.Covers, Draft.Good;
  }

  /** The overlap that marks `m` is one of the graph that is left. */
  ghost predicate MarkedBySurvivor(d: Draft, m: nat)
    requires d.Valid()
  {
    exists i: nat, e: nat :: i < d.farthest && d.Covers(i, m, e) && d.Good(i)
  }

  /** A mark comes from the graph that is left unless every overlap at the joint starts at a
      vertex that was reached only by spellings beyond the limit. */
  lemma MarksExactly(d: Draft, m: nat)
    requires d.Valid()
    ensures MarkedBySurvivor(d, m) <==>
              exists i: nat, e: nat :: i < d.farthest && d.Covers(i, m, e) && i in d.vertices && WithinLimit(d, d.vertices[i])
    ensures MarkedBySurvivor(d, m) ==> d.Marked(m)
  {
    if i: nat, e: nat :| i < d.farthest && d.Covers(i, m, e) && i in d.vertices && WithinLimit(d, d.vertices[i]) {
      assert i in d.edges && e in d.edges[i] && d.KeepsEdge(i, e);
      assert d.Good(i);
    }
  }
}
