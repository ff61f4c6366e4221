/** Inputs whose graphs are not what one would expect. */
module SyllableGraphExamples {
  import opened Spellings
  import opened Prisms
  import opened Lattices
  import opened Syllabification
  import opened SyllableGraphs

  // ----- a key that ends in a delimiter breaks the graph -----

  const N_EDGE := Link(2, map[0 := Properties(NORMAL, 2, 1.0, "")], NORMAL)
  const A_EDGE := Link(2, map[1 := Properties(ABBREVIATION, 2, 1.0, "")], ABBREVIATION)
  const QUOTED := Syllabifier("'", false, false)

  predicate IsQuotedPrism(prism: Prism) {
    && prism.keys == map["a" := 0, "a'" := 1]
    && prism.spellingMap == SpellingTable([[Descriptor(0, NORMAL, 1.0, "")], [Descriptor(1, ABBREVIATION, 1.0, "")]])
  }

  lemma QuotedMatches(prism: Prism)
    requires IsQuotedPrism(prism)
    ensures prism.CommonPrefixSearch("a'") == [Match(0, 1), Match(1, 2)]
  {
    var input := "a'";
    assert input[..1] == "a" && input[..2] == "a'";
    assert prism.PrefixesUpTo(input, 0) == [];
    assert prism.PrefixesUpTo(input, 1) == [Match(0, 1)];
  }

  lemma QuoteHasNoMatch(prism: Prism)
    requires IsQuotedPrism(prism)
    ensures prism.CommonPrefixSearch("'") == [] && prism.CommonPrefixSearch("") == []
  {
    assert "'"[..1] == "'";
    assert "'"[0] != "a"[0] && |"'"| != |"a'"|;
    assert "'" !in prism.keys && prism.PrefixesUpTo("'", 0) == [];
  }

  lemma QuotedLink(prism: Prism, m: Match)
    requires IsQuotedPrism(prism) && (m == Match(0, 1) || m == Match(1, 2))
    ensures QUOTED.LinkOf("a'", prism, 0, m) == if m == Match(0, 1) then N_EDGE else A_EDGE
  {
    var input := "a'";
    assert QUOTED.SkipDelimiters(input, 2) == 2 && QUOTED.SkipDelimiters(input, 1) == 2;
    var ds := prism.QuerySpelling(m.value);
    assert |ds| == 1 && ds[..0] == [];
    assert QUOTED.Collected(input, 0, 2, ds[..0]) == map[] && QUOTED.CollectedKind(input, 0, 2, ds[..0]) == INVALID;
  }

  lemma QuotedLinks(prism: Prism)
    requires IsQuotedPrism(prism)
    ensures QUOTED.LinksFrom("a'", prism, 0) == [N_EDGE, A_EDGE]
    ensures QUOTED.LinksFrom("a'", prism, 1) == [] && QUOTED.LinksFrom("a'", prism, 2) == []
  {
    var input := "a'";
    QuotedMatches(prism);
    QuoteHasNoMatch(prism);
    assert input[0..] == input && input[1..] == "'" && input[2..] == "";
    var ms := [Match(0, 1), Match(1, 2)];
    QuotedLink(prism, ms[0]);
    QuotedLink(prism, ms[1]);
    assert 0 in N_EDGE.spellings && 1 in A_EDGE.spellings;
    hide Syllabifier.LinkOf;
    assert QUOTED.LinksUpTo(input, prism, 0, 0) == [];
    assert QUOTED.LinksUpTo(input, prism, 0, 1) == [N_EDGE];
  }

  lemma OnlyThreeWays(lattice: Lattice, w: Way)
    requires lattice.length == 2 && |lattice.links| == 3
    requires lattice.links[0] == [N_EDGE, A_EDGE] && lattice.links[2] == []
    requires lattice.IsWay(w)
    ensures w == Origin || w == Hop(Origin, N_EDGE) || w == Hop(Origin, A_EDGE)
  {
    match w
    case Origin =>
    case Hop(v, l) => OnlyThreeWays(lattice, v);
  }

  lemma QuotedEdges()
    ensures EdgesOf([N_EDGE, A_EDGE]) == map[2 := A_EDGE.spellings]
  {
    assert [N_EDGE][..0] == [] && EdgesOf([N_EDGE]) == map[2 := N_EDGE.spellings];
    assert [N_EDGE, A_EDGE][..1] == [N_EDGE];
  }

  lemma QuotedExplored(lattice: Lattice, vertices: VertexMap, edges: EdgeMap)
    requires lattice.length == 2 && |lattice.links| == 3
    requires lattice.links[0] == [N_EDGE, A_EDGE] && lattice.links[1] == [] && lattice.links[2] == []
    requires vertices == map[0 := NORMAL, 2 := NORMAL] && edges == map[0 := map[2 := A_EDGE.spellings]]
    ensures lattice.Explored(vertices, edges, 2)
  {
    QuotedEdges();
    hide EdgesOf;
    forall w: Way | lattice.IsWay(w)
      ensures w.End() in vertices && vertices[w.End()] <= w.Worst()
    {
      OnlyThreeWays(lattice, w);
    }
    assert lattice.IsWay(Origin) && Origin.Worst() == NORMAL;
    assert lattice.IsWay(Hop(Origin, N_EDGE)) && Hop(Origin, N_EDGE).Worst() == NORMAL;
  }

  lemma QuotedDraft(d: Draft)
    requires d == Draft(map[0 := NORMAL, 2 := NORMAL], map[0 := map[2 := A_EDGE.spellings]], 2)
    ensures d.Valid() && 0 !in d.PrunedVertices()
  {
    assert d.Limit() == FUZZY && !d.Admits(A_EDGE.spellings);
    assert !d.Good(0);
  }

  /** With the keys "a" (spelt normally) and "a'" (an abbreviation) the start of "a'" does
      not survive: the edge of the second match overwrites that of the first. */
  lemma DelimiterKeyLosesStart(prism: Prism, d: Draft)
    requires IsQuotedPrism(prism)
    requires d == Draft(map[0 := NORMAL, 2 := NORMAL], map[0 := map[2 := A_EDGE.spellings]], 2)
    ensures QUOTED.Built("a'", prism, d) && 0 !in d.PrunedVertices()
  {
    hide Lattice.Explored, Draft.PrunedVertices, Draft.Valid, IsQuotedPrism, Syllabifier.LinksFrom, Syllabifier.LatticeOf;
    QuotedLinks(prism);
    QuotedExplored(QUOTED.LatticeOf("a'", prism), d.vertices, d.edges);
    QuotedDraft(d);
  }

  // ----- a dropped vertex marks a joint -----

  const PLAIN := Syllabifier("", false, false)

  /** The edge of key number `id`, spelt in one way. */
  function Key(id: int, end: nat, kind: SpellingType): Link {
    Link(end, map[id := Properties(kind, end, 1.0, "")], kind)
  }

  function KindOf(id: int): SpellingType {
    if id == 0 then ABBREVIATION else NORMAL
  }

  /** The keys "a", an abbreviation, and "ab", "b", "bc" and "c", which are spelt normally. */
  predicate IsAbcPrism(prism: Prism) {
    && prism.keys == map["a" := 0, "ab" := 1, "b" := 2, "bc" := 3, "c" := 4]
    && prism.spellingMap.SpellingTable? && |prism.spellingMap.items| == 5
    && forall id :: 0 <= id < 5 ==> prism.spellingMap.items[id] == [Descriptor(id, KindOf(id), 1.0, "")]
  }

  /** The first letter is a key, and so are the first two, but not all three. */
  lemma TwoMatches(prism: Prism, text: string)
    requires 2 <= |text| <= 3 && text[..1] in prism.keys && text[..2] in prism.keys && (|text| == 3 ==> text !in prism.keys)
    ensures prism.CommonPrefixSearch(text) == [Match(prism.keys[text[..1]], 1), Match(prism.keys[text[..2]], 2)]
  {
    assert |text| == 2 ==> text[..2] == text;
    assert |text| == 3 ==> text[..3] == text;
    assert prism.PrefixesUpTo(text, 1) == prism.PrefixesUpTo(text, 0) + [Match(prism.keys[text[..1]], 1)];
    assert prism.PrefixesUpTo(text, 2) == prism.PrefixesUpTo(text, 1) + [Match(prism.keys[text[..2]], 2)];
  }

  lemma AbcMatches(prism: Prism)
    requires IsAbcPrism(prism)
    ensures prism.CommonPrefixSearch("abc") == [Match(0, 1), Match(1, 2)]
    ensures prism.CommonPrefixSearch("bc") == [Match(2, 1), Match(3, 2)]
  {
    hide Prism.CommonPrefixSearch, Prism.PrefixesUpTo;
    var abc, bc := "abc", "bc";
    assert abc[..1] == "a" && abc[..2] == "ab" && bc[..1] == "b" && bc[..2] == "bc" && |abc| == 3;
    TwoMatches(prism, abc);
    TwoMatches(prism, bc);
  }

  lemma LastMatches(prism: Prism)
    requires IsAbcPrism(prism)
    ensures prism.CommonPrefixSearch("c") == [Match(4, 1)] && prism.CommonPrefixSearch("") == []
  {
    var c := "c";
    assert c[..1] == "c" && prism.PrefixesUpTo(c, 0) == [];
  }

  lemma AbcLink(prism: Prism, pos: nat, id: int, n: nat)
    requires IsAbcPrism(prism) && 0 <= id < 5 && 0 < n && pos + n <= 3
    ensures PLAIN.LinkOf("abc", prism, pos, Match(id, n)) == Key(id, pos + n, KindOf(id))
  {
    var ds := prism.QuerySpelling(id);
    assert PLAIN.SkipDelimiters("abc", pos + n) == pos + n;
    assert ds == [Descriptor(id, KindOf(id), 1.0, "")] && ds[..0] == [];
    assert PLAIN.Collected("abc", pos, pos + n, ds[..0]) == map[];
    assert PLAIN.CollectedKind("abc", pos, pos + n, ds[..0]) == INVALID;
  }

  /** The links of two matches. */
  lemma TwoLinks(prism: Prism, pos: nat, a: Match, b: Match)
    requires IsAbcPrism(prism) && pos <= 3 && prism.CommonPrefixSearch("abc"[pos..]) == [a, b]
    requires 0 < a.length && 0 < b.length && pos + a.length <= 3 && pos + b.length <= 3
    requires 0 <= a.value < 5 && 0 <= b.value < 5
    ensures PLAIN.LinksFrom("abc", prism, pos)
            == [Key(a.value, pos + a.length, KindOf(a.value)), Key(b.value, pos + b.length, KindOf(b.value))]
  {
    AbcLink(prism, pos, a.value, a.length);
    AbcLink(prism, pos, b.value, b.length);
    hide Syllabifier.LinkOf, Prism.CommonPrefixSearch, IsAbcPrism;
    var ka, kb := Key(a.value, pos + a.length, KindOf(a.value)), Key(b.value, pos + b.length, KindOf(b.value));
    assert a.value in ka.spellings && b.value in kb.spellings;
    assert PLAIN.LinksUpTo("abc", prism, pos, 0) == [];
    assert PLAIN.LinksUpTo("abc", prism, pos, 1) == [ka];
  }

  lemma LastLinks(prism: Prism)
    requires IsAbcPrism(prism)
    ensures PLAIN.LinksFrom("abc", prism, 2) == [Key(4, 3, NORMAL)] && PLAIN.LinksFrom("abc", prism, 3) == []
  {
    hide Syllabifier.LinkOf, Prism.CommonPrefixSearch, IsAbcPrism;
    LastMatches(prism);
    assert "abc"[2..] == "c" && "abc"[3..] == "";
    AbcLink(prism, 2, 4, 1);
    assert 4 in Key(4, 3, NORMAL).spellings;
    assert PLAIN.LinksUpTo("abc", prism, 2, 0) == [];
  }

  const ABC_0 := [Key(0, 1, ABBREVIATION), Key(1, 2, NORMAL)]
  const ABC_1 := [Key(2, 2, NORMAL), Key(3, 3, NORMAL)]
  const ABC_2 := [Key(4, 3, NORMAL)]

  ghost predicate IsAbcLattice(lattice: Lattice) {
    && lattice.length == 3 && |lattice.links| == 4
    && lattice.links[0] == ABC_0 && lattice.links[1] == ABC_1 && lattice.links[2] == ABC_2 && lattice.links[3] == []
  }

  lemma AbcLattice(prism: Prism)
    requires IsAbcPrism(prism)
    ensures IsAbcLattice(PLAIN.LatticeOf("abc", prism))
  {
    hide Syllabifier.LinksFrom, Syllabifier.LatticeOf, Prism.CommonPrefixSearch, IsAbcPrism, Key;
    FirstLinks(prism);
    LastLinks(prism);
  }

  lemma FirstLinks(prism: Prism)
    requires IsAbcPrism(prism)
    ensures PLAIN.LinksFrom("abc", prism, 0) == ABC_0 && PLAIN.LinksFrom("abc", prism, 1) == ABC_1
  {
    hide Syllabifier.LinksFrom, Prism.CommonPrefixSearch, IsAbcPrism, Key;
    AbcMatches(prism);
    assert "abc"[0..] == "abc" && "abc"[1..] == "bc";
    TwoLinks(prism, 0, Match(0, 1), Match(1, 2));
    TwoLinks(prism, 1, Match(2, 1), Match(3, 2));
  }

  const ABC_VERTICES: VertexMap := map[0 := NORMAL, 1 := ABBREVIATION, 2 := NORMAL, 3 := NORMAL]
  const ABC_EDGES: EdgeMap := map[
    0 := map[1 := Key(0, 1, ABBREVIATION).spellings, 2 := Key(1, 2, NORMAL).spellings],
    1 := map[2 := Key(2, 2, NORMAL).spellings, 3 := Key(3, 3, NORMAL).spellings],
    2 := map[3 := Key(4, 3, NORMAL).spellings]]
  const ABC_DRAFT := Draft(ABC_VERTICES, ABC_EDGES, 3)

  /** Position 1 is only reached by the abbreviation. */
  lemma {:induction false} AbcWay(lattice: Lattice, w: Way)
    requires IsAbcLattice(lattice) && lattice.IsWay(w)
    ensures w.End() <= 3 && (w.End() == 1 ==> w.Worst() >= ABBREVIATION)
  {
    match w
    case Origin =>
    case Hop(v, l) =>
      AbcWay(lattice, v);
      assert l in lattice.links[v.End()];
      assert v.End() == 0 || v.End() == 1 || v.End() == 2;
  }

  lemma AbcMinimax(lattice: Lattice)
    requires IsAbcLattice(lattice)
    ensures lattice.Minimax(ABC_VERTICES)
  {
    var a, ab := Hop(Origin, Key(0, 1, ABBREVIATION)), Hop(Origin, Key(1, 2, NORMAL));
    var abc := Hop(ab, Key(4, 3, NORMAL));
    assert lattice.IsWay(Origin) && Origin.End() == 0 && Origin.Worst() == NORMAL;
    assert ABC_0[0] == a.link && lattice.IsWay(a) && a.Worst() == ABBREVIATION;
    assert ABC_0[1] == ab.link && lattice.IsWay(ab) && ab.Worst() == NORMAL;
    assert ABC_2[0] == abc.link && lattice.IsWay(abc) && abc.Worst() == NORMAL;
    forall w: Way | lattice.IsWay(w)
      ensures w.End() in ABC_VERTICES && ABC_VERTICES[w.End()] <= w.Worst()
    {
      AbcWay(lattice, w);
    }
  }

  lemma OneEdge(l: Link)
    ensures EdgesOf([l]) == map[l.end := l.spellings]
  {
    var none: seq<Link> := [];
    assert EdgesOf(none) == map[] && [l][..0] == none;
    assert EdgesOf([l]) == EdgesOf([l][..0])[l.end := l.spellings];
  }

  lemma AbcEdges()
    ensures EdgesOf(ABC_0) == ABC_EDGES[0] && EdgesOf(ABC_1) == ABC_EDGES[1] && EdgesOf(ABC_2) == ABC_EDGES[2]
  {
    assert ABC_0[..1] == [ABC_0[0]] && ABC_1[..1] == [ABC_1[0]];
    assert [ABC_0[0]][..0] == [] && [ABC_1[0]][..0] == [] && ABC_2[..0] == [];
    OneEdge(ABC_0[0]);
    OneEdge(ABC_1[0]);
  }

  lemma AbcExplored(lattice: Lattice)
    requires IsAbcLattice(lattice)
    ensures lattice.Explored(ABC_VERTICES, ABC_EDGES, 3)
  {
    AbcMinimax(lattice);
    AbcEdges();
    hide EdgesOf, Lattice.Minimax, Key;
  }

  lemma AbcGood()
    ensures ABC_DRAFT.Valid() && ABC_DRAFT.Limit() == FUZZY
    ensures ABC_DRAFT.Good(3) && ABC_DRAFT.Good(2) && !ABC_DRAFT.Good(1)
  {
    AbcValid();
    var d := ABC_DRAFT;
    hide Draft.Valid;
    assert 4 in d.edges[2][3] && d.Admits(d.edges[2][3]) && d.Good(3);
  }

  lemma AbcValid()
    ensures ABC_DRAFT.Valid() && ABC_DRAFT.Limit() == FUZZY
  {
  }

  lemma AbcCovers()
    ensures ABC_DRAFT.Valid() && ABC_DRAFT.Covers(1, 2, 3)
    ensures !ABC_DRAFT.KeepsEdge(0, 3) && !ABC_DRAFT.KeepsEdge(0, 1)
  {
    var d := ABC_DRAFT;
    AbcGood();
    hide Draft.Good;
    assert 2 in d.edges[1][2] && 3 in d.edges[1][3] && 4 in d.edges[2][3];
    assert d.KeepsEdge(1, 2) && d.KeepsEdge(2, 3) && d.KeepsEdge(1, 3);
    assert 3 in d.Filtered(d.edges[1][3]) && d.Filtered(d.edges[1][3])[3].kind < ABBREVIATION;
  }

  /** Vertex 1 does not survive, and yet it is what marks vertex 2. */
  lemma AbcMarks()
    ensures var d := ABC_DRAFT;
            && d.Valid() && 1 !in d.PrunedVertices()
            && 2 in d.PrunedVertices() && d.PrunedVertices()[2] == AMBIGUOUS && !MarkedBySurvivor(d, 2)
  {
    var d := ABC_DRAFT;
    AbcGood();
    AbcCovers();
    hide Draft.Good;
    forall i: nat, e: nat | i < 3 && d.Covers(i, 2, e)
      ensures i == 1
    {
      assert d.KeepsEdge(i, 2) && d.KeepsEdge(2, e) && d.KeepsEdge(i, e);
    }
  }

  /** Marks do come from dropped vertices: "a" is only an abbreviation, so "abc" is not split
      behind it; yet the edge for "bc", which starts there, makes a joint of the vertex
      between "ab" and "c". */
  lemma DroppedVertexMarks(prism: Prism)
    requires IsAbcPrism(prism)
    ensures PLAIN.Built("abc", prism, ABC_DRAFT)
    ensures var d := ABC_DRAFT;
            && 1 !in d.PrunedVertices()
            && 2 in d.PrunedVertices() && d.PrunedVertices()[2] == AMBIGUOUS && !MarkedBySurvivor(d, 2)
  {
    AbcGood();
    AbcMarks();
    AbcLattice(prism);
    hide IsAbcPrism, Syllabifier.LatticeOf, Draft.PrunedVertices, MarkedBySurvivor, Lattice.Explored;
    AbcExplored(PLAIN.LatticeOf("abc", prism));
  }
}
