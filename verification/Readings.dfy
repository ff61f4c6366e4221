/** What can be read from an input: the syllables on the ways through it, and the graph as exactly
    what they amount to. */
module Readings {
  import opened Spellings
  import opened Prisms
  import opened ExpandSearches
  import opened Lattices
  import opened Pruning
  import opened Syllabification
  import opened SyllableGraphs
  import opened KeyLinks
  import opened Completions
  import opened DictCompilers

  // ----- keys in the input -----

  /** The input from `p` on is a key for the syllable, and delimiters up to `e`. */
  ghost predicate Typed(sy: Syllabifier, prism: Prism, input: string, p: nat, e: nat, id: int) {
    exists len: nat :: TypedKey(sy, prism, input, p, len, e, id)
  }

  ghost predicate TypedKey(sy: Syllabifier, prism: Prism, input: string, p: nat, len: nat, e: nat, id: int) {
    0 < len && p + len <= |input| && Tells(prism, input[p..p + len], id) && DelimitersEnd(sy, input, p + len, e)
  }

  /** All of the input from `p` on begins a key for the syllable. */
  ghost predicate Begun(prism: Prism, input: string, p: nat, id: int) {
    p < |input| && exists key :: input[p..] <= key && Tells(prism, key, id)
  }

  /** The syllable can be read from `p` to `e`; the last one may still be incomplete. */
  ghost predicate Piece(sy: Syllabifier, prism: Prism, input: string, p: nat, e: nat, id: int) {
    Typed(sy, prism, input, p, e, id) || (sy.enableCompletion && e == |input| && Begun(prism, input, p, id))
  }

  lemma LinkIsTyped(sy: Syllabifier, prism: Prism, input: string, p: nat, l: Link, id: int)
    requires IsLink(sy, prism, input, p, l) && id in l.spellings
    ensures p < l.end <= |input| && Typed(sy, prism, input, p, l.end, id)
  {
    var len: nat :| SpelledBy(sy, prism, input, p, len, l);
    var ds := prism.QuerySpelling(prism.keys[input[p..p + len]]);
    hide Prism.QuerySpelling;
    assert ListsOne(sy, input, p, l.end, ds, l.spellings, id);
    var j: nat :| Names(sy, input, p, l.end, ds, j, id);
    assert TypedKey(sy, prism, input, p, len, l.end, id);
  }

  /** A completion edge reads the beginning of a key. */
  lemma CompletionIsBegun(sy: Syllabifier, prism: Prism, input: string, farthest: nat, id: int)
    requires prism.Valid() && farthest < |input| && forall k :: k in prism.Hits(input[farthest..]) ==> k in prism.keys
    ensures var edge := sy.CompletionEdge(input, prism, farthest);
            && (id in edge <==> Completes(prism, input[farthest..], id))
            && (id in edge ==> Begun(prism, input, farthest, id) && edge[id].endPos == |input| && edge[id].kind == COMPLETION)
  {
    CompletionExactly(sy, input, prism, farthest, id);
    hide Syllabifier.CompletionEdge, Prism.Hits, Prism.Valid, OffersFirst;
    var rest := input[farthest..];
    if Completes(prism, rest, id) {
      var keys := Truncated(prism.Hits(rest), EXPAND_SEARCH_LIMIT);
      var i: nat, j: nat :| Offers(prism, keys, i, j, id);
      assert keys[i] in prism.Hits(rest) && Tells(prism, keys[i], id);
    }
  }

  // ----- what ways through the input read -----

  predicate UsesLink(w: Way, p: nat, l: Link) {
    match w
    case Origin => false
    case Hop(v, k) => (v.End() == p && k == l) || UsesLink(v, p, l)
  }

  /** The way leads as far as any, and is no worse than another that does, unless it is at least
      fuzzy. */
  ghost predicate Leading(sy: Syllabifier, prism: Prism, input: string, w: Way) {
    && IsKeyWay(sy, prism, input, w)
    && forall o: Way :: IsKeyWay(sy, prism, input, o) ==>
         o.End() <= w.End() && (o.End() == w.End() ==> w.Worst() <= Worse(o.Worst(), FUZZY))
  }

  /** A type no worse than fuzzy, or than the best of the ways that lead as far. */
  ghost predicate Admitted(sy: Syllabifier, prism: Prism, input: string, w: Way, kind: SpellingType) {
    forall o: Way :: IsKeyWay(sy, prism, input, o) && o.End() == w.End() ==> kind <= Worse(o.Worst(), FUZZY)
  }

  predicate IsSyllable(l: Link, id: int, kind: SpellingType) {
    id in l.spellings && l.spellings[id].kind == kind
  }

  /** A leading way reads the syllable, by a key, from `p` to `e`. */
  ghost predicate KeySyllable(sy: Syllabifier, prism: Prism, input: string, p: nat, e: nat, id: int, kind: SpellingType) {
    exists w, l :: Leading(sy, prism, input, w) && UsesLink(w, p, l) && l.end == e && IsSyllable(l, id, kind)
                   && Admitted(sy, prism, input, w, kind)
  }

  ghost predicate LeadsTo(sy: Syllabifier, prism: Prism, input: string, p: nat) {
    exists w :: Leading(sy, prism, input, w) && w.End() == p
  }

  /** A leading way ends at `p`, and the rest of the input begins a key of the syllable. */
  ghost predicate CompletedSyllable(sy: Syllabifier, prism: Prism, input: string, p: nat, e: nat, id: int, kind: SpellingType) {
    && sy.enableCompletion && LeadsTo(sy, prism, input, p) && p < |input| && e == |input| && kind == COMPLETION
    && Completes(prism, input[p..], id)
  }

  ghost predicate SyllableAs(sy: Syllabifier, prism: Prism, input: string, p: nat, e: nat, id: int, kind: SpellingType) {
    KeySyllable(sy, prism, input, p, e, id, kind) || CompletedSyllable(sy, prism, input, p, e, id, kind)
  }

  ghost predicate SyllableAt(sy: Syllabifier, prism: Prism, input: string, p: nat, e: nat, id: int) {
    exists kind: SpellingType :: SyllableAs(sy, prism, input, p, e, id, kind)
  }

  /** The code can be read from `pos` to `end`, syllable by syllable. */
  ghost predicate Reads(sy: Syllabifier, prism: Prism, input: string, pos: nat, code: seq<int>, end: nat)
    decreases |code|
  {
    if |code| == 0 then pos == end
    else exists mid: nat :: SyllableAt(sy, prism, input, pos, mid, code[0]) && Reads(sy, prism, input, mid, code[1..], end)
  }

  lemma {:induction false} ReadsOn(sy: Syllabifier, prism: Prism, input: string, pos: nat, a: seq<int>, mid: nat, b: seq<int>, end: nat)
    requires Reads(sy, prism, input, pos, a, mid) && Reads(sy, prism, input, mid, b, end)
    ensures Reads(sy, prism, input, pos, a + b, end)
    decreases |a|
  {
    hide SyllableAt;
    if |a| == 0 {
      assert a + b == b;
    } else {
      var next: nat :| SyllableAt(sy, prism, input, pos, next, a[0]) && Reads(sy, prism, input, next, a[1..], mid);
      ReadsOn(sy, prism, input, next, a[1..], mid, b, end);
      assert (a + b)[1..] == a[1..] + b;
    }
  }

  lemma ReadsOne(sy: Syllabifier, prism: Prism, input: string, pos: nat, id: int, end: nat)
    requires SyllableAt(sy, prism, input, pos, end, id)
    ensures Reads(sy, prism, input, pos, [id], end)
  {
    hide SyllableAt;
    assert Reads(sy, prism, input, end, [id][1..], end);
  }

  // ----- what the user dictionary reads -----

  /** The user dictionary follows an edge if it is better than abbreviated, or the farthest that
      reads the syllable. */
  ghost predicate UserSyllable(sy: Syllabifier, prism: Prism, input: string, p: nat, e: nat, id: int) {
    exists kind: SpellingType :: SyllableAs(sy, prism, input, p, e, id, kind)
                   && (kind < ABBREVIATION || forall f: nat :: f > e ==> !SyllableAt(sy, prism, input, p, f, id))
  }

  ghost predicate UserReads(sy: Syllabifier, prism: Prism, input: string, pos: nat, code: seq<int>, end: nat)
    decreases |code|
  {
    if |code| == 0 then pos == end
    else exists mid: nat :: UserSyllable(sy, prism, input, pos, mid, code[0]) && UserReads(sy, prism, input, mid, code[1..], end)
  }

  // ----- what is read are keys -----

  lemma {:induction false} UsedKey(sy: Syllabifier, prism: Prism, input: string, w: Way, p: nat, l: Link)
    requires IsKeyWay(sy, prism, input, w) && UsesLink(w, p, l)
    ensures IsLink(sy, prism, input, p, l)
  {
    hide IsLink;
    match w
    case Origin =>
    case Hop(v, k) => if !(v.End() == p && k == l) { UsedKey(sy, prism, input, v, p, l); }
  }

  lemma {:induction false} UsedLink(lattice: Lattice, w: Way, p: nat, l: Link)
    requires lattice.Forward() && lattice.IsWay(w) && UsesLink(w, p, l)
    ensures p <= lattice.length && l in lattice.links[p] && Uses(w, p, l.end)
  {
    match w
    case Origin =>
    case Hop(v, k) => if !(v.End() == p && k == l) { UsedLink(lattice, v, p, l); }
  }

  /** Main result: what is read at a place is a key and the delimiters after it, or the beginning of
      a key at the end of the input. */
  lemma SyllableIsPiece(sy: Syllabifier, prism: Prism, input: string, p: nat, e: nat, id: int)
    requires prism.Valid() && SyllableAt(sy, prism, input, p, e, id)
    ensures p < e <= |input| && Piece(sy, prism, input, p, e, id)
  {
    var kind: SpellingType :| SyllableAs(sy, prism, input, p, e, id, kind);
    hide Syllabifier.LinksFrom, Syllabifier.CompletionEdge, Typed, Begun;
    if KeySyllable(sy, prism, input, p, e, id, kind) {
      var w, l :| Leading(sy, prism, input, w) && UsesLink(w, p, l) && l.end == e && IsSyllable(l, id, kind)
                  && Admitted(sy, prism, input, w, kind);
      UsedKey(sy, prism, input, w, p, l);
      hide IsLink;
      LinkIsTyped(sy, prism, input, p, l, id);
    } else {
      HitsAreKeys(prism, input[p..]);
      CompletionIsBegun(sy, prism, input, p, id);
    }
  }

  // ----- what the edges of the graph tell -----

  ghost predicate HasSyllable(edges: EdgeMap, p: nat, e: nat, id: int) {
    p in edges && e in edges[p] && id in edges[p][e]
  }

  /** The edges of a graph lead forward, and are what can be read. */
  ghost predicate Exact(sy: Syllabifier, prism: Prism, input: string, edges: EdgeMap, reached: nat) {
    && EndsMarked(edges) && NoDeadEnds(edges, reached) && reached <= |input|
    && forall p: nat, e: nat, id, kind: SpellingType :: IsExactAt(sy, prism, input, edges, reached, p, e, id, kind)
  }

  /** Every place short of the end of the graph is left by some syllable. */
  ghost predicate NoDeadEnds(edges: EdgeMap, reached: nat) {
    forall p: nat :: p in edges && p < reached ==> exists e, id :: HasSyllable(edges, p, e, id)
  }

  ghost predicate IsExactAt(sy: Syllabifier, prism: Prism, input: string, edges: EdgeMap, reached: nat,
                            p: nat, e: nat, id: int, kind: SpellingType) {
    && (HasSyllable(edges, p, e, id) ==> p < e <= reached)
    && (HasSyllable(edges, p, e, id) && edges[p][e][id].kind == kind <==> SyllableAs(sy, prism, input, p, e, id, kind))
  }

  /** The edges carry exactly the syllables that can be read. */
  lemma HasWhatIsRead(sy: Syllabifier, prism: Prism, input: string, edges: EdgeMap, reached: nat, p: nat, e: nat, id: int)
    requires Exact(sy, prism, input, edges, reached)
    ensures HasSyllable(edges, p, e, id) <==> SyllableAt(sy, prism, input, p, e, id)
    ensures HasSyllable(edges, p, e, id) ==> p < e <= reached && SyllableAs(sy, prism, input, p, e, id, edges[p][e][id].kind)
  {
    hide SyllableAs, EndsMarked, NoDeadEnds;
    if HasSyllable(edges, p, e, id) { assert IsExactAt(sy, prism, input, edges, reached, p, e, id, edges[p][e][id].kind); }
    if kind: SpellingType :| SyllableAs(sy, prism, input, p, e, id, kind) { assert IsExactAt(sy, prism, input, edges, reached, p, e, id, kind); }
  }

  // ----- the graph is exactly what is read -----

  /** The same of a lattice. */
  ghost predicate LeadingIn(lattice: Lattice, w: Way)
    requires |lattice.links| == lattice.length + 1
  {
    && lattice.IsWay(w)
    && forall o: Way :: lattice.IsWay(o) ==> o.End() <= w.End() && (o.End() == w.End() ==> w.Worst() <= Worse(o.Worst(), FUZZY))
  }

  ghost predicate AdmittedIn(lattice: Lattice, w: Way, kind: SpellingType)
    requires |lattice.links| == lattice.length + 1
  {
    forall o: Way :: lattice.IsWay(o) && o.End() == w.End() ==> kind <= Worse(o.Worst(), FUZZY)
  }

  /** The lattice that the forward pass goes by has exactly the ways that keys spell. */
  lemma LeadingAlike(sy: Syllabifier, prism: Prism, input: string, w: Way, kind: SpellingType)
    ensures var lattice := sy.LatticeOf(input, prism);
            && (Leading(sy, prism, input, w) <==> LeadingIn(lattice, w))
            && (Admitted(sy, prism, input, w, kind) <==> AdmittedIn(lattice, w, kind))
  {
    var lattice := sy.LatticeOf(input, prism);
    hide Syllabifier.LatticeOf, IsKeyWay, Lattice.IsWay;
    forall o: Way
      ensures lattice.IsWay(o) <==> IsKeyWay(sy, prism, input, o)
    {
      WaysExactly(sy, prism, input, o);
    }
  }

  /** The way `b` is a best one to the farthest position. */
  ghost predicate IsBestWay(lattice: Lattice, b: Way)
    requires |lattice.links| == lattice.length + 1
  {
    lattice.IsWay(b) && forall o: Way :: lattice.IsWay(o) ==> o.End() <= b.End() && (o.End() == b.End() ==> b.Worst() <= o.Worst())
  }

  lemma BestWayIs(lattice: Lattice, d: Draft) returns (b: Way)
    requires FromForwardPass(lattice, d)
    ensures IsBestWay(lattice, b) && b.End() == d.farthest && d.Limit() == Worse(b.Worst(), FUZZY)
  {
    b :| lattice.IsWay(b) && b.End() == d.farthest && b.Worst() == d.vertices[d.farthest];
  }

  lemma LeadingIsWithin(lattice: Lattice, b: Way, w: Way, kind: SpellingType)
    requires |lattice.links| == lattice.length + 1 && IsBestWay(lattice, b)
    ensures LeadingIn(lattice, w) <==> lattice.IsWay(w) && w.End() == b.End() && w.Worst() <= Worse(b.Worst(), FUZZY)
    ensures w.End() == b.End() ==> (AdmittedIn(lattice, w, kind) <==> kind <= Worse(b.Worst(), FUZZY))
  {
    hide Lattice.IsWay;
  }

  /** The limit of the graph between the passes is that of the leading ways. */
  lemma LeadingIsFavoured(lattice: Lattice, d: Draft, w: Way, kind: SpellingType)
    requires FromForwardPass(lattice, d)
    ensures LeadingIn(lattice, w) <==> Favoured(lattice, d, w)
    ensures LeadingIn(lattice, w) ==> w.End() == d.farthest && (AdmittedIn(lattice, w, kind) <==> kind <= d.Limit())
  {
    var b := BestWayIs(lattice, d);
    LeadingIsWithin(lattice, b, w, kind);
    hide LeadingIn, AdmittedIn, Lattice.IsWay, IsBestWay;
  }

  lemma {:induction false} StartsWithLink(x: Way, w: Way, p: nat, l: Link)
    requires StartsWith(x, w) && UsesLink(w, p, l)
    ensures UsesLink(x, p, l)
  {
    if x != w { StartsWithLink(x.way, w, p, l); }
  }

  /** A syllable on a surviving edge is read by a leading way. */
  lemma PrunedIsRead(sy: Syllabifier, prism: Prism, input: string, d: Draft, p: nat, e: nat, id: int)
    requires Clean(sy, prism) && sy.Built(input, prism, d) && HasSyllable(d.PrunedEdges(), p, e, id)
    ensures KeySyllable(sy, prism, input, p, e, id, d.PrunedEdges()[p][e][id].kind)
  {
    var lattice := sy.LatticeOf(input, prism);
    BuiltFromForwardPass(sy, input, prism, d);
    var kind := d.PrunedEdges()[p][e][id].kind;
    var l := EdgeIsLink(lattice, d, p, e);
    var w := BestWay(lattice, d, p);
    hide Syllabifier.LatticeOf, Syllabifier.Built, FromForwardPass;
    var x := ExtendedBy(lattice, d, w, l);
    LeadingIsFavoured(lattice, d, x, kind);
    LeadingAlike(sy, prism, input, x, kind);
    assert IsSyllable(l, id, kind);
  }

  lemma ExtendedBy(lattice: Lattice, d: Draft, w: Way, l: Link) returns (x: Way)
    requires FromForwardPass(lattice, d) && lattice.IsWay(w) && w.End() <= lattice.length && l in lattice.links[w.End()]
    requires w.Worst() <= d.Limit() && l.kind <= d.Limit() && d.Good(l.end)
    ensures Favoured(lattice, d, x) && UsesLink(x, w.End(), l)
  {
    hide FromForwardPass;
    var hop := Hop(w, l);
    x := Extend(lattice, d, hop);
    StartsWithLink(x, hop, w.End(), l);
  }

  /** A syllable that a leading way reads is on a surviving edge. */
  lemma ReadIsPruned(sy: Syllabifier, prism: Prism, input: string, d: Draft, p: nat, e: nat, id: int, kind: SpellingType)
    requires Clean(sy, prism) && sy.Built(input, prism, d) && KeySyllable(sy, prism, input, p, e, id, kind)
    ensures HasSyllable(d.PrunedEdges(), p, e, id) && d.PrunedEdges()[p][e][id].kind == kind
  {
    var lattice := sy.LatticeOf(input, prism);
    BuiltFromForwardPass(sy, input, prism, d);
    var w, l :| Leading(sy, prism, input, w) && UsesLink(w, p, l) && l.end == e && IsSyllable(l, id, kind)
                && Admitted(sy, prism, input, w, kind);
    LeadingAlike(sy, prism, input, w, kind);
    hide Leading, Admitted;
    UsedLink(lattice, w, p, l);
    LeadingIsFavoured(lattice, d, w, kind);
    hide Syllabifier.LatticeOf, Syllabifier.Built;
    LinkIsKept(lattice, d, w, p, l, id);
  }

  lemma LinkIsKept(lattice: Lattice, d: Draft, w: Way, p: nat, l: Link, id: int)
    requires FromForwardPass(lattice, d) && Favoured(lattice, d, w) && Uses(w, p, l.end)
    requires p <= lattice.length && l in lattice.links[p] && id in l.spellings && l.spellings[id].kind <= d.Limit()
    ensures HasSyllable(d.PrunedEdges(), p, l.end, id) && d.PrunedEdges()[p][l.end][id] == l.spellings[id]
  {
    GoodAlong(lattice, d, w);
    assert d.Good(p) && d.KeepsEdge(p, l.end);
    LinkLeavesEdge(lattice, d, p, l);
  }

  lemma PrunedIsExact(sy: Syllabifier, prism: Prism, input: string, d: Draft, p: nat, e: nat, id: int, kind: SpellingType)
    requires Clean(sy, prism) && sy.Built(input, prism, d)
    ensures HasSyllable(d.PrunedEdges(), p, e, id) && d.PrunedEdges()[p][e][id].kind == kind
            <==> KeySyllable(sy, prism, input, p, e, id, kind)
    ensures HasSyllable(d.PrunedEdges(), p, e, id) ==> p < e <= d.farthest
  {
    hide Clean, Syllabifier.LatticeOf;
    if HasSyllable(d.PrunedEdges(), p, e, id) { PrunedIsRead(sy, prism, input, d, p, e, id); }
    if KeySyllable(sy, prism, input, p, e, id, kind) { ReadIsPruned(sy, prism, input, d, p, e, id, kind); }
  }

  lemma FarthestIsLed(sy: Syllabifier, prism: Prism, input: string, d: Draft, p: nat)
    requires Clean(sy, prism) && sy.Built(input, prism, d)
    ensures LeadsTo(sy, prism, input, p) <==> p == d.farthest
  {
    var lattice := sy.LatticeOf(input, prism);
    BuiltFromForwardPass(sy, input, prism, d);
    hide Leading, Admitted, Syllabifier.LatticeOf;
    if w :| Leading(sy, prism, input, w) && w.End() == p {
      LeadingAlike(sy, prism, input, w, NORMAL);
      LeadingIsFavoured(lattice, d, w, NORMAL);
    }
    if p == d.farthest {
      var w := BestWay(lattice, d, p);
      LeadingIsFavoured(lattice, d, w, NORMAL);
      LeadingAlike(sy, prism, input, w, NORMAL);
    }
  }

  /** What completion makes of the edges: those there were, and one more, unless it is empty. */
  lemma CompletedEdges(before: EdgeMap, farthest: nat, end: nat, completion: SpellingMap, after: EdgeMap, p: nat, e: nat, id: int)
    requires forall e, id :: !HasSyllable(before, farthest, e, id)
    requires if completion == map[] then after == before || after == before[farthest := map[]]
             else after == before[farthest := map[end := completion]]
    ensures HasSyllable(after, p, e, id) <==> HasSyllable(before, p, e, id) || (p == farthest && e == end && id in completion)
    ensures HasSyllable(before, p, e, id) ==> HasSyllable(after, p, e, id) && after[p][e][id] == before[p][e][id]
    ensures p == farthest && e == end && id in completion ==> HasSyllable(after, p, e, id) && after[p][e][id] == completion[id]
  {
  }

  /** One edge of a graph with a completion. */
  lemma CompletedIsExact(sy: Syllabifier, prism: Prism, input: string, d: Draft, reached: nat, edges: EdgeMap, p: nat, e: nat, id: int)
    requires prism.Valid() && Clean(sy, prism) && sy.Built(input, prism, d) && d.farthest < |input| && sy.enableCompletion
    requires sy.EdgesBuilt(input, prism, d, reached, edges)
    ensures var completed := CompletedSyllable(sy, prism, input, p, e, id, COMPLETION);
            && (HasSyllable(edges, p, e, id) <==> HasSyllable(d.PrunedEdges(), p, e, id) || completed)
            && (HasSyllable(d.PrunedEdges(), p, e, id) ==> !completed && edges[p][e][id] == d.PrunedEdges()[p][e][id])
            && (completed ==> p < e <= reached && edges[p][e][id].kind == COMPLETION && edges[p][e][id].endPos == e)
    ensures d.farthest <= reached <= |input|
  {
    forall e: nat, id
      ensures !HasSyllable(d.PrunedEdges(), d.farthest, e, id)
    {
      PrunedIsExact(sy, prism, input, d, d.farthest, e, id, NORMAL);
    }
    FarthestIsLed(sy, prism, input, d, p);
    HitsAreKeys(prism, input[d.farthest..]);
    var completion := sy.CompletionEdge(input, prism, d.farthest);
    CompletionIsBegun(sy, prism, input, d.farthest, id);
    hide Clean, Syllabifier.Built, LeadsTo, Draft.PrunedEdges, Syllabifier.CompletionEdge, Begun, HasSyllable;
    CompletedEdges(d.PrunedEdges(), d.farthest, |input|, completion, edges, p, e, id);
  }

  /** One edge of the finished graph. */
  lemma EdgeIsExact(sy: Syllabifier, prism: Prism, input: string, d: Draft, reached: nat, edges: EdgeMap, p: nat, e: nat, id: int, kind: SpellingType)
    requires prism.Valid() && Clean(sy, prism) && sy.Built(input, prism, d) && d.farthest <= |input|
    requires sy.EdgesBuilt(input, prism, d, reached, edges)
    ensures HasSyllable(edges, p, e, id) && edges[p][e][id].kind == kind <==> SyllableAs(sy, prism, input, p, e, id, kind)
    ensures HasSyllable(edges, p, e, id) ==> p < e <= reached <= |input| && edges[p][e][id].endPos == e
  {
    PrunedIsExact(sy, prism, input, d, p, e, id, kind);
    PrunedEndsMarked(sy, input, prism, d);
    if sy.enableCompletion && d.farthest < |input| {
      CompletedIsExact(sy, prism, input, d, reached, edges, p, e, id);
      hide Clean, Syllabifier.Built, Syllabifier.EdgesBuilt, KeySyllable, LeadsTo, Draft.PrunedEdges, Syllabifier.CompletionEdge;
      assert CompletedSyllable(sy, prism, input, p, e, id, kind)
             <==> kind == COMPLETION && CompletedSyllable(sy, prism, input, p, e, id, COMPLETION);
      hide CompletedSyllable;
    } else {
      FarthestIsLed(sy, prism, input, d, p);
      hide Clean, Syllabifier.Built, KeySyllable, LeadsTo, Draft.PrunedEdges, Syllabifier.CompletionEdge;
    }
  }

  lemma ReachedWithin(sy: Syllabifier, prism: Prism, input: string, d: Draft, reached: nat, edges: EdgeMap)
    requires d.Valid() && d.farthest <= |input| && sy.EdgesBuilt(input, prism, d, reached, edges)
    ensures reached <= |input|
  {
    hide Syllabifier.CompletionEdge, Draft.PrunedEdges;
  }

  /** Main result on the graph: its edges are exactly the syllables that can be read. */
  lemma GraphIsExact(sy: Syllabifier, prism: Prism, input: string, d: Draft, reached: nat, edges: EdgeMap)
    requires prism.Valid() && Clean(sy, prism) && sy.Built(input, prism, d) && d.farthest <= |input|
    requires sy.EdgesBuilt(input, prism, d, reached, edges)
    ensures Exact(sy, prism, input, edges, reached)
  {
    ReachedWithin(sy, prism, input, d, reached, edges);
    hide Clean, Syllabifier.Built, SyllableAs, Syllabifier.EdgesBuilt, Prism.Valid, IsExactAt, EndsMarked, NoDeadEnds;
    EdgesEndMarked(sy, prism, input, d, reached, edges);
    EdgesGoOn(sy, prism, input, d, reached, edges);
    forall p: nat, e: nat, id, kind
      ensures IsExactAt(sy, prism, input, edges, reached, p, e, id, kind)
    {
      EdgeIsExactAt(sy, prism, input, d, reached, edges, p, e, id, kind);
    }
  }

  lemma EdgeIsExactAt(sy: Syllabifier, prism: Prism, input: string, d: Draft, reached: nat, edges: EdgeMap, p: nat, e: nat, id: int, kind: SpellingType)
    requires prism.Valid() && Clean(sy, prism) && sy.Built(input, prism, d) && d.farthest <= |input|
    requires sy.EdgesBuilt(input, prism, d, reached, edges)
    ensures IsExactAt(sy, prism, input, edges, reached, p, e, id, kind)
  {
    EdgeIsExact(sy, prism, input, d, reached, edges, p, e, id, kind);
    hide Clean, Syllabifier.Built, SyllableAs, Syllabifier.EdgesBuilt;
  }

  /** A surviving vertex before the farthest one keeps an edge. */
  lemma PrunedGoOn(d: Draft, p: nat)
    requires d.Valid() && p in d.PrunedEdges() && p < d.farthest
    ensures exists e, id :: HasSyllable(d.PrunedEdges(), p, e, id)
  {
    var e :| e in d.edges[p] && d.Admits(d.edges[p][e]) && d.Good(e);
    var id :| id in d.edges[p][e] && d.edges[p][e][id].kind <= d.Limit();
    assert d.KeepsEdge(p, e);
    assert HasSyllable(d.PrunedEdges(), p, e, id);
  }

  lemma EdgesGoOn(sy: Syllabifier, prism: Prism, input: string, d: Draft, reached: nat, edges: EdgeMap)
    requires d.Valid() && d.farthest <= |input| && sy.EdgesBuilt(input, prism, d, reached, edges)
    ensures NoDeadEnds(edges, reached)
  {
    hide Draft.PrunedEdges, Syllabifier.CompletionEdge;
    forall p: nat | p in edges && p < reached
      ensures exists e, id :: HasSyllable(edges, p, e, id)
    {
      if p < d.farthest {
        PrunedGoOn(d, p);
        var e, id :| HasSyllable(d.PrunedEdges(), p, e, id);
        assert HasSyllable(edges, p, e, id);
      } else if p == d.farthest {
        var completion := sy.CompletionEdge(input, prism, p);
        NoneLeads(completion);
        var id :| id in completion;
        assert HasSyllable(edges, p, |input|, id);
      } else {
        PrunedWithin(d, p);
      }
    }
  }

  lemma NoneLeads(m: SpellingMap)
    ensures (forall id :: id !in m) ==> m == map[]
  {
    if forall id :: id !in m { assert m.Keys == {}; }
  }

  lemma PrunedWithin(d: Draft, p: nat)
    requires d.Valid()
    ensures p in d.PrunedEdges() ==> p <= d.farthest
  {
  }

  lemma EdgesEndMarked(sy: Syllabifier, prism: Prism, input: string, d: Draft, reached: nat, edges: EdgeMap)
    requires prism.Valid() && Clean(sy, prism) && sy.Built(input, prism, d) && d.farthest <= |input|
    requires sy.EdgesBuilt(input, prism, d, reached, edges)
    ensures EndsMarked(edges)
  {
    hide Clean, Syllabifier.Built, SyllableAs, Syllabifier.EdgesBuilt, Prism.Valid;
    forall p, e, s | p in edges && e in edges[p] && s in edges[p][e]
      ensures edges[p][e][s].endPos == e && p < e
    {
      EdgeIsExact(sy, prism, input, d, reached, edges, p, e, s, NORMAL);
    }
  }
}
