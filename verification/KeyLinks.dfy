/** What the keys of a prism spell in an input: told by keys, delimiters and descriptors, not by how
    they are gone through. */
module KeyLinks {
  import opened Spellings
  import opened Prisms
  import opened Lattices
  import opened Syllabification
  import opened SyllableGraphs

  // ----- the descriptors of a match -----

  /** Descriptor `j` counts: with strict spelling, one that is not normal does not if the match is the
      whole input. */
  ghost predicate Counts(sy: Syllabifier, input: string, pos: nat, end: nat, ds: seq<Descriptor>, j: nat) {
    j < |ds| && !(sy.strictSpelling && pos == 0 && end == |input| && ds[j].kind != NORMAL)
  }

  /** It counts for the syllable. */
  ghost predicate Names(sy: Syllabifier, input: string, pos: nat, end: nat, ds: seq<Descriptor>, j: nat, id: int) {
    Counts(sy, input, pos, end, ds, j) && ds[j].syllableId == id
  }

  /** Descriptor `j` counts for the syllable, and none before it does. */
  ghost predicate NamesFirst(sy: Syllabifier, input: string, pos: nat, end: nat, ds: seq<Descriptor>, j: nat, id: int) {
    && Names(sy, input, pos, end, ds, j, id)
    && forall h: nat :: h < j ==> !Names(sy, input, pos, end, ds, h, id)
  }

  /** A link lists exactly the syllables for which a descriptor counts, as the first of them tells. */
  ghost predicate Lists(sy: Syllabifier, input: string, pos: nat, end: nat, ds: seq<Descriptor>, m: SpellingMap) {
    forall id :: ListsOne(sy, input, pos, end, ds, m, id)
  }

  ghost predicate ListsOne(sy: Syllabifier, input: string, pos: nat, end: nat, ds: seq<Descriptor>, m: SpellingMap, id: int) {
    && (id in m <==> exists j: nat :: Names(sy, input, pos, end, ds, j, id))
    && (forall j: nat :: NamesFirst(sy, input, pos, end, ds, j, id) ==>
          id in m && m[id] == Properties(ds[j].kind, end, ds[j].credibility, ds[j].tips))
  }

  /** Its type is the best of those that count. */
  ghost predicate IsBestKind(sy: Syllabifier, input: string, pos: nat, end: nat, ds: seq<Descriptor>, kind: SpellingType) {
    && (forall j: nat :: Counts(sy, input, pos, end, ds, j) ==> kind <= ds[j].kind)
    && (kind == INVALID || exists j: nat :: Counts(sy, input, pos, end, ds, j) && ds[j].kind == kind)
  }

  lemma {:induction false} CollectedLists(sy: Syllabifier, input: string, pos: nat, end: nat, ds: seq<Descriptor>, id: int)
    ensures ListsOne(sy, input, pos, end, ds, sy.Collected(input, pos, end, ds), id)
  {
    if |ds| > 0 {
      var n := |ds| - 1;
      CollectedLists(sy, input, pos, end, ds[..n], id);
      OneMoreCounts(sy, input, pos, end, ds, id);
      assert Names(sy, input, pos, end, ds, n, id) <==> !sy.Disqualified(input, pos, end, ds[n].kind) && ds[n].syllableId == id;
      hide Names, NamesFirst, Syllabifier.Disqualified;
    }
  }

  lemma OneMoreCounts(sy: Syllabifier, input: string, pos: nat, end: nat, ds: seq<Descriptor>, id: int)
    requires |ds| > 0
    ensures var n, init := |ds| - 1, ds[..|ds| - 1];
            && ((exists j: nat :: Names(sy, input, pos, end, ds, j, id))
                <==> Names(sy, input, pos, end, ds, n, id)
                     || exists j: nat :: Names(sy, input, pos, end, init, j, id))
            && (forall j: nat :: NamesFirst(sy, input, pos, end, ds, j, id) ==>
                  if j < n then NamesFirst(sy, input, pos, end, init, j, id)
                  else j == n && !exists h: nat :: Names(sy, input, pos, end, init, h, id))
  {
    var n, init := |ds| - 1, ds[..|ds| - 1];
    assert forall j: nat :: Names(sy, input, pos, end, init, j, id) <==> j < n && Names(sy, input, pos, end, ds, j, id);
    CountsWithin(sy, input, pos, end, ds, id);
    hide Names;
    if j: nat :| Names(sy, input, pos, end, init, j, id) { assert Names(sy, input, pos, end, ds, j, id); }
    if j: nat :| Names(sy, input, pos, end, ds, j, id) && j != n { assert Names(sy, input, pos, end, init, j, id); }
    forall j: nat | NamesFirst(sy, input, pos, end, ds, j, id)
      ensures if j < n then NamesFirst(sy, input, pos, end, init, j, id)
              else j == n && !exists h: nat :: Names(sy, input, pos, end, init, h, id)
    {
    }
  }

  lemma CountsWithin(sy: Syllabifier, input: string, pos: nat, end: nat, ds: seq<Descriptor>, id: int)
    ensures forall j: nat :: Names(sy, input, pos, end, ds, j, id) ==> j < |ds|
  {
  }

  lemma {:induction false} CollectedKindIsBest(sy: Syllabifier, input: string, pos: nat, end: nat, ds: seq<Descriptor>)
    ensures IsBestKind(sy, input, pos, end, ds, sy.CollectedKind(input, pos, end, ds))
  {
    if |ds| > 0 {
      var n, init := |ds| - 1, ds[..|ds| - 1];
      CollectedKindIsBest(sy, input, pos, end, init);
      assert forall j: nat :: Counts(sy, input, pos, end, init, j) <==> j < n && Counts(sy, input, pos, end, ds, j);
      assert Counts(sy, input, pos, end, ds, n) <==> !sy.Disqualified(input, pos, end, ds[n].kind);
    }
  }

  lemma {:induction false} FirstNamed(sy: Syllabifier, input: string, pos: nat, end: nat, ds: seq<Descriptor>, j: nat, id: int) returns (first: nat)
    requires Names(sy, input, pos, end, ds, j, id)
    ensures NamesFirst(sy, input, pos, end, ds, first, id)
  {
    if h: nat :| h < j && Names(sy, input, pos, end, ds, h, id) {
      first := FirstNamed(sy, input, pos, end, ds, h, id);
    } else {
      first := j;
    }
  }

  /** There is but one such listing. */
  lemma ListedAlike(sy: Syllabifier, input: string, pos: nat, end: nat, ds: seq<Descriptor>, a: SpellingMap, b: SpellingMap)
    requires Lists(sy, input, pos, end, ds, a) && Lists(sy, input, pos, end, ds, b)
    ensures a == b
  {
    hide Names, NamesFirst;
    forall id
      ensures id in a <==> id in b
      ensures id in a ==> a[id] == b[id]
    {
      assert ListsOne(sy, input, pos, end, ds, a, id) && ListsOne(sy, input, pos, end, ds, b, id);
      if id in a {
        var j: nat :| Names(sy, input, pos, end, ds, j, id);
        var first := FirstNamed(sy, input, pos, end, ds, j, id);
      }
    }
  }

  lemma KindAlike(sy: Syllabifier, input: string, pos: nat, end: nat, ds: seq<Descriptor>, a: SpellingType, b: SpellingType)
    requires IsBestKind(sy, input, pos, end, ds, a) && IsBestKind(sy, input, pos, end, ds, b)
    ensures a == b
  {
    hide Counts;
  }

  // ----- the links at a place -----

  /** The delimiters from `pos` on end at `end`. */
  ghost predicate DelimitersEnd(sy: Syllabifier, input: string, pos: nat, end: nat) {
    && pos <= end <= |input| && (forall k :: pos <= k < end ==> input[k] in sy.delimiters)
    && (end < |input| ==> input[end] !in sy.delimiters)
  }

  lemma OneEnd(sy: Syllabifier, input: string, pos: nat, a: nat, b: nat)
    requires DelimitersEnd(sy, input, pos, a) && DelimitersEnd(sy, input, pos, b)
    ensures a == b
  {
  }

  /** The `len` letters from `p` on are a key, which the link spells, up to behind the delimiters. */
  ghost predicate SpelledBy(sy: Syllabifier, prism: Prism, input: string, p: nat, len: nat, l: Link) {
    && 0 < len && p + len <= |input| && input[p..p + len] in prism.keys && DelimitersEnd(sy, input, p + len, l.end)
    && l.spellings != map[]
    && var ds := prism.QuerySpelling(prism.keys[input[p..p + len]]);
       Lists(sy, input, p, l.end, ds, l.spellings) && IsBestKind(sy, input, p, l.end, ds, l.kind)
  }

  ghost predicate IsLink(sy: Syllabifier, prism: Prism, input: string, p: nat, l: Link) {
    exists len: nat :: SpelledBy(sy, prism, input, p, len, l)
  }

  lemma MatchSpells(sy: Syllabifier, prism: Prism, input: string, p: nat, m: Match, l: Link)
    requires 0 < m.length && p + m.length <= |input|
    requires input[p..p + m.length] in prism.keys && prism.keys[input[p..p + m.length]] == m.value
    ensures SpelledBy(sy, prism, input, p, m.length, l) <==> l == sy.LinkOf(input, prism, p, m) && l.spellings != map[]
  {
    var ds, own := prism.QuerySpelling(m.value), sy.LinkOf(input, prism, p, m);
    forall id ensures ListsOne(sy, input, p, own.end, ds, own.spellings, id) { CollectedLists(sy, input, p, own.end, ds, id); }
    CollectedKindIsBest(sy, input, p, own.end, ds);
    assert DelimitersEnd(sy, input, p + m.length, own.end);
    if SpelledBy(sy, prism, input, p, m.length, l) {
      OneEnd(sy, input, p + m.length, l.end, own.end);
      hide Syllabifier.LinkOf, Lists, ListsOne, IsBestKind, DelimitersEnd, Prism.QuerySpelling;
      ListedAlike(sy, input, p, l.end, ds, l.spellings, own.spellings);
      KindAlike(sy, input, p, l.end, ds, l.kind, own.kind);
    }
  }

  /** A match is a key of the prism, and every key that the text begins with is matched. */
  lemma MatchIsKey(prism: Prism, input: string, p: nat, i: nat)
    requires p <= |input| && i < |prism.CommonPrefixSearch(input[p..])|
    ensures var m := prism.CommonPrefixSearch(input[p..])[i];
            && 0 < m.length && p + m.length <= |input|
            && input[p..p + m.length] in prism.keys && prism.keys[input[p..p + m.length]] == m.value
  {
    var m := prism.CommonPrefixSearch(input[p..])[i];
    assert input[p..][..m.length] == input[p..p + m.length];
  }

  lemma KeyIsMatched(prism: Prism, input: string, p: nat, len: nat) returns (i: nat)
    requires 0 < len && p + len <= |input| && input[p..p + len] in prism.keys
    ensures i < |prism.CommonPrefixSearch(input[p..])|
    ensures prism.CommonPrefixSearch(input[p..])[i] == Match(prism.keys[input[p..p + len]], len)
  {
    var ms := prism.CommonPrefixSearch(input[p..]);
    assert input[p..][..len] == input[p..p + len];
    assert Match(prism.keys[input[p..p + len]], len) in ms;
    i :| 0 <= i < |ms| && ms[i] == Match(prism.keys[input[p..p + len]], len);
  }

  /** Main result: the links that the forward pass goes by are exactly what the keys spell. */
  lemma LinksExactly(sy: Syllabifier, prism: Prism, input: string, p: nat, l: Link)
    requires p <= |input|
    ensures l in sy.LinksFrom(input, prism, p) <==> IsLink(sy, prism, input, p, l)
  {
    hide Syllabifier.LinksFrom, SpelledBy;
    if l in sy.LinksFrom(input, prism, p) { LinkIsSpelled(sy, prism, input, p, l); }
    if len: nat :| SpelledBy(sy, prism, input, p, len, l) { SpelledIsLink(sy, prism, input, p, len, l); }
  }

  lemma LinkIsSpelled(sy: Syllabifier, prism: Prism, input: string, p: nat, l: Link)
    requires p <= |input| && l in sy.LinksFrom(input, prism, p)
    ensures IsLink(sy, prism, input, p, l)
  {
    hide Prism.CommonPrefixSearch, Syllabifier.LinkOf, Syllabifier.LinksUpTo, SpelledBy;
    var ms := prism.CommonPrefixSearch(input[p..]);
    LinksFromMatches(sy, input, prism, p, |ms|, l);
    var i :| 0 <= i < |ms| && IsLinkOf(sy, input, prism, p, i, l);
    hide Syllabifier.LinksFrom;
    MatchIsKey(prism, input, p, i);
    MatchSpells(sy, prism, input, p, ms[i], l);
    assert SpelledBy(sy, prism, input, p, ms[i].length, l);
  }

  lemma SpelledIsLink(sy: Syllabifier, prism: Prism, input: string, p: nat, len: nat, l: Link)
    requires p <= |input| && SpelledBy(sy, prism, input, p, len, l)
    ensures l in sy.LinksFrom(input, prism, p)
  {
    hide Prism.CommonPrefixSearch, Syllabifier.LinkOf, Syllabifier.LinksFrom, SpelledBy;
    SpelledKey(sy, prism, input, p, len, l);
    var i := KeyIsMatched(prism, input, p, len);
    MatchIsKey(prism, input, p, i);
    MatchSpells(sy, prism, input, p, prism.CommonPrefixSearch(input[p..])[i], l);
    LinkAmong(sy, prism, input, p, i, l);
  }

  lemma LinkAmong(sy: Syllabifier, prism: Prism, input: string, p: nat, i: nat, l: Link)
    requires p <= |input| && i < |prism.CommonPrefixSearch(input[p..])| && IsLinkOf(sy, input, prism, p, i, l)
    ensures l in sy.LinksFrom(input, prism, p)
  {
    hide Prism.CommonPrefixSearch, IsLinkOf;
    LinksFromMatches(sy, input, prism, p, |prism.CommonPrefixSearch(input[p..])|, l);
  }

  lemma SpelledKey(sy: Syllabifier, prism: Prism, input: string, p: nat, len: nat, l: Link)
    requires SpelledBy(sy, prism, input, p, len, l)
    ensures 0 < len && p + len <= |input| && input[p..p + len] in prism.keys
  {
  }

  // ----- ways -----

  /** A chain of links from the start of the input. */
  ghost predicate IsKeyWay(sy: Syllabifier, prism: Prism, input: string, w: Way) {
    match w
    case Origin => true
    case Hop(v, l) => IsKeyWay(sy, prism, input, v) && IsLink(sy, prism, input, v.End(), l)
  }

  /** The types of the links of a way. */
  ghost predicate HasKind(w: Way, kind: SpellingType) {
    match w
    case Origin => false
    case Hop(v, l) => l.kind == kind || HasKind(v, kind)
  }

  lemma LinkIsInside(sy: Syllabifier, prism: Prism, input: string, p: nat, l: Link)
    requires IsLink(sy, prism, input, p, l)
    ensures p < l.end <= |input|
  {
  }

  lemma {:induction false} WaysExactly(sy: Syllabifier, prism: Prism, input: string, w: Way)
    ensures sy.LatticeOf(input, prism).IsWay(w) <==> IsKeyWay(sy, prism, input, w)
    ensures IsKeyWay(sy, prism, input, w) ==> w.End() <= |input|
  {
    hide IsLink, Syllabifier.LinksFrom;
    match w
    case Origin =>
    case Hop(v, l) =>
      WaysExactly(sy, prism, input, v);
      if IsKeyWay(sy, prism, input, v) { LinksExactly(sy, prism, input, v.End(), l); }
      if IsKeyWay(sy, prism, input, w) { LinkIsInside(sy, prism, input, v.End(), l); }
  }

  /** The worst type on a way is that of some link, or normal, and no link has a worse one. */
  lemma {:induction false} WorstTells(w: Way)
    ensures w.Worst() == NORMAL || HasKind(w, w.Worst())
    ensures forall k: SpellingType :: HasKind(w, k) ==> k <= w.Worst()
  {
    match w
    case Origin =>
    case Hop(v, l) => WorstTells(v);
  }
}
