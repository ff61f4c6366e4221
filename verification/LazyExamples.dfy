/** A translation that ends while there are words left. */
module LazyExamples {
  import opened Commons
  import opened Spellings
  import opened Prisms
  import opened ExpandSearches
  import opened Vocabularies
  import opened ChunkMerges
  import opened WordLookups

  const LAST := 101

  function A(n: nat): string {
    seq(n, i requires 0 <= i < n => 'a')
  }

  /** The keys "a", "aa" and so on, each a syllable of its own, numbered by its length. */
  predicate IsLongPrism(prism: Prism) {
    && (forall k :: k in prism.keys ==> 1 <= |k| <= LAST && k == A(|k|) && prism.keys[k] == |k|)
    && (forall n :: 1 <= n <= LAST ==> A(n) in prism.keys)
    && prism.spellingMap == NoSpellingTable && prism.alphabet == ['a']
  }

  /** Only the first and the last of the syllables have words. */
  predicate HasFirstAndLast(v: Vocabulary) {
    forall n :: 1 <= n <= LAST ==> (EntriesAt(v, [n]) != [] <==> n == 1 || n == LAST)
  }

  lemma PathIs(prism: Prism, n: nat)
    requires IsLongPrism(prism) && n > 0
    ensures prism.IsPath(A(n)) <==> n <= LAST
  {
    if n <= LAST { assert A(n) in prism.keys && A(n) <= A(n); }
  }

  lemma {:induction false} LevelIs(prism: Prism, n: nat)
    requires IsLongPrism(prism)
    ensures prism.Level(A(1), n) == if n < LAST then [A(n + 1)] else []
  {
    hide IsLongPrism, Prism.IsPath, Prism.Children, Prism.ChildrenOf, A;
    if n == 0 {
      PathIs(prism, 1);
    } else {
      LevelIs(prism, n - 1);
      ChildrenAre(prism, n);
      OneParent(prism, A(n));
    }
  }

  lemma ChildrenAre(prism: Prism, n: nat)
    requires IsLongPrism(prism) && n > 0
    ensures prism.Children(A(n)) == if n < LAST then [A(n + 1)] else []
  {
    PathIs(prism, n + 1);
    assert A(n) + ['a'] == A(n + 1);
    assert prism.alphabet == ['a'];
    hide Prism.IsPath, IsLongPrism, A;
    assert prism.ChildrenUpTo(A(n), 0) == [];
  }

  lemma OneParent(prism: Prism, text: string)
    ensures prism.ChildrenOf([text]) == prism.Children(text) && prism.ChildrenOf([]) == []
  {
    hide Prism.Children;
    assert [text][..0] == [] && [] + prism.Children(text) == prism.Children(text);
  }

  lemma LevelKeys(prism: Prism, n: nat)
    requires IsLongPrism(prism)
    ensures prism.KeysAmong(prism.Level(A(1), n)) == if n < LAST then [A(n + 1)] else []
  {
    LevelIs(prism, n);
    hide Prism.Level;
    if n < LAST {
      assert A(n + 1) in prism.keys && [A(n + 1)][..0] == [];
      assert prism.KeysAmong([]) == [];
    }
  }

  ghost predicate ListsKeys(list: seq<string>, count: nat) {
    |list| == count && forall i :: 0 <= i < count ==> list[i] == A(i + 1)
  }

  lemma ListsNext(list: seq<string>, count: nat)
    requires ListsKeys(list, count)
    ensures ListsKeys(list + [A(count + 1)], count + 1)
  {
    hide A;
  }

  lemma ListsFirst()
    ensures ListsKeys([A(1)], 1)
  {
    hide A;
  }

  lemma MoreHits(prism: Prism, text: string, n: nat)
    requires n > 0
    ensures prism.HitsUpTo(text, n) == prism.HitsUpTo(text, n - 1) + prism.KeysAmong(prism.Level(text, n))
  {
    hide Prism.Level, Prism.KeysAmong;
  }

  lemma {:induction false} HitsAre(prism: Prism, n: nat)
    requires IsLongPrism(prism)
    ensures ListsKeys(prism.HitsUpTo(A(1), n), if n < LAST then n + 1 else LAST)
  {
    hide IsLongPrism, Prism.Level, Prism.KeysAmong, ListsKeys, A;
    LevelKeys(prism, n);
    if n == 0 {
      ListsFirst();
    } else {
      var before := prism.HitsUpTo(A(1), n - 1);
      HitsAre(prism, n - 1);
      MoreHits(prism, A(1), n);
      hide Prism.HitsUpTo;
      if n < LAST { ListsNext(before, n); } else { assert before + [] == before; }
    }
  }

  lemma AllHits(prism: Prism)
    requires IsLongPrism(prism)
    ensures prism.Valid() && ListsKeys(prism.Hits(A(1)), LAST)
  {
    assert A(LAST) in prism.keys && |A(LAST)| == LAST;
    HitsAre(prism, LongestIn(prism.keys.Keys));
  }

  /** The matches of "a": the keys by length. */
  lemma MatchesAre(prism: Prism, limit: nat)
    requires IsLongPrism(prism)
    ensures prism.Valid()
    ensures var ms := Matches(prism, A(1), limit);
            && |ms| == (if 0 < limit < LAST then limit else LAST)
            && forall i :: 0 <= i < |ms| ==> ms[i] == Match(i + 1, i + 1)
  {
    AllHits(prism);
    hide Prism.Hits, Prism.Valid;
    HitsAreKeys(prism, A(1));
    var hits := Truncated(prism.Hits(A(1)), limit);
    forall i | 0 <= i < |hits|
      ensures MatchOf(prism, hits[i]) == Match(i + 1, i + 1)
    {
      assert hits[i] == A(i + 1) && |A(i + 1)| == i + 1;
    }
  }

  lemma WordsAre(prism: Prism, v: Vocabulary, n: nat)
    requires IsLongPrism(prism) && HasFirstAndLast(v) && 1 <= n <= LAST
    ensures WordsOf(prism, v, [], A(1), Match(n, n)) != [] <==> n == 1 || n == LAST
  {
    var ds := prism.QuerySpelling(n);
    assert ds == [Descriptor(n, NORMAL, 1.0, "")] && ds[..0] == [];
    assert ChunksBy(v, [], A(1), Match(n, n), ds[..0]) == [];
  }

  lemma FetchesAre(prism: Prism, v: Vocabulary)
    requires IsLongPrism(prism) && HasFirstAndLast(v)
    ensures prism.Valid()
    ensures Fetch(prism, v, [], A(1), 10) != [] && Fetch(prism, v, [], A(1), 100) == Fetch(prism, v, [], A(1), 10)
  {
    var more := FewAndMore(prism);
    hide HasFirstAndLast, IsLongPrism, Matches, Prism.Valid, ChunksOver, Flat, WordsOf, A;
    var few := Matches(prism, A(1), 10);
    WordsAre(prism, v, 1);
    assert few[0] in few;
    NoWords(prism, v, [], A(1), few);
    forall i | 0 <= i < |more|
      ensures WordsOf(prism, v, [], A(1), more[i]) == []
    {
      WordsAre(prism, v, i + 11);
    }
    NoWords(prism, v, [], A(1), more);
    SameWords(prism, v, few, more);
  }

  /** The matches of the second lookup are those of the first and some more. */
  lemma FewAndMore(prism: Prism) returns (more: seq<Match>)
    requires IsLongPrism(prism)
    ensures prism.Valid()
    ensures var few := Matches(prism, A(1), 10);
            && |few| == 10 && few[0] == Match(1, 1) && Matches(prism, A(1), 100) == few + more
    ensures |more| == 90 && forall i :: 0 <= i < |more| ==> more[i] == Match(i + 11, i + 11)
  {
    MatchesAre(prism, 10);
    MatchesAre(prism, 100);
    hide IsLongPrism, Matches, Prism.Valid, A;
    more := Matches(prism, A(1), 100)[10..];
    assert Matches(prism, A(1), 100)[..10] == Matches(prism, A(1), 10);
  }

  lemma SameWords(prism: Prism, v: Vocabulary, few: seq<Match>, more: seq<Match>)
    requires Flat(ChunksOver(prism, v, [], A(1), more)) == []
    ensures Flat(ChunksOver(prism, v, [], A(1), few + more)) == Flat(ChunksOver(prism, v, [], A(1), few))
  {
    hide ChunksOver, Flat;
    ChunksOverConcat(prism, v, [], A(1), few, more);
    FlatConcat(ChunksOver(prism, v, [], A(1), few), ChunksOver(prism, v, [], A(1), more));
  }

  /** It does happen: the second lookup, for the first hundred keys, finds no words that the first
      has not found, and the word of the last key is never looked up. */
  lemma StopsTooEarly(prism: Prism, v: Vocabulary)
    requires IsLongPrism(prism) && HasFirstAndLast(v)
    ensures prism.Valid()
    ensures LastLimit(prism, v, [], A(1)) == INITIAL_SEARCH_LIMIT && WordsBeyond(prism, v, [], A(1), INITIAL_SEARCH_LIMIT)
  {
    MatchesAre(prism, 0);
    MatchesAre(prism, 10);
    FetchesAre(prism, v);
    hide Matches, Fetch, Prism.Valid;
    assert Raised(prism, A(1), 10) == 100 && Stalls(prism, v, [], A(1), 10);
    WordsAre(prism, v, LAST);
    hide WordsOf;
    assert Matches(prism, A(1), 0)[100] == Match(LAST, LAST);
  }

  /** Such a prism and such a vocabulary. */
  lemma Exist() returns (prism: Prism, v: Vocabulary)
    ensures IsLongPrism(prism) && HasFirstAndLast(v)
  {
    forall m: nat, n: nat | A(m) == A(n)
      ensures m == n
    {
      assert |A(m)| == m && |A(n)| == n;
    }
    var keys := map n: nat | 1 <= n <= LAST :: A(n) := n;
    prism := Prism(keys, NoSpellingTable, ['a']);
    assert forall n :: 1 <= n <= LAST ==> A(n) in keys && keys[A(n)] == n && |A(n)| == n;
    var page := Page([DictEntry("word", [], 1.0)], None);
    v := Vocabulary(map[1 := page, LAST := page]);
  }
}
