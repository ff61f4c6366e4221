/** Building a prism: the keys of a script, ranked, and for each the syllables it may stand
    for. */
module PrismBuilds {
  import opened Spellings
  import opened Lexicographic
  import opened Prisms
  import opened ExpandSearches
  import opened SpellingAlgebra
  import opened Syllabification
  import opened SyllableGraphs

  datatype ScriptOption = NoScript | WithScript(script: ScriptMap)

  /** The number of a syllable. One that is not in the syllabary counts as the first. */
  function IdOf(syllabary: seq<string>, s: string): (id: nat)
    ensures s in syllabary ==> id < |syllabary| && syllabary[id] == s
  {
    if s !in syllabary then 0 else FirstIndex(syllabary, s)
  }

  function FirstIndex(list: seq<string>, s: string): (i: nat)
    requires s in list
    ensures i < |list| && list[i] == s
  {
    if list[0] == s then 0 else 1 + FirstIndex(list[1..], s)
  }

  function DescriptorOf(syllabary: seq<string>, x: Spelling): Descriptor {
    Descriptor(IdOf(syllabary, x.str), x.properties.kind, x.properties.credibility, x.properties.tips)
  }

  ghost predicate IsDescribed(syllabary: seq<string>, m: Listing, ds: seq<Descriptor>) {
    |ds| == |m| && forall j :: 0 <= j < |m| ==> ds[j] == DescriptorOf(syllabary, m[j])
  }

  /** In the order of a sorted map, or set. */
  ghost predicate Ascending(keys: seq<string>) {
    forall i, j :: 0 <= i < j < |keys| ==> Less(keys[i], keys[j])
  }

  lemma AscendingOnce(keys: seq<string>)
    requires Ascending(keys)
    ensures Once(keys)
  {
    forall i, j | 0 <= i < j < |keys|
      ensures keys[i] != keys[j]
    {
      Reflexive(keys[i]);
    }
  }

  ghost predicate KeysOf(syllabary: seq<string>, s: ScriptOption, keys: seq<string>) {
    Ascending(keys) && (if s.NoScript? then keys == syllabary else forall k :: k in keys <==> k in s.script)
  }

  ghost predicate IsRanked(keys: seq<string>, ranks: map<string, int>, n: nat)
    requires n <= |keys|
  {
    && (forall k :: k in ranks <==> k in keys[..n])
    && (forall i :: 0 <= i < n ==> keys[i] in ranks && ranks[keys[i]] == i)
  }

  /** Some key has the letter. */
  ghost predicate IsUsed(keys: seq<string>, c: char) {
    exists k :: k in keys && c in k
  }

  ghost predicate AllUsed(keys: seq<string>, alphabet: seq<char>) {
    forall c :: c in alphabet ==> IsUsed(keys, c)
  }

  /** The letters have been found in keys. */
  ghost predicate AreUsed(keys: seq<string>, letters: set<int>) {
    forall x :: x in letters ==> 0 <= x < 0x11_0000 && !(0xD800 <= x < 0xE000) && IsUsed(keys, x as char)
  }

  lemma NoneUsed(keys: seq<string>)
    ensures AreUsed(keys, {})
  {
  }

  lemma OneMoreUsed(keys: seq<string>, letters: set<int>, n: nat, i: nat)
    requires AreUsed(keys, letters) && n < |keys| && i < |keys[n]|
    ensures AreUsed(keys, letters + {keys[n][i] as int})
  {
    var c := keys[n][i];
    assert keys[n] in keys && c in keys[n] && (c as int) as char == c;
  }

  ghost predicate IsPrismOf(syllabary: seq<string>, s: ScriptOption, keys: seq<string>, prism: Prism)
    requires KeysOf(syllabary, s, keys)
  {
    && prism.Valid() && AlphabetRises(prism) && AlphabetCovers(prism) && AllUsed(keys, prism.alphabet) && IsRanked(keys, prism.keys, |keys|)
    && (s.NoScript? ==> prism.spellingMap == NoSpellingTable)
    && (s.WithScript? ==>
          && prism.spellingMap.SpellingTable? && |prism.spellingMap.items| == |keys|
          && forall i :: 0 <= i < |keys| ==> IsDescribed(syllabary, s.script[keys[i]], prism.spellingMap.items[i]))
  }

  method Rank(keys: seq<string>) returns (ranks: map<string, int>)
    requires Once(keys)
    ensures IsRanked(keys, ranks, |keys|)
  {
    ranks := map[];
    for i := 0 to |keys|
      invariant IsRanked(keys, ranks, i)
    {
      assert keys[..i + 1] == keys[..i] + [keys[i]];
      ranks := ranks[keys[i] := i];
    }
  }

  /** The letters of the keys, each once and in order. */
  method CollectAlphabet(keys: seq<string>) returns (alphabet: seq<char>)
    ensures forall i, j :: 0 <= i < j < |alphabet| ==> alphabet[i] < alphabet[j]
    ensures forall k, i :: k in keys && 0 <= i < |k| ==> k[i] in alphabet
    ensures AllUsed(keys, alphabet)
  {
    hide IsUsed;
    var letters := CollectLetters(keys);
    alphabet := [];
    var rest := letters;
    while |rest| > 0
      invariant rest <= letters
      invariant forall i, j :: 0 <= i < j < |alphabet| ==> alphabet[i] < alphabet[j]
      invariant forall i :: 0 <= i < |alphabet| ==> forall r :: r in rest ==> alphabet[i] as int < r
      invariant forall x :: x in letters && x !in rest ==> 0 <= x < 0x11_0000 && !(0xD800 <= x < 0xE000) && x as char in alphabet
      invariant AreUsed(keys, letters) && forall c :: c in alphabet ==> IsUsed(keys, c)
    {
      var x := Least(rest);
      alphabet := alphabet + [x as char];
      rest := rest - {x};
    }
    forall k, i | k in keys && 0 <= i < |k|
      ensures k[i] in alphabet
    {
      assert k[i] as int in letters;
      assert (k[i] as int) as char == k[i];
    }
  }

  method CollectLetters(keys: seq<string>) returns (letters: set<int>)
    ensures forall k, i :: k in keys && 0 <= i < |k| ==> k[i] as int in letters
    ensures AreUsed(keys, letters)
  {
    hide AreUsed;
    letters := {};
    NoneUsed(keys);
    for n := 0 to |keys|
      invariant forall k, i :: k in keys[..n] && 0 <= i < |k| ==> k[i] as int in letters
      invariant AreUsed(keys, letters)
    {
      var key := keys[n];
      assert keys[..n + 1] == keys[..n] + [key];
      ghost var before := letters;
      for i := 0 to |key|
        invariant before <= letters && forall h :: 0 <= h < i ==> key[h] as int in letters
        invariant AreUsed(keys, letters)
      {
        OneMoreUsed(keys, letters, n, i);
        letters := letters + {key[i] as int};
      }
    }
    assert keys[..|keys|] == keys;
  }

  method Describe(syllableToId: map<string, int>, m: Listing, ghost syllabary: seq<string>) returns (ds: seq<Descriptor>)
    requires Once(syllabary) && IsRanked(syllabary, syllableToId, |syllabary|)
    ensures IsDescribed(syllabary, m, ds)
  {
    ds := [];
    for j := 0 to |m|
      invariant |ds| == j && forall h :: 0 <= h < j ==> ds[h] == DescriptorOf(syllabary, m[h])
    {
      var x := m[j];
      RankIs(syllabary, syllableToId, x.str);
      var id := if x.str in syllableToId then syllableToId[x.str] else 0;
      ds := ds + [Descriptor(id, x.properties.kind, x.properties.credibility, x.properties.tips)];
    }
  }

  lemma RankIs(syllabary: seq<string>, ranks: map<string, int>, s: string)
    requires Once(syllabary) && IsRanked(syllabary, ranks, |syllabary|)
    ensures IdOf(syllabary, s) == if s in ranks then ranks[s] else 0
  {
    assert syllabary[..|syllabary|] == syllabary;
    if s in syllabary { assert syllabary[IdOf(syllabary, s)] == s; }
  }

  /** Builds the prism of a script, or of the bare syllabary. */
  method Build(syllabary: seq<string>, s: ScriptOption, keys: seq<string>) returns (prism: Prism)
    requires Ascending(syllabary) && KeysOf(syllabary, s, keys)
    ensures IsPrismOf(syllabary, s, keys, prism)
  {
    hide AllUsed, IsDescribed, Ascending;
    AscendingOnce(keys);
    AscendingOnce(syllabary);
    var ranks := Rank(keys);
    var alphabet := CollectAlphabet(keys);
    var spellingMap := NoSpellingTable;
    assert keys[..|keys|] == keys;
    if s.WithScript? {
      var items := DescribeAll(syllabary, s.script, keys);
      spellingMap := SpellingTable(items);
    }
    prism := Prism(ranks, spellingMap, alphabet);
  }

  /** The syllables of each key. */
  method DescribeAll(syllabary: seq<string>, script: ScriptMap, keys: seq<string>) returns (items: seq<seq<Descriptor>>)
    requires Once(syllabary) && forall k :: k in keys ==> k in script
    ensures |items| == |keys| && forall i :: 0 <= i < |keys| ==> IsDescribed(syllabary, script[keys[i]], items[i])
  {
    hide IsRanked, IsDescribed;
    var syllableToId := Rank(syllabary);
    items := [];
    for i := 0 to |keys|
      invariant |items| == i && forall h :: 0 <= h < i ==> IsDescribed(syllabary, script[keys[h]], items[h])
    {
      var ds := Describe(syllableToId, script[keys[i]], syllabary);
      items := items + [ds];
    }
  }

  // ----- what the built prism tells -----

  /** Every syllable that is listed has a number. */
  ghost predicate Numbered(syllabary: seq<string>, script: ScriptMap) {
    forall s, i :: s in script && 0 <= i < |script[s]| ==> script[s][i].str in syllabary
  }

  /** A key stands for a syllable: the one that it is, or one that the script lists under it. */
  ghost predicate StandsFor(syllabary: seq<string>, s: ScriptOption, key: string, id: int) {
    && 0 <= id < |syllabary|
    && (if s.NoScript? then key == syllabary[id] else Listed(s.script, key, syllabary[id]))
  }

  /** What the prism tells about a key are the syllables it stands for. */
  lemma QueryTells(syllabary: seq<string>, s: ScriptOption, keys: seq<string>, prism: Prism, key: string, j: nat)
    requires Ascending(syllabary) && KeysOf(syllabary, s, keys) && IsPrismOf(syllabary, s, keys, prism)
    requires s.WithScript? ==> Numbered(syllabary, s.script) && NoneEmpty(s.script)
    requires key in prism.keys && j < |prism.QuerySpelling(prism.keys[key])|
    ensures StandsFor(syllabary, s, key, prism.QuerySpelling(prism.keys[key])[j].syllableId)
  {
    assert keys[..|keys|] == keys;
    var i :| 0 <= i < |keys| && keys[i] == key;
    if s.WithScript? {
      assert IsDescribed(syllabary, s.script[key], prism.spellingMap.items[i]);
      assert s.script[key][j].str in syllabary;
      assert Has(s.script[key], s.script[key][j].str);
    }
  }

  /** Main result: the prism of a script that lists every syllable at most once lists none
      twice; so it is clean if and only if no key is another one followed by delimiters. */
  lemma BuiltIsClean(sy: Syllabifier, syllabary: seq<string>, s: ScriptOption, keys: seq<string>, prism: Prism)
    requires Ascending(syllabary) && KeysOf(syllabary, s, keys) && IsPrismOf(syllabary, s, keys, prism)
    requires s.WithScript? ==> ListsOnce(s.script) && Numbered(syllabary, s.script)
    ensures Clean(sy, prism) <==> !HasShadow(sy, prism)
  {
    assert keys[..|keys|] == keys;
    forall id
      ensures ListsEachOnce(prism.QuerySpelling(id))
    {
      if s.WithScript? && 0 <= id < |keys| {
        DescribedOnce(syllabary, s.script[keys[id]], prism.spellingMap.items[id]);
      }
    }
  }

  lemma DescribedOnce(syllabary: seq<string>, m: Listing, ds: seq<Descriptor>)
    requires Distinct(m) && IsDescribed(syllabary, m, ds) && forall i :: 0 <= i < |m| ==> m[i].str in syllabary
    ensures ListsEachOnce(ds)
  {
    forall i, j | 0 <= i < j < |ds|
      ensures ds[i].syllableId != ds[j].syllableId
    {
      assert m[i].str in syllabary && m[j].str in syllabary;
    }
  }
}
