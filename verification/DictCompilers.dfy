/** Compiling a prism: from a syllabary, by way of a spelling algebra, to the keys that may be
    typed for each syllable. */
module DictCompilers {
  import opened Commons
  import opened Spellings
  import opened Lexicographic
  import opened Prisms
  import opened SpellingAlgebra
  import opened Projections
  import opened Syllabification
  import opened SyllableGraphs
  import opened PrismBuilds

  /** Every syllable of the syllabary spells itself. */
  ghost function OriginOf(syllabary: seq<string>): ScriptMap {
    map s | s in syllabary :: [Spelling(s, Properties(NORMAL, 0, 1.0, ""))]
  }

  /** Some chain of rewriting steps leads from the syllable to the key. */
  ghost predicate Derived(syllabary: seq<string>, calcs: seq<Calculation>, key: string, id: int) {
    0 <= id < |syllabary| && exists ch :: Leads(OriginOf(syllabary), calcs, syllabary[id], key, ch)
  }

  /** The prism lists syllable `id` under a key. */
  ghost predicate Tells(prism: Prism, key: string, id: int) {
    key in prism.keys
    && exists j :: 0 <= j < |prism.QuerySpelling(prism.keys[key])| && prism.QuerySpelling(prism.keys[key])[j].syllableId == id
  }

  /** A key stands for exactly the syllables it is derived from. */
  ghost predicate TellsDerived(syllabary: seq<string>, calcs: seq<Calculation>, prism: Prism) {
    forall key, id :: Tells(prism, key, id) <==> Derived(syllabary, calcs, key, id)
  }

  /** The types of the steps of a chain, and the product of their credibilities. */
  ghost function KindsOf(ch: Chain): seq<SpellingType> {
    match ch
    case Seed(_, _, _) => [NORMAL]
    case Link(c, f) => KindsOf(c) + [f.props.kind]
  }

  ghost function ProductOf(ch: Chain): real {
    match ch
    case Seed(_, _, _) => 1.0
    case Link(c, f) => ProductOf(c) * f.props.credibility
  }

  ghost predicate IsWorst(kinds: seq<SpellingType>, kind: SpellingType) {
    kind in kinds && forall k :: k in kinds ==> k <= kind
  }

  /** The chain derives the key, with a worst step of this type, and this product. */
  ghost predicate Derives(syllabary: seq<string>, calcs: seq<Calculation>, key: string, id: int, kind: SpellingType, credibility: real) {
    && 0 <= id < |syllabary|
    && exists ch :: Leads(OriginOf(syllabary), calcs, syllabary[id], key, ch) && IsWorst(KindsOf(ch), kind) && ProductOf(ch) == credibility
  }

  /** What a prism lists under a key is worth the best that the chains make of it: no chain has a
      better type, none a higher credibility, and either is that of some chain. */
  ghost predicate IsGraded(syllabary: seq<string>, calcs: seq<Calculation>, key: string, d: Descriptor) {
    && (forall kind, credibility :: Derives(syllabary, calcs, key, d.syllableId, kind, credibility) ==>
          d.kind <= kind && d.credibility >= credibility)
    && (exists credibility :: Derives(syllabary, calcs, key, d.syllableId, d.kind, credibility))
    && (exists kind :: Derives(syllabary, calcs, key, d.syllableId, kind, d.credibility))
  }

  ghost predicate GradesDerived(syllabary: seq<string>, calcs: seq<Calculation>, prism: Prism) {
    forall key, d :: key in prism.keys && d in prism.QuerySpelling(prism.keys[key]) ==> IsGraded(syllabary, calcs, key, d)
  }

  /** A chain's worth is told by its steps. */
  lemma {:induction false} WorthTells(syllabary: seq<string>, calcs: seq<Calculation>, ch: Chain)
    requires IsChain(OriginOf(syllabary), calcs, ch)
    ensures IsWorst(KindsOf(ch), ch.Worth().kind) && ProductOf(ch) == ch.Worth().credibility
  {
    match ch
    case Seed(at, x, g) =>
      OriginIsSound(syllabary);
      assert Listed(OriginOf(syllabary), at, x);
      assert OriginOf(syllabary)[at][0].str == x;
    case Link(c, f) =>
      WorthTells(syllabary, calcs[..|calcs| - 1], c);
  }

  lemma OneWorst(kinds: seq<SpellingType>, a: SpellingType, b: SpellingType)
    requires IsWorst(kinds, a) && IsWorst(kinds, b)
    ensures a == b
  {
  }

  lemma DerivesByChain(syllabary: seq<string>, calcs: seq<Calculation>, key: string, id: int, kind: SpellingType, credibility: real)
    ensures Derives(syllabary, calcs, key, id, kind, credibility)
            <==> 0 <= id < |syllabary|
                 && exists ch :: Leads(OriginOf(syllabary), calcs, syllabary[id], key, ch) && ch.Worth() == Grade(kind, credibility)
  {
    if 0 <= id < |syllabary| {
      forall ch | Leads(OriginOf(syllabary), calcs, syllabary[id], key, ch)
        ensures IsWorst(KindsOf(ch), kind) && ProductOf(ch) == credibility <==> ch.Worth() == Grade(kind, credibility)
      {
        WorthTells(syllabary, calcs, ch);
        hide KindsOf, ProductOf, Chain.Worth;
        if IsWorst(KindsOf(ch), kind) { OneWorst(KindsOf(ch), kind, ch.Worth().kind); }
      }
    }
  }

  /** The best of the chains, as the algebra sums them up, is the best that they derive. */
  lemma BestIsGraded(syllabary: seq<string>, calcs: seq<Calculation>, key: string, d: Descriptor)
    requires 0 <= d.syllableId < |syllabary|
    requires BestChain(OriginOf(syllabary), calcs, syllabary[d.syllableId], key, Grade(d.kind, d.credibility))
    ensures IsGraded(syllabary, calcs, key, d)
  {
    var origin, x := OriginOf(syllabary), syllabary[d.syllableId];
    forall kind, credibility | Derives(syllabary, calcs, key, d.syllableId, kind, credibility)
      ensures d.kind <= kind && d.credibility >= credibility
    {
      DerivesByChain(syllabary, calcs, key, d.syllableId, kind, credibility);
    }
    hide IsChain, Chain.Worth, Derives;
    var a :| Leads(origin, calcs, x, key, a) && a.Worth().kind == d.kind;
    DerivesByChain(syllabary, calcs, key, d.syllableId, d.kind, a.Worth().credibility);
    var b :| Leads(origin, calcs, x, key, b) && b.Worth().credibility == d.credibility;
    DerivesByChain(syllabary, calcs, key, d.syllableId, b.Worth().kind, d.credibility);
  }

  lemma OriginIsSound(syllabary: seq<string>)
    ensures ListsOnce(OriginOf(syllabary)) && NoneEmpty(OriginOf(syllabary))
    ensures forall s, x :: Listed(OriginOf(syllabary), s, x) <==> s in syllabary && x == s
  {
  }

  /** A syllable that is carried along comes from the syllabary. */
  lemma {:induction false} ChainFromSyllabary(syllabary: seq<string>, calcs: seq<Calculation>, ch: Chain)
    requires IsChain(OriginOf(syllabary), calcs, ch)
    ensures ch.Syllable() in syllabary
  {
    if ch.Link? { ChainFromSyllabary(syllabary, calcs[..|calcs| - 1], ch.prev); } else { OriginIsSound(syllabary); }
  }

  lemma SumIsNumbered(syllabary: seq<string>, calcs: seq<Calculation>, script: ScriptMap)
    requires SumsUp(OriginOf(syllabary), calcs, script)
    ensures Numbered(syllabary, script)
  {
    forall s, i | s in script && 0 <= i < |script[s]|
      ensures script[s][i].str in syllabary
    {
      var x := script[s][i].str;
      assert Listed(script, s, x);
      var ch :| Leads(OriginOf(syllabary), calcs, x, s, ch);
      ChainFromSyllabary(syllabary, calcs, ch);
    }
  }

  // ----- reading off what the prism tells -----

  lemma ListingTells(syllabary: seq<string>, script: ScriptMap, keys: seq<string>, prism: Prism, key: string, id: int)
    requires Ascending(syllabary) && KeysOf(syllabary, WithScript(script), keys)
    requires IsPrismOf(syllabary, WithScript(script), keys, prism) && Numbered(syllabary, script) && NoneEmpty(script)
    ensures Tells(prism, key, id) <==> 0 <= id < |syllabary| && Listed(script, key, syllabary[id])
  {
    assert keys[..|keys|] == keys;
    AscendingOnce(syllabary);
    if Tells(prism, key, id) {
      var j :| 0 <= j < |prism.QuerySpelling(prism.keys[key])| && prism.QuerySpelling(prism.keys[key])[j].syllableId == id;
      QueryTells(syllabary, WithScript(script), keys, prism, key, j);
    }
    if 0 <= id < |syllabary| && Listed(script, key, syllabary[id]) {
      var i :| 0 <= i < |keys| && keys[i] == key;
      var j := Find(script[key], syllabary[id]);
      assert IsDescribed(syllabary, script[key], prism.spellingMap.items[i]);
      assert prism.QuerySpelling(i)[j] == DescriptorOf(syllabary, script[key][j]);
      assert IdOf(syllabary, syllabary[id]) == id;
    }
  }

  lemma BareTells(syllabary: seq<string>, prism: Prism, key: string, id: int)
    requires Ascending(syllabary) && IsPrismOf(syllabary, NoScript, syllabary, prism)
    ensures Tells(prism, key, id) <==> 0 <= id < |syllabary| && key == syllabary[id]
  {
    assert syllabary[..|syllabary|] == syllabary;
    AscendingOnce(syllabary);
    if key in prism.keys {
      var i :| 0 <= i < |syllabary| && syllabary[i] == key;
      assert prism.QuerySpelling(prism.keys[key]) == [Descriptor(i, NORMAL, 1.0, "")];
      assert Tells(prism, key, id) <==> id == i by {
        if id == i { assert prism.QuerySpelling(prism.keys[key])[0].syllableId == id; }
      }
    }
  }

  /** Main result: a prism built from the sum of all chains tells of each key exactly the
      syllables that it is derived from. */
  lemma ScriptTellsDerived(syllabary: seq<string>, calcs: seq<Calculation>, script: ScriptMap, keys: seq<string>, prism: Prism)
    requires Ascending(syllabary) && SumsUp(OriginOf(syllabary), calcs, script)
    requires KeysOf(syllabary, WithScript(script), keys) && IsPrismOf(syllabary, WithScript(script), keys, prism)
    ensures TellsDerived(syllabary, calcs, prism) && GradesDerived(syllabary, calcs, prism)
  {
    OriginIsSound(syllabary);
    SumIsNumbered(syllabary, calcs, script);
    hide IsPrismOf, KeysOf, Numbered, Tells, IsGraded, Prism.QuerySpelling;
    forall key, id
      ensures Tells(prism, key, id) <==> Derived(syllabary, calcs, key, id)
    {
      ListingTells(syllabary, script, keys, prism, key, id);
    }
    forall key, d | key in prism.keys && d in prism.QuerySpelling(prism.keys[key])
      ensures IsGraded(syllabary, calcs, key, d)
    {
      ListingGrades(syllabary, script, keys, prism, key, d);
      BestIsGraded(syllabary, calcs, key, d);
    }
  }

  /** A descriptor has the grade of a listing. */
  lemma ListingGrades(syllabary: seq<string>, script: ScriptMap, keys: seq<string>, prism: Prism, key: string, d: Descriptor)
    requires KeysOf(syllabary, WithScript(script), keys)
    requires IsPrismOf(syllabary, WithScript(script), keys, prism) && Numbered(syllabary, script) && NoneEmpty(script) && ListsOnce(script)
    requires key in prism.keys && d in prism.QuerySpelling(prism.keys[key])
    ensures 0 <= d.syllableId < |syllabary| && Listed(script, key, syllabary[d.syllableId])
    ensures GradeIn(script[key], syllabary[d.syllableId]) == Grade(d.kind, d.credibility)
    ensures TipsIn(script[key], syllabary[d.syllableId]) == d.tips
  {
    assert keys[..|keys|] == keys;
    var i :| 0 <= i < |keys| && keys[i] == key;
    var ds := prism.QuerySpelling(i);
    var j :| 0 <= j < |ds| && ds[j] == d;
    var m := script[key];
    assert IsDescribed(syllabary, m, prism.spellingMap.items[i]);
    assert d == Descriptor(IdOf(syllabary, m[j].str), m[j].properties.kind, m[j].properties.credibility, m[j].properties.tips);
    assert m[j].str in syllabary;
    FindUnique(m, j);
  }

  lemma BareTellsDerived(syllabary: seq<string>, prism: Prism)
    requires Ascending(syllabary) && IsPrismOf(syllabary, NoScript, syllabary, prism)
    ensures TellsDerived(syllabary, [], prism) && GradesDerived(syllabary, [], prism)
  {
    OriginIsSound(syllabary);
    SeedsSumUp(OriginOf(syllabary));
    forall key, d | key in prism.keys && d in prism.QuerySpelling(prism.keys[key])
      ensures IsGraded(syllabary, [], key, d)
    {
      BareGrades(syllabary, prism, key, d);
    }
    hide IsPrismOf, SumsUp, Tells, IsGraded;
    forall key, id
      ensures Tells(prism, key, id) <==> Derived(syllabary, [], key, id)
    {
      BareTells(syllabary, prism, key, id);
      if 0 <= id < |syllabary| { SeedLeads(syllabary, key, syllabary[id]); }
    }
  }

  lemma BareGrades(syllabary: seq<string>, prism: Prism, key: string, d: Descriptor)
    requires Ascending(syllabary) && IsPrismOf(syllabary, NoScript, syllabary, prism)
    requires key in prism.keys && d in prism.QuerySpelling(prism.keys[key])
    ensures IsGraded(syllabary, [], key, d)
  {
    var origin := OriginOf(syllabary);
    assert syllabary[..|syllabary|] == syllabary;
    assert d == Descriptor(prism.keys[key], NORMAL, 1.0, "") && syllabary[prism.keys[key]] == key;
    OriginIsSound(syllabary);
    SeedsSumUp(origin);
    hide IsPrismOf, SumsUp;
    SumTells(origin, [], origin, key, key);
    BestIsGraded(syllabary, [], key, d);
  }

  lemma SumTells(origin: ScriptMap, calcs: seq<Calculation>, script: ScriptMap, s: string, x: string)
    requires SumsUp(origin, calcs, script) && Listed(script, s, x)
    ensures BestChain(origin, calcs, x, s, GradeIn(script[s], x))
  {
  }

  lemma SeedLeads(syllabary: seq<string>, key: string, x: string)
    requires x in syllabary
    ensures (exists ch :: Leads(OriginOf(syllabary), [], x, key, ch)) <==> key == x
  {
    OriginIsSound(syllabary);
    var origin := OriginOf(syllabary);
    assert Listed(origin, x, x);
    assert Leads(origin, [], x, x, Seed(x, x, GradeIn(origin[x], x)));
    forall ch | Leads(origin, [], x, key, ch)
      ensures key == x
    {
      assert Listed(origin, ch.at, x);
    }
  }

  // ----- compiling -----

  /** The keys of a map, as it is gone through. */
  method SortedKeys(m: ScriptMap) returns (keys: seq<string>)
    ensures Ascending(keys) && forall k :: k in keys <==> k in m
  {
    keys := [];
    var rest := m.Keys;
    while |rest| > 0
      invariant rest <= m.Keys && Ascending(keys)
      invariant forall k :: k in keys <==> k in m && k !in rest
      invariant forall k, r :: k in keys && r in rest ==> Less(k, r)
    {
      var key := LeastKey(rest);
      forall r | r in rest && r != key
        ensures Less(key, r)
      {
        if AtMost(r, key) { Antisymmetric(r, key); }
      }
      keys := keys + [key];
      rest := rest - {key};
    }
  }

  method AddSyllables(script: Script, syllabary: seq<string>)
    requires script.spellings == map[]
    modifies script
    ensures script.spellings == OriginOf(syllabary)
  {
    for i := 0 to |syllabary|
      invariant script.spellings == OriginOf(syllabary[..i])
    {
      assert syllabary[..i + 1] == syllabary[..i] + [syllabary[i]];
      var _ := script.AddSyllable(syllabary[i]);
    }
    assert syllabary[..|syllabary|] == syllabary;
  }

  /** The algebra does something: no round fails, some round rewrites a spelling, and not all
      spellings are deleted. */
  ghost predicate Effective(syllabary: seq<string>, calcs: seq<Calculation>) {
    && RunsTo(OriginOf(syllabary), calcs, |calcs|, true)
    && exists s :: Arrives(OriginOf(syllabary), calcs, |calcs|, s)
  }

  lemma IsEffective(syllabary: seq<string>, calcs: seq<Calculation>, script: ScriptMap, rounds: nat, modified: bool)
    requires rounds <= |calcs| && SumsUp(OriginOf(syllabary), calcs[..rounds], script)
    requires RunsTo(OriginOf(syllabary), calcs, rounds, modified)
    ensures modified && script != map[] <==> Effective(syllabary, calcs)
    ensures modified ==> SumsUp(OriginOf(syllabary), calcs, script)
  {
    hide SumsUp, FailsIn, RewritesIn, Arrives;
    if rounds == |calcs| {
      assert calcs[..rounds] == calcs;
      forall s
        ensures s in script <==> Arrives(OriginOf(syllabary), calcs, |calcs|, s)
      {
        ArrivesIsListed(OriginOf(syllabary), calcs, rounds, script, s);
      }
      assert (forall s :: s !in script) ==> script == map[];
    }
  }

  /** The script of an algebra; empty if there is none, or if it changes nothing, fails, or
      deletes everything. */
  method ApplyAlgebra(syllabary: seq<string>, algebra: Option<Projection>) returns (script: Script)
    requires algebra.Some? ==> forall c :: c in algebra.value.calculations ==> Sound(c)
    ensures script.spellings != map[] <==> algebra.Some? && Effective(syllabary, algebra.value.calculations)
    ensures script.spellings != map[] ==> SumsUp(OriginOf(syllabary), algebra.value.calculations, script.spellings)
  {
    hide SumsUp, Sound, ListsOnce, RunsTo, Effective;
    script := new Script();
    if algebra.Some? {
      AddSyllables(script, syllabary);
      OriginIsSound(syllabary);
      var modified, rounds := algebra.value.Apply(script);
      IsEffective(syllabary, algebra.value.calculations, script.spellings, rounds, modified);
      if !modified {
        script.spellings := map[];
      }
    }
  }

  /** Main result: in the compiled prism a key stands for exactly the syllables from which some
      chain of the algebra's steps derives it; without an effective algebra, for the syllable
      that it is. It is clean if and only if no key is another one followed by delimiters. */
  method BuildPrism(syllabary: seq<string>, algebra: Option<Projection>) returns (prism: Prism, ghost calcs: seq<Calculation>)
    requires Ascending(syllabary)
    requires algebra.Some? ==> forall c :: c in algebra.value.calculations ==> Sound(c)
    ensures prism.Valid() && TellsDerived(syllabary, calcs, prism) && GradesDerived(syllabary, calcs, prism)
    ensures calcs == if algebra.Some? && Effective(syllabary, algebra.value.calculations) then algebra.value.calculations else []
    ensures forall sy: Syllabifier :: Clean(sy, prism) <==> !HasShadow(sy, prism)
  {
    hide SumsUp, Sound, TellsDerived, GradesDerived, Clean, HasShadow, Effective;
    var script := ApplyAlgebra(syllabary, algebra);
    if script.spellings == map[] {
      prism := Build(syllabary, NoScript, syllabary);
      calcs := [];
      BareTellsDerived(syllabary, prism);
      IsClean(syllabary, NoScript, syllabary, prism);
    } else {
      var keys := SortedKeys(script.spellings);
      prism := Build(syllabary, WithScript(script.spellings), keys);
      calcs := algebra.value.calculations;
      ScriptTellsDerived(syllabary, calcs, script.spellings, keys, prism);
      SumIsNumbered(syllabary, calcs, script.spellings);
      SumListsOnce(syllabary, calcs, script.spellings);
      IsClean(syllabary, WithScript(script.spellings), keys, prism);
    }
  }

  lemma SumListsOnce(syllabary: seq<string>, calcs: seq<Calculation>, script: ScriptMap)
    requires SumsUp(OriginOf(syllabary), calcs, script)
    ensures ListsOnce(script)
  {
  }

  lemma IsClean(syllabary: seq<string>, s: ScriptOption, keys: seq<string>, prism: Prism)
    requires Ascending(syllabary) && KeysOf(syllabary, s, keys) && IsPrismOf(syllabary, s, keys, prism)
    requires s.WithScript? ==> ListsOnce(s.script) && Numbered(syllabary, s.script)
    ensures prism.Valid()
    ensures forall sy: Syllabifier :: Clean(sy, prism) <==> !HasShadow(sy, prism)
  {
    hide Clean, HasShadow, KeysOf, Numbered, ListsOnce;
    forall sy: Syllabifier
      ensures Clean(sy, prism) <==> !HasShadow(sy, prism)
    {
      assert keys[..|keys|] == keys;
      BuiltIsClean(sy, syllabary, s, keys, prism);
    }
  }
}
