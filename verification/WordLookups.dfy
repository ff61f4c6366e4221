/** Looking words up by a typed code, and how far repeated lookups with higher limits go. */
module WordLookups {
  import opened Commons
  import opened Spellings
  import opened Prisms
  import opened ExpandSearches
  import opened Vocabularies
  import opened TableImages
  import opened TableVisitors
  import opened ChunkMerges
  import opened DictEntryIterators

  const INITIAL_SEARCH_LIMIT: nat := 10
  const EXPANDING_FACTOR: nat := 10

  // ----- what there is to find -----

  /** What has to be typed after `code` to complete the syllable. */
  function RemainingCode(syllabary: seq<string>, id: int, m: Match, code: string): string {
    if m.length > |code| && 0 <= id < |syllabary| && |syllabary[id]| > |code| then syllabary[id][|code|..] else ""
  }

  /** The words of a syllable that a key stands for. */
  ghost function ChunkFor(v: Vocabulary, syllabary: seq<string>, code: string, m: Match, d: Descriptor): seq<Chunk> {
    var entries := EntriesAt(v, [d.syllableId]);
    if d.kind > NORMAL || entries == [] then []
    else [Chunk([d.syllableId], Images(entries), 0, RemainingCode(syllabary, d.syllableId, m, code), 1.0)]
  }

  ghost function ChunksBy(v: Vocabulary, syllabary: seq<string>, code: string, m: Match, ds: seq<Descriptor>): seq<Chunk> {
    if |ds| == 0 then []
    else ChunksBy(v, syllabary, code, m, ds[..|ds| - 1]) + ChunkFor(v, syllabary, code, m, ds[|ds| - 1])
  }

  ghost function ChunksOver(prism: Prism, v: Vocabulary, syllabary: seq<string>, code: string, ms: seq<Match>): seq<Chunk> {
    if |ms| == 0 then []
    else
      var m := ms[|ms| - 1];
      ChunksOver(prism, v, syllabary, code, ms[..|ms| - 1]) + ChunksBy(v, syllabary, code, m, prism.QuerySpelling(m.value))
  }

  ghost predicate Fresh(chunks: seq<Chunk>) {
    forall c :: c in chunks ==> c.Live() && c.cursor == 0
  }

  lemma {:induction false} ChunksByFresh(v: Vocabulary, syllabary: seq<string>, code: string, m: Match, ds: seq<Descriptor>)
    ensures Fresh(ChunksBy(v, syllabary, code, m, ds))
  {
    if |ds| > 0 { ChunksByFresh(v, syllabary, code, m, ds[..|ds| - 1]); }
  }

  lemma {:induction false} ChunksOverFresh(prism: Prism, v: Vocabulary, syllabary: seq<string>, code: string, ms: seq<Match>)
    ensures Fresh(ChunksOver(prism, v, syllabary, code, ms))
  {
    hide ChunksBy;
    if |ms| > 0 {
      ChunksOverFresh(prism, v, syllabary, code, ms[..|ms| - 1]);
      ChunksByFresh(v, syllabary, code, ms[|ms| - 1], prism.QuerySpelling(ms[|ms| - 1].value));
    }
  }

  /** The keys found for a code, at most `limit` of them unless `limit` is 0. */
  ghost function Matches(prism: Prism, code: string, limit: nat): seq<Match>
    requires prism.Valid()
  {
    HitsAreKeys(prism, code);
    Reported(prism, Truncated(prism.Hits(code), limit))
  }

  /** More keys give more chunks, after those that fewer keys give. */
  lemma {:induction false} ChunksOverPrefix(prism: Prism, v: Vocabulary, syllabary: seq<string>, code: string, few: seq<Match>, many: seq<Match>)
    requires few <= many
    ensures ChunksOver(prism, v, syllabary, code, few) <= ChunksOver(prism, v, syllabary, code, many)
    decreases |many|
  {
    hide ChunksBy;
    if |few| == |many| {
      assert few == many;
    } else {
      ChunksOverPrefix(prism, v, syllabary, code, few, many[..|many| - 1]);
    }
  }

  lemma FlatPrefix(few: seq<Chunk>, many: seq<Chunk>)
    requires few <= many
    ensures Flat(few) <= Flat(many)
  {
    FlatConcat(few, many[|few|..]);
    assert many == few + many[|few|..];
  }

  // ----- LookupWords -----

  /** Adds the words of one syllable that a key stands for. */
  method AddWords(result: DictEntryIterator, index: seq<HeadNode>, syllabary: seq<string>, strCode: string, m: Match,
                  d: Descriptor, ghost v: Vocabulary)
    requires IsHead(v, index)
    modifies result
    ensures result.chunks == old(result.chunks) + ChunkFor(v, syllabary, strCode, m, d)
    ensures result.entryCount == old(result.entryCount) + Count(ChunkFor(v, syllabary, strCode, m, d))
    ensures result.entry == old(result.entry) && result.filter == old(result.filter)
  {
    hide IsHead;
    if d.kind > NORMAL {
      return;
    }
    var remainingCode := "";
    if m.length > |strCode| {
      if 0 <= d.syllableId < |syllabary| && |syllabary[d.syllableId]| > |strCode| {
        remainingCode := syllabary[d.syllableId][|strCode|..];
      }
    }
    var visitor := new TableVisitor(index, v);
    var a := visitor.Access(d.syllableId, [], [1.0]);
    assert SlotBelow([], d.syllableId) == [d.syllableId];
    if !a.Exhausted() {
      assert a.contents.entries[0..] == a.contents.entries;
      var chunk := Chunk(a.indexCode, a.contents.entries[a.cursor..], 0, remainingCode, 1.0);
      CountOne(chunk);
      result.AddChunk(chunk);
    }
  }

  /** The number of entries of fresh chunks. */
  function Count(chunks: seq<Chunk>): nat {
    if |chunks| == 0 then 0 else Count(chunks[..|chunks| - 1]) + |chunks[|chunks| - 1].entries|
  }

  lemma CountOne(c: Chunk)
    ensures Count([c]) == |c.entries|
  {
    assert [c][..0] == [];
  }

  lemma {:induction false} CountConcat(a: seq<Chunk>, b: seq<Chunk>)
    ensures Count(a + b) == Count(a) + Count(b)
  {
    if |b| == 0 {
      assert a + b == a;
    } else {
      assert (a + b)[..|a + b| - 1] == a + b[..|b| - 1];
      CountConcat(a, b[..|b| - 1]);
    }
  }

  lemma {:induction false} CountIsFlat(chunks: seq<Chunk>)
    requires Fresh(chunks)
    ensures Count(chunks) == |Flat(chunks)|
  {
    if |chunks| > 0 {
      var init, last := chunks[..|chunks| - 1], chunks[|chunks| - 1];
      CountIsFlat(init);
      assert chunks == init + [last];
      FlatConcat(init, [last]);
      ItemsFrom(last, 0);
    }
  }

  /** The chunks of an iterator that is being filled, and their number of entries. */
  ghost predicate Filled(it: DictEntryIterator, chunks: seq<Chunk>)
    reads it
  {
    it.chunks == chunks && it.entryCount == Count(chunks) && it.entry == None && it.filter == None
  }

  method AddKey(result: DictEntryIterator, index: seq<HeadNode>, syllabary: seq<string>, strCode: string, m: Match,
                ds: seq<Descriptor>, ghost v: Vocabulary, ghost before: seq<Chunk>)
    requires IsHead(v, index) && Filled(result, before)
    modifies result
    ensures Filled(result, before + ChunksBy(v, syllabary, strCode, m, ds))
  {
    hide IsHead, ChunkFor;
    assert ds[..0] == [] && before + [] == before;
    for i := 0 to |ds|
      invariant Filled(result, before + ChunksBy(v, syllabary, strCode, m, ds[..i]))
    {
      ghost var so := before + ChunksBy(v, syllabary, strCode, m, ds[..i]);
      assert ds[..i + 1][..i] == ds[..i];
      AddWords(result, index, syllabary, strCode, m, ds[i], v);
      CountConcat(so, ChunkFor(v, syllabary, strCode, m, ds[i]));
      assert so + ChunkFor(v, syllabary, strCode, m, ds[i]) == before + ChunksBy(v, syllabary, strCode, m, ds[..i + 1]);
    }
    assert ds[..|ds|] == ds;
  }

  /** Adds the words whose code is, or begins with, `strCode`. */
  method LookupWords(result: DictEntryIterator, prism: Prism, index: seq<HeadNode>, syllabary: seq<string>, strCode: string,
                     predictive: bool, expandSearchLimit: nat, ghost v: Vocabulary) returns (count: nat)
    requires prism.Valid() && IsHead(v, index) && Filled(result, [])
    modifies result
    ensures predictive ==> count == |Matches(prism, strCode, expandSearchLimit)|
    ensures predictive ==> Filled(result, ChunksOver(prism, v, syllabary, strCode, Matches(prism, strCode, expandSearchLimit)))
    ensures !predictive && strCode !in prism.keys ==> count == 0 && Filled(result, [])
    ensures !predictive && strCode in prism.keys ==> count == 1
    ensures !predictive && strCode in prism.keys ==>
              Filled(result, ChunksOver(prism, v, syllabary, strCode, [Match(prism.keys[strCode], 0)]))
  {
    hide IsHead, Filled, ChunksBy;
    var keys: seq<Match> := [];
    if predictive {
      HitsAreKeys(prism, strCode);
      keys := ExpandSearch(prism, strCode, expandSearchLimit);
    } else if strCode in prism.keys {
      keys := [Match(prism.keys[strCode], 0)];
    }
    assert keys[..0] == [];
    for i := 0 to |keys|
      invariant Filled(result, ChunksOver(prism, v, syllabary, strCode, keys[..i]))
    {
      assert keys[..i + 1][..i] == keys[..i];
      AddKey(result, index, syllabary, strCode, keys[i], prism.QuerySpelling(keys[i].value), v,
             ChunksOver(prism, v, syllabary, strCode, keys[..i]));
    }
    assert keys[..|keys|] == keys;
    count := |keys|;
  }

  lemma NothingFilled(it: DictEntryIterator)
    requires it.chunks == [] && it.entryCount == 0 && it.entry == None && it.filter == None
    ensures Filled(it, [])
  {
  }

  lemma FilledWith(it: DictEntryIterator, chunks: seq<Chunk>)
    requires Filled(it, chunks) && Fresh(chunks)
    ensures AllLive(it.chunks) && it.Valid() && it.filter == None && it.entry == None
    ensures it.entryCount == |Flat(chunks)| && it.chunks == chunks
  {
    CountIsFlat(chunks);
  }

  // ----- lookups with higher and higher limits -----

  /** The entries found with a limit on the number of keys, 0 for no limit, chunk by chunk. */
  ghost function Fetch(prism: Prism, v: Vocabulary, syllabary: seq<string>, input: string, limit: nat): seq<Item>
    requires prism.Valid()
  {
    Flat(ChunksOver(prism, v, syllabary, input, Matches(prism, input, limit)))
  }

  /** A limited lookup finds the first entries of an unlimited one, and all of them if it
      stays below its limit. */
  lemma FetchIsPrefix(prism: Prism, v: Vocabulary, syllabary: seq<string>, input: string, limit: nat)
    requires prism.Valid() && limit > 0
    ensures Fetch(prism, v, syllabary, input, limit) <= Fetch(prism, v, syllabary, input, 0)
    ensures |Matches(prism, input, limit)| < limit ==>
              Fetch(prism, v, syllabary, input, limit) == Fetch(prism, v, syllabary, input, 0)
  {
    var few, many := Matches(prism, input, limit), Matches(prism, input, 0);
    assert few <= many;
    assert |few| < limit ==> few == many;
    ChunksOverPrefix(prism, v, syllabary, input, few, many);
    FlatPrefix(ChunksOver(prism, v, syllabary, input, few), ChunksOver(prism, v, syllabary, input, many));
  }

  lemma {:induction false} ChunksOverConcat(prism: Prism, v: Vocabulary, syllabary: seq<string>, code: string, a: seq<Match>, b: seq<Match>)
    ensures ChunksOver(prism, v, syllabary, code, a + b)
            == ChunksOver(prism, v, syllabary, code, a) + ChunksOver(prism, v, syllabary, code, b)
  {
    hide ChunksBy;
    if |b| == 0 {
      assert a + b == a;
    } else {
      assert (a + b)[..|a + b| - 1] == a + b[..|b| - 1];
      ChunksOverConcat(prism, v, syllabary, code, a, b[..|b| - 1]);
    }
  }

  /** The words of one key. */
  ghost function WordsOf(prism: Prism, v: Vocabulary, syllabary: seq<string>, code: string, m: Match): seq<Chunk> {
    ChunksBy(v, syllabary, code, m, prism.QuerySpelling(m.value))
  }

  ghost predicate Wordless(prism: Prism, v: Vocabulary, syllabary: seq<string>, code: string, ms: seq<Match>) {
    forall m :: m in ms ==> WordsOf(prism, v, syllabary, code, m) == []
  }

  lemma WordlessLast(prism: Prism, v: Vocabulary, syllabary: seq<string>, code: string, init: seq<Match>, m: Match)
    ensures Wordless(prism, v, syllabary, code, init + [m])
            <==> Wordless(prism, v, syllabary, code, init) && WordsOf(prism, v, syllabary, code, m) == []
  {
    hide WordsOf;
    assert forall x :: x in init + [m] <==> x in init || x == m;
  }

  lemma LastWords(prism: Prism, v: Vocabulary, syllabary: seq<string>, code: string, ms: seq<Match>)
    requires |ms| > 0
    ensures ChunksOver(prism, v, syllabary, code, ms)
            == ChunksOver(prism, v, syllabary, code, ms[..|ms| - 1]) + WordsOf(prism, v, syllabary, code, ms[|ms| - 1])
  {
    hide ChunksBy, Prism.QuerySpelling;
  }

  lemma FreshWords(prism: Prism, v: Vocabulary, syllabary: seq<string>, code: string, m: Match)
    ensures var words := WordsOf(prism, v, syllabary, code, m); Flat(words) == [] <==> words == []
  {
    ChunksByFresh(v, syllabary, code, m, prism.QuerySpelling(m.value));
    hide ChunksBy, Prism.QuerySpelling, Flat, Fresh;
    FreshFlat(WordsOf(prism, v, syllabary, code, m));
  }

  lemma {:induction false} NoWords(prism: Prism, v: Vocabulary, syllabary: seq<string>, code: string, ms: seq<Match>)
    ensures Flat(ChunksOver(prism, v, syllabary, code, ms)) == [] <==> Wordless(prism, v, syllabary, code, ms)
  {
    hide WordsOf, ChunksBy, Prism.QuerySpelling;
    if |ms| > 0 {
      hide Flat, Wordless, ChunksOver;
      var init, m := ms[..|ms| - 1], ms[|ms| - 1];
      NoWords(prism, v, syllabary, code, init);
      var words := WordsOf(prism, v, syllabary, code, m);
      LastWords(prism, v, syllabary, code, ms);
      FlatConcat(ChunksOver(prism, v, syllabary, code, init), words);
      assert Flat(words) == [] <==> words == [] by {
        FreshWords(prism, v, syllabary, code, m);
      }
      WordlessLast(prism, v, syllabary, code, init, m);
      assert ms == init + [m];
    }
  }

  lemma FreshFlat(chunks: seq<Chunk>)
    requires Fresh(chunks)
    ensures Flat(chunks) == [] <==> chunks == []
  {
    if |chunks| > 0 { assert chunks[0] in chunks; }
  }

  /** Some key beyond the first `n` has a word. */
  ghost predicate WordsBeyond(prism: Prism, v: Vocabulary, syllabary: seq<string>, input: string, n: nat)
    requires prism.Valid()
  {
    exists k :: |Matches(prism, input, n)| <= k < |Matches(prism, input, 0)|
                && WordsOf(prism, v, syllabary, input, Matches(prism, input, 0)[k]) != []
  }

  lemma WordlessRest(prism: Prism, v: Vocabulary, syllabary: seq<string>, code: string, few: seq<Match>, rest: seq<Match>)
    ensures Wordless(prism, v, syllabary, code, rest)
            <==> forall k :: |few| <= k < |few + rest| ==> WordsOf(prism, v, syllabary, code, (few + rest)[k]) == []
  {
    hide WordsOf;
    forall m | m in rest
      ensures exists k :: |few| <= k < |few + rest| && (few + rest)[k] == m
    {
      var i :| 0 <= i < |rest| && rest[i] == m;
      assert (few + rest)[|few| + i] == m;
    }
  }

  /** A limited lookup finds everything if and only if no key beyond its limit has a word. */
  lemma FetchesAllExactly(prism: Prism, v: Vocabulary, syllabary: seq<string>, input: string, n: nat)
    requires prism.Valid() && n > 0
    ensures Fetch(prism, v, syllabary, input, n) == Fetch(prism, v, syllabary, input, 0) <==> !WordsBeyond(prism, v, syllabary, input, n)
  {
    var few, many := Matches(prism, input, n), Matches(prism, input, 0);
    assert few <= many;
    var rest := many[|few|..];
    assert many == few + rest;
    hide Matches, ChunksOver, WordsOf, Flat;
    ChunksOverConcat(prism, v, syllabary, input, few, rest);
    FlatConcat(ChunksOver(prism, v, syllabary, input, few), ChunksOver(prism, v, syllabary, input, rest));
    NoWords(prism, v, syllabary, input, rest);
    WordlessRest(prism, v, syllabary, input, few, rest);
  }

  /** The limit for the lookup after one with limit `n`: none if that has found all keys there are. */
  ghost function Raised(prism: Prism, input: string, n: nat): nat
    requires prism.Valid()
  {
    if |Matches(prism, input, n)| < n then 0 else n * EXPANDING_FACTOR
  }

  /** After a lookup with limit `n` there is no other, or it finds no more. */
  ghost predicate Stalls(prism: Prism, v: Vocabulary, syllabary: seq<string>, input: string, n: nat)
    requires prism.Valid()
  {
    var m := Raised(prism, input, n);
    m == 0 || |Fetch(prism, v, syllabary, input, m)| <= |Fetch(prism, v, syllabary, input, n)|
  }

  /** The first limit from `n` on after which the lookups stall. */
  ghost function StopLimit(prism: Prism, v: Vocabulary, syllabary: seq<string>, input: string, n: nat): (r: nat)
    requires prism.Valid() && n > 0
    ensures r > 0 && Stalls(prism, v, syllabary, input, r)
    decreases |Fetch(prism, v, syllabary, input, 0)| - |Fetch(prism, v, syllabary, input, n)|
  {
    if Stalls(prism, v, syllabary, input, n) then n
    else
      var m := Raised(prism, input, n);
      FetchIsPrefix(prism, v, syllabary, input, m);
      StopLimit(prism, v, syllabary, input, m)
  }

  // ----- exactly what a lookup finds -----

  /** Key `m` has a descriptor of normal type for a syllable with the entry. What is shown as missing is
      the rest of the syllable, if the key is longer than the input and so is the syllable. */
  ghost predicate IsWord(prism: Prism, v: Vocabulary, syllabary: seq<string>, code: string, m: Match, d: Descriptor, e: DictEntry, x: Item) {
    && d in prism.QuerySpelling(m.value) && d.kind == NORMAL && e in EntriesAt(v, [d.syllableId])
    && x.code == [d.syllableId] && x.entry == Entry(e.text, e.weight) && x.credibility == 1.0
    && if m.length > |code| && 0 <= d.syllableId < |syllabary| && |syllabary[d.syllableId]| > |code|
       then x.remainingCode == syllabary[d.syllableId][|code|..] else x.remainingCode == ""
  }

  ghost predicate HasWord(prism: Prism, v: Vocabulary, syllabary: seq<string>, code: string, m: Match, x: Item) {
    exists d, e :: IsWord(prism, v, syllabary, code, m, d, e, x)
  }

  lemma {:induction false} ItemsOfChunk(c: Chunk, x: Item)
    requires c.cursor <= |c.entries|
    ensures x in Items(c)
            <==> x.code == c.code && x.remainingCode == c.remainingCode && x.credibility == c.credibility && x.entry in c.entries[c.cursor..]
    decreases |c.entries| - c.cursor
  {
    if c.Live() {
      ItemsOfChunk(c.Step(), x);
      assert c.entries[c.cursor..] == [c.entries[c.cursor]] + c.entries[c.cursor + 1..];
    }
  }

  lemma ImagesHave(entries: seq<DictEntry>, y: Entry)
    ensures y in Images(entries) <==> exists e :: e in entries && y == Entry(e.text, e.weight)
  {
    var images := Images(entries);
    if y in images {
      var i :| 0 <= i < |images| && images[i] == y;
      assert entries[i] in entries;
    }
    if e :| e in entries && y == Entry(e.text, e.weight) {
      var i :| 0 <= i < |entries| && entries[i] == e;
      assert images[i] == y;
    }
  }

  lemma ChunkForHas(prism: Prism, v: Vocabulary, syllabary: seq<string>, code: string, m: Match, d: Descriptor, x: Item)
    requires d in prism.QuerySpelling(m.value)
    ensures x in Flat(ChunkFor(v, syllabary, code, m, d)) <==> exists e :: IsWord(prism, v, syllabary, code, m, d, e, x)
  {
    var entries, rest := EntriesAt(v, [d.syllableId]), RemainingCode(syllabary, d.syllableId, m, code);
    assert x.remainingCode == rest
      <==> if m.length > |code| && 0 <= d.syllableId < |syllabary| && |syllabary[d.syllableId]| > |code|
           then x.remainingCode == syllabary[d.syllableId][|code|..] else x.remainingCode == "";
    hide Prism.QuerySpelling, EntriesAt, RemainingCode;
    ImagesHave(entries, x.entry);
    if d.kind == NORMAL && entries != [] {
      var c := Chunk([d.syllableId], Images(entries), 0, rest, 1.0);
      ItemsOfChunk(c, x);
      assert c.entries[0..] == c.entries;
      assert Flat([c]) == Items(c) + Flat([c][1..]) && [c][1..] == [];
      assert ChunkFor(v, syllabary, code, m, d) == [c];
      hide ChunkFor, Flat, Items, Images;
      if x in Flat([c]) {
        var e :| e in entries && x.entry == Entry(e.text, e.weight);
        assert IsWord(prism, v, syllabary, code, m, d, e, x);
      }
    }
  }

  lemma {:induction false} ChunksByHave(prism: Prism, v: Vocabulary, syllabary: seq<string>, code: string, m: Match, ds: seq<Descriptor>, x: Item)
    requires forall d :: d in ds ==> d in prism.QuerySpelling(m.value)
    ensures x in Flat(ChunksBy(v, syllabary, code, m, ds)) <==> exists d, e :: d in ds && IsWord(prism, v, syllabary, code, m, d, e, x)
  {
    hide IsWord, ChunkFor, Prism.QuerySpelling;
    if |ds| > 0 {
      var init, last := ds[..|ds| - 1], ds[|ds| - 1];
      assert ds == init + [last];
      ChunksByHave(prism, v, syllabary, code, m, init, x);
      ChunkForHas(prism, v, syllabary, code, m, last, x);
      FlatConcat(ChunksBy(v, syllabary, code, m, init), ChunkFor(v, syllabary, code, m, last));
      hide Flat;
    }
  }

  lemma {:induction false} ChunksOverHave(prism: Prism, v: Vocabulary, syllabary: seq<string>, code: string, ms: seq<Match>, x: Item)
    ensures x in Flat(ChunksOver(prism, v, syllabary, code, ms))
            <==> exists m :: m in ms && HasWord(prism, v, syllabary, code, m, x)
  {
    if |ms| > 0 {
      var init, last := ms[..|ms| - 1], ms[|ms| - 1];
      assert ms == init + [last];
      ChunksOverHave(prism, v, syllabary, code, init, x);
      LastWords(prism, v, syllabary, code, ms);
      ChunksByHave(prism, v, syllabary, code, last, prism.QuerySpelling(last.value), x);
      WordIsListed(prism, v, syllabary, code, last, x);
      FlatConcat(ChunksOver(prism, v, syllabary, code, init), WordsOf(prism, v, syllabary, code, last));
      hide Flat, IsWord, ChunksOver, ChunksBy, Prism.QuerySpelling;
      assert HasWord(prism, v, syllabary, code, last, x)
        <==> exists d, e :: d in prism.QuerySpelling(last.value) && IsWord(prism, v, syllabary, code, last, d, e, x);
      hide HasWord;
    }
  }

  lemma WordIsListed(prism: Prism, v: Vocabulary, syllabary: seq<string>, code: string, m: Match, x: Item)
    ensures forall d, e :: IsWord(prism, v, syllabary, code, m, d, e, x) ==> d in prism.QuerySpelling(m.value)
  {
  }

  /** Main result: a lookup finds exactly the words of the syllables for which the first keys that
      extend the input are a normal spelling. */
  lemma FetchExactly(prism: Prism, v: Vocabulary, syllabary: seq<string>, input: string, limit: nat, x: Item)
    requires prism.Valid()
    ensures forall k :: k in prism.Hits(input) ==> k in prism.keys && input <= k
    ensures x in Fetch(prism, v, syllabary, input, limit)
            <==> exists k :: k in Truncated(prism.Hits(input), limit) && k in prism.keys
                             && HasWord(prism, v, syllabary, input, Match(prism.keys[k], |k|), x)
  {
    hide ChunksOver, HasWord, Prism.Hits, Prism.Valid, Flat, Truncated, Matches, Once, ShortestFirst, AlphabetCovers;
    HitsAreExtensions(prism, input);
    ChunksOverHave(prism, v, syllabary, input, Matches(prism, input, limit), x);
    MatchesAreKeys(prism, input, limit);
    var hits, ms := Truncated(prism.Hits(input), limit), Matches(prism, input, limit);
    if m :| m in ms && HasWord(prism, v, syllabary, input, m, x) {
      var i :| 0 <= i < |ms| && ms[i] == m;
      assert hits[i] in hits;
    }
    if k :| k in hits && k in prism.keys && HasWord(prism, v, syllabary, input, Match(prism.keys[k], |k|), x) {
      var i :| 0 <= i < |hits| && hits[i] == k;
      assert ms[i] in ms;
    }
  }

  lemma MatchesAreKeys(prism: Prism, input: string, limit: nat)
    requires prism.Valid()
    ensures var hits, ms := Truncated(prism.Hits(input), limit), Matches(prism, input, limit);
            |ms| == |hits| && forall i :: 0 <= i < |ms| ==> hits[i] in prism.keys && ms[i] == Match(prism.keys[hits[i]], |hits[i]|)
  {
    HitsAreKeys(prism, input);
    hide Prism.Hits, Prism.Valid;
    var hits := Truncated(prism.Hits(input), limit);
    assert forall k :: k in hits ==> k in prism.Hits(input);
    forall i | 0 <= i < |hits|
      ensures hits[i] in prism.keys
    {
      assert hits[i] in hits;
    }
  }

  // ----- a whole run -----

  /** What one limit finds is the beginning of what the lookups that follow find. */
  lemma {:induction false} StopExtends(prism: Prism, v: Vocabulary, syllabary: seq<string>, input: string, n: nat)
    requires prism.Valid() && n > 0
    ensures Fetch(prism, v, syllabary, input, n)
            <= Fetch(prism, v, syllabary, input, StopLimit(prism, v, syllabary, input, n))
    decreases |Fetch(prism, v, syllabary, input, 0)| - |Fetch(prism, v, syllabary, input, n)|
  {
    hide Fetch, Matches, Prism.Valid;
    if !Stalls(prism, v, syllabary, input, n) {
      var m := Raised(prism, input, n);
      FetchIsPrefix(prism, v, syllabary, input, n);
      FetchIsPrefix(prism, v, syllabary, input, m);
      hide Raised;
      StopExtends(prism, v, syllabary, input, m);
      var all := Fetch(prism, v, syllabary, input, 0);
      assert Fetch(prism, v, syllabary, input, n) == all[..|Fetch(prism, v, syllabary, input, n)|];
      assert Fetch(prism, v, syllabary, input, m) == all[..|Fetch(prism, v, syllabary, input, m)|];
    }
  }

  /** The limit with which a lazy translation finds the last of its entries. It gives up at once if
      the first lookup finds none. */
  ghost function LastLimit(prism: Prism, v: Vocabulary, syllabary: seq<string>, input: string): (r: nat)
    requires prism.Valid()
    ensures r > 0
  {
    if Fetch(prism, v, syllabary, input, INITIAL_SEARCH_LIMIT) == [] then INITIAL_SEARCH_LIMIT
    else StopLimit(prism, v, syllabary, input, INITIAL_SEARCH_LIMIT)
  }

  // ----- when a lazy lookup stops -----

  ghost function Tens(k: nat): (r: nat)
    ensures r > 0
  {
    if k == 0 then 1 else 10 * Tens(k - 1)
  }

  /** There are as many keys as were asked for, and asking for ten times as many gives more entries. */
  ghost predicate PaysOff(prism: Prism, v: Vocabulary, syllabary: seq<string>, input: string, n: nat)
    requires prism.Valid()
  {
    |prism.Hits(input)| >= n && |Fetch(prism, v, syllabary, input, 10 * n)| > |Fetch(prism, v, syllabary, input, n)|
  }

  lemma StallsExactly(prism: Prism, v: Vocabulary, syllabary: seq<string>, input: string, n: nat)
    requires prism.Valid() && n > 0
    ensures Stalls(prism, v, syllabary, input, n) <==> !PaysOff(prism, v, syllabary, input, n)
    ensures !Stalls(prism, v, syllabary, input, n) ==> Raised(prism, input, n) == 10 * n
  {
    hide Prism.Hits, Fetch;
    HitsAreKeys(prism, input);
    assert |Matches(prism, input, n)| == if |prism.Hits(input)| <= n then |prism.Hits(input)| else n;
    assert n * 10 == 10 * n;
  }

  /** Tens from the `j`-th on that pay off, up to the `k`-th, that does not. */
  ghost predicate LastToPay(prism: Prism, v: Vocabulary, syllabary: seq<string>, input: string, j: nat, k: nat)
    requires prism.Valid()
  {
    && j <= k && !PaysOff(prism, v, syllabary, input, Tens(k))
    && forall i :: j <= i < k ==> PaysOff(prism, v, syllabary, input, Tens(i))
  }

  lemma {:induction false} StopsExactly(prism: Prism, v: Vocabulary, syllabary: seq<string>, input: string, j: nat) returns (k: nat)
    requires prism.Valid()
    ensures StopLimit(prism, v, syllabary, input, Tens(j)) == Tens(k) && LastToPay(prism, v, syllabary, input, j, k)
    decreases |Fetch(prism, v, syllabary, input, 0)| - |Fetch(prism, v, syllabary, input, Tens(j))|
  {
    var n := Tens(j + 1);
    assert n == 10 * Tens(j);
    StopStep(prism, v, syllabary, input, Tens(j));
    hide *;
    k := j;
    if PaysOff(prism, v, syllabary, input, Tens(j)) {
      k := StopsExactly(prism, v, syllabary, input, j + 1);
      PaysFurther(prism, v, syllabary, input, j, k);
    } else {
      PaysNoMore(prism, v, syllabary, input, j);
    }
  }

  lemma PaysFurther(prism: Prism, v: Vocabulary, syllabary: seq<string>, input: string, j: nat, k: nat)
    requires prism.Valid() && PaysOff(prism, v, syllabary, input, Tens(j)) && LastToPay(prism, v, syllabary, input, j + 1, k)
    ensures LastToPay(prism, v, syllabary, input, j, k)
  {
    hide PaysOff, Tens;
  }

  lemma PaysNoMore(prism: Prism, v: Vocabulary, syllabary: seq<string>, input: string, j: nat)
    requires prism.Valid() && !PaysOff(prism, v, syllabary, input, Tens(j))
    ensures LastToPay(prism, v, syllabary, input, j, j)
  {
  }

  lemma StopStep(prism: Prism, v: Vocabulary, syllabary: seq<string>, input: string, n: nat)
    requires prism.Valid() && n > 0
    ensures !PaysOff(prism, v, syllabary, input, n) ==> StopLimit(prism, v, syllabary, input, n) == n
    ensures PaysOff(prism, v, syllabary, input, n) ==>
              && StopLimit(prism, v, syllabary, input, n) == StopLimit(prism, v, syllabary, input, 10 * n)
              && |Fetch(prism, v, syllabary, input, n)| < |Fetch(prism, v, syllabary, input, 10 * n)| <= |Fetch(prism, v, syllabary, input, 0)|
  {
    StallsExactly(prism, v, syllabary, input, n);
    FetchIsPrefix(prism, v, syllabary, input, 10 * n);
    hide Fetch, Stalls, Raised, Prism.Valid;
    if PaysOff(prism, v, syllabary, input, n) { assert StopLimit(prism, v, syllabary, input, n) == StopLimit(prism, v, syllabary, input, 10 * n); }
  }

  /** Main result: the limits tried are 10, 100 and so on; the last one is the first that does not pay
      off, or 10 if nothing at all is found by it. */
  lemma LastLimitTells(prism: Prism, v: Vocabulary, syllabary: seq<string>, input: string) returns (k: nat)
    requires prism.Valid()
    ensures k >= 1 && LastLimit(prism, v, syllabary, input) == Tens(k)
    ensures Fetch(prism, v, syllabary, input, 10) == [] ==> k == 1
    ensures Fetch(prism, v, syllabary, input, 10) != [] ==>
              && !PaysOff(prism, v, syllabary, input, Tens(k))
              && forall i :: 1 <= i < k ==> PaysOff(prism, v, syllabary, input, Tens(i))
  {
    assert Tens(0) == 1 && Tens(1) == 10;
    k := 1;
    hide Fetch, StopLimit, PaysOff, Tens, Prism.Valid;
    if Fetch(prism, v, syllabary, input, 10) != [] { k := StopsExactly(prism, v, syllabary, input, 1); }
  }
}
