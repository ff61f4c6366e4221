/** What a dictionary lookup finds, in terms of the dictionary's own entries: those whose code
    the graph spells, and no others. */
module DictionaryEntries {
  import opened Commons
  import opened Groupings
  import opened GraphEdges
  import opened Vocabularies
  import opened TableImages
  import opened TableVisitors
  import opened TableQueries
  import opened TableWalks
  import opened TablePaths
  import opened TableFinds
  import opened ChunkMerges
  import opened Dictionaries

  /** The graph spells a whole code from `start` to `end`. */
  ghost predicate Spelled(g: Graph, start: nat, code: seq<int>, end: nat) {
    && |code| > 0
    && (|code| <= INDEX_CODE_MAX_LENGTH ==> exists t :: SpelledBy(g, start, code, t) && StopOf(g, start, t).pos == end)
    && (|code| > INDEX_CODE_MAX_LENGTH ==>
          exists t :: SpelledBy(g, start, code[..INDEX_CODE_MAX_LENGTH], t)
                      && Spells(g, code[INDEX_CODE_MAX_LENGTH..], StopOf(g, start, t).pos, end))
  }

  ghost predicate SpelledBy(g: Graph, start: nat, code: seq<int>, t: Trail) {
    IsPath(g, start, t) && CodeOf(g, start, t) == code
  }

  // ----- words -----

  /** Where the edges of a path lead. */
  ghost function EndAt(g: Graph, start: nat, t: Trail): nat {
    if |t| == 0 then start else Edge(g, EndAt(g, start, t[..|t| - 1]), t[|t| - 1]).endPos
  }

  /** The product of the credibilities of its edges. */
  ghost function Product(g: Graph, start: nat, t: Trail): real {
    if |t| == 0 then 1.0
    else Product(g, start, t[..|t| - 1]) * Edge(g, EndAt(g, start, t[..|t| - 1]), t[|t| - 1]).credibility
  }

  ghost function IdsOf(t: Trail): seq<int> {
    seq(|t|, i requires 0 <= i < |t| => t[i].id)
  }

  /** The credibility of a path. */
  ghost function Credibility(g: Graph, start: nat, initial: real, t: Trail): real {
    initial * Product(g, start, t)
  }

  /** The walk comes to where the edges lead, with the syllables and the credibility they have. */
  lemma {:induction false} StopTells(g: Graph, start: nat, t: Trail)
    ensures var stop := StopOf(g, start, t);
            stop.pos == EndAt(g, start, t) && stop.code == IdsOf(t) && stop.Last() == Product(g, start, t)
  {
    if |t| > 0 {
      var init := t[..|t| - 1];
      StopTells(g, start, init);
      assert IdsOf(t) == IdsOf(init) + [t[|t| - 1].id];
    }
  }

  lemma WalkedCredibility(g: Graph, start: nat, initial: real, t: Trail)
    ensures Times(initial, StopOf(g, start, t).Credibility()) == Credibility(g, start, initial, t)
  {
    StopTells(g, start, t);
    hide StopOf, Product;
    assert Times(1.0, StopOf(g, start, t).Last()) == Product(g, start, t);
  }

  /** One path that spells a short code gives one chunk: all entries of that code. */
  lemma WordGives(v: Vocabulary, g: Graph, start: nat, initial: real, t: Trail)
    requires 1 <= |t| <= INDEX_CODE_MAX_LENGTH
    ensures var code := CodeOf(g, start, t);
            ChunksOf(g, initial, HitOf(v, g, start, Word(t)))
            == [At(StopOf(g, start, t).pos,
                   Chunk(code, Images(EntriesAt(v, code)), 0, "", Credibility(g, start, initial, t[..|t| - 1])))]
  {
    LastStep(v, g, start, t);
    WalkedCredibility(g, start, initial, t[..|t| - 1]);
    hide Credibility;
    var images := Images(EntriesAt(v, CodeOf(g, start, t)));
    assert images[0..] == images;
  }

  /** What is in a slot of the vocabulary is in that slot of the dictionary. */
  lemma HeldMembers(v: Vocabulary, entries: seq<DictEntry>, path: seq<int>)
    requires Holds(v, entries) && |path| > 0
    ensures forall e :: e in EntriesAt(v, path) <==> e in InSlot(entries, path)
    ensures forall e :: e in EntriesAt(v, path) ==> e in entries && |e.code| > 0 && Slot(e.code) == path
  {
    InSlotMembers(entries, path);
    forall e
      ensures e in EntriesAt(v, path) <==> e in InSlot(entries, path)
    {
      assert e in EntriesAt(v, path) <==> e in multiset(EntriesAt(v, path));
      assert e in InSlot(entries, path) <==> e in multiset(InSlot(entries, path));
    }
  }

  // ----- longer codes -----

  /** Longer entries, each where its code can be spelled farthest to. */
  ghost function LongChunks(g: Graph, end: nat, es: seq<DictEntry>, credibility: real): seq<At<Chunk>> {
    if |es| == 0 then []
    else LongChunk(g, end, es[0], credibility) + LongChunks(g, end, es[1..], credibility)
  }

  ghost function LongChunk(g: Graph, end: nat, e: DictEntry, credibility: real): seq<At<Chunk>> {
    var farthest := if |e.code| < INDEX_CODE_MAX_LENGTH then 0 else Farthest(g, e.code[INDEX_CODE_MAX_LENGTH..], end);
    if farthest == 0 then [] else [At(farthest, Chunk(e.code, [Entry(e.text, e.weight)], 0, "", credibility))]
  }

  ghost predicate LongEntries(es: seq<DictEntry>, code: seq<int>) {
    |code| == INDEX_CODE_MAX_LENGTH
    && forall e :: e in es ==> |e.code| > INDEX_CODE_MAX_LENGTH && e.code[..INDEX_CODE_MAX_LENGTH] == code
  }

  lemma {:induction false} TailsGive(g: Graph, end: nat, es: seq<DictEntry>, a: TableAccessor, credibility: real)
    requires LongEntries(es, a.indexCode) && a.contents == CodeMap(TailImages(es)) && a.cursor <= |es|
    ensures TailChunks(g, end, a, credibility) == LongChunks(g, end, es[a.cursor..], credibility)
    decreases |es| - a.cursor
  {
    hide Farthest;
    if a.cursor < |es| {
      var e := es[a.cursor];
      assert e in es;
      assert e.code == a.indexCode + e.code[INDEX_CODE_MAX_LENGTH..];
      TailsGive(g, end, es, a.Next(), credibility);
      assert es[a.cursor..][1..] == es[a.cursor + 1..];
    }
  }

  /** One path that spells an index code gives a chunk for every longer entry that goes on
      from its end. */
  lemma LongGives(v: Vocabulary, entries: seq<DictEntry>, g: Graph, start: nat, initial: real, t: Trail)
    requires Holds(v, entries) && IsFind(v, g, start, Long(t))
    ensures var slot := CodeOf(g, start, t) + [TAIL_KEY];
            && LongEntries(EntriesAt(v, slot), CodeOf(g, start, t))
            && ChunksOf(g, initial, HitOf(v, g, start, Long(t)))
               == LongChunks(g, StopOf(g, start, t).pos, EntriesAt(v, slot), Credibility(g, start, initial, t))
  {
    var code := CodeOf(g, start, t);
    var es := EntriesAt(v, code + [TAIL_KEY]);
    hide IsPath, StopOf, EntriesAt, Holds, LongEntries, TailChunks, LongChunks;
    InTailSlot(v, entries, code);
    WalkedCredibility(g, start, initial, t);
    var a := AccessorFor(v, code, TAIL_KEY, StopOf(g, start, t).Credibility());
    TailsGive(g, StopOf(g, start, t).pos, es, a, Times(initial, a.credibility));
    assert es[0..] == es;
  }

  lemma InTailSlot(v: Vocabulary, entries: seq<DictEntry>, code: seq<int>)
    requires Holds(v, entries) && |code| == INDEX_CODE_MAX_LENGTH
    ensures LongEntries(EntriesAt(v, code + [TAIL_KEY]), code)
  {
    hide EntriesAt, Holds;
    HeldMembers(v, entries, code + [TAIL_KEY]);
    forall e | e in EntriesAt(v, code + [TAIL_KEY])
      ensures |e.code| > INDEX_CODE_MAX_LENGTH && e.code[..INDEX_CODE_MAX_LENGTH] == code
    {
      assert Slot(e.code) == code + [TAIL_KEY];
      if |e.code| > INDEX_CODE_MAX_LENGTH {
        assert Slot(e.code)[..INDEX_CODE_MAX_LENGTH] == code;
      }
    }
  }

  // ----- sound and complete -----

  /** The entries of a chunk are entries of the dictionary, under the chunk's code. */
  ghost predicate Listed(entries: seq<DictEntry>, c: Chunk) {
    && c.cursor == 0 && c.remainingCode == ""
    && forall i :: 0 <= i < |c.entries| ==> IsImage(entries, c.code, c.entries[i])
  }

  ghost predicate IsImage(entries: seq<DictEntry>, code: seq<int>, image: Entry) {
    exists e :: e in entries && e.code == code && image == Entry(e.text, e.weight)
  }

  lemma {:induction false} InAllChunks(g: Graph, initial: real, hits: seq<Hit>, x: At<Chunk>) returns (i: nat)
    requires x in AllChunks(g, initial, hits)
    ensures i < |hits| && x in ChunksOf(g, initial, hits[i])
  {
    hide ChunksOf;
    if x in ChunksOf(g, initial, hits[|hits| - 1]) {
      i := |hits| - 1;
    } else {
      i := InAllChunks(g, initial, hits[..|hits| - 1], x);
    }
  }

  lemma {:induction false} AllChunksHave(g: Graph, initial: real, hits: seq<Hit>, i: nat, x: At<Chunk>)
    requires i < |hits| && x in ChunksOf(g, initial, hits[i])
    ensures x in AllChunks(g, initial, hits)
  {
    hide ChunksOf;
    if i < |hits| - 1 { AllChunksHave(g, initial, hits[..|hits| - 1], i, x); }
  }

  lemma InFoundAt(v: Vocabulary, g: Graph, start: nat, initial: real, end: nat, c: Chunk)
    ensures c in FoundAt(v, g, start, initial, end)
            <==> At(end, c) in AllChunks(g, initial, HitsAt(v, g, start, Finds(v, g, start)))
  {
    hide Finds, AllChunks, HitsAt;
    var all := AllChunks(g, initial, HitsAt(v, g, start, Finds(v, g, start)));
    ItemsAtContents(all, end, c);
    assert At(end, c) in all <==> At(end, c) in multiset(all);
  }

  lemma FromAFind(v: Vocabulary, g: Graph, start: nat, initial: real, finds: seq<Find>, x: At<Chunk>)
    ensures x in AllChunks(g, initial, HitsAt(v, g, start, finds))
            <==> exists f :: f in finds && x in ChunksOf(g, initial, HitOf(v, g, start, f))
  {
    hide HitOf, ChunksOf, AllChunks;
    var hits := HitsAt(v, g, start, finds);
    if x in AllChunks(g, initial, hits) {
      var i := InAllChunks(g, initial, hits, x);
      assert finds[i] in finds;
    }
    if f :| f in finds && x in ChunksOf(g, initial, HitOf(v, g, start, f)) {
      var i :| 0 <= i < |finds| && finds[i] == f;
      AllChunksHave(g, initial, hits, i, x);
    }
  }

  /** A chunk is found at a position exactly when one of the finds gives it there. */
  lemma FoundByFinds(v: Vocabulary, g: Graph, start: nat, initial: real, end: nat, c: Chunk)
    requires start < g.length
    ensures c in FoundAt(v, g, start, initial, end)
            <==> exists f :: IsFind(v, g, start, f) && At(end, c) in ChunksOf(g, initial, HitOf(v, g, start, f))
  {
    hide Finds, IsFind, HitOf, ChunksOf, AllChunks, HitsAt, FoundAt;
    FindsExactly(v, g, start);
    InFoundAt(v, g, start, initial, end, c);
    FromAFind(v, g, start, initial, Finds(v, g, start), At(end, c));
  }

  lemma {:induction false} InLongChunks(g: Graph, end: nat, es: seq<DictEntry>, credibility: real, x: At<Chunk>) returns (e: DictEntry)
    requires x in LongChunks(g, end, es, credibility)
    ensures e in es && x in LongChunk(g, end, e, credibility)
  {
    if x in LongChunk(g, end, es[0], credibility) {
      e := es[0];
    } else {
      e := InLongChunks(g, end, es[1..], credibility, x);
    }
  }

  lemma {:induction false} LongChunksHave(g: Graph, end: nat, es: seq<DictEntry>, credibility: real, e: DictEntry, x: At<Chunk>)
    requires e in es && x in LongChunk(g, end, e, credibility)
    ensures x in LongChunks(g, end, es, credibility)
  {
    if es[0] != e { LongChunksHave(g, end, es[1..], credibility, e, x); }
  }

  lemma WordIsListed(v: Vocabulary, entries: seq<DictEntry>, code: seq<int>, credibility: real)
    requires Holds(v, entries) && 1 <= |code| <= INDEX_CODE_MAX_LENGTH
    ensures Listed(entries, Chunk(code, Images(EntriesAt(v, code)), 0, "", credibility))
  {
    var found := EntriesAt(v, code);
    HeldMembers(v, entries, code);
    hide EntriesAt, Holds, Listed;
    forall e | e in found
      ensures e in entries && e.code == code
    {
      SameSlot(e.code, code);
    }
    ImagesAreListed(entries, found, code, credibility);
  }

  lemma ImagesAreListed(entries: seq<DictEntry>, found: seq<DictEntry>, code: seq<int>, credibility: real)
    requires forall e :: e in found ==> e in entries && e.code == code
    ensures Listed(entries, Chunk(code, Images(found), 0, "", credibility))
  {
    var images := Images(found);
    forall i | 0 <= i < |images|
      ensures IsImage(entries, code, images[i])
    {
      assert found[i] in found && ImageOf(found[i]) == images[i];
    }
    var c := Chunk(code, images, 0, "", credibility);
    assert c.remainingCode == "" && c.entries == images;
  }

  // ----- exactly what is found -----

  /** A path spells a short code up to `end`: the chunk of all its entries, worth as much as the
      edges before the last one. */
  ghost predicate WordAt(v: Vocabulary, g: Graph, start: nat, initial: real, end: nat, c: Chunk, t: Trail) {
    && IsPath(g, start, t) && 1 <= |t| <= INDEX_CODE_MAX_LENGTH && EndAt(g, start, t) == end
    && EntriesAt(v, IdsOf(t)) != []
    && c == Chunk(IdsOf(t), Images(EntriesAt(v, IdsOf(t))), 0, "", initial * Product(g, start, t[..|t| - 1]))
  }

  /** A path spells the first syllables of `e`, and the rest can be spelled up to `end` and no
      farther: a chunk for `e` alone, worth as much as the edges of the path. */
  ghost predicate LongAt(v: Vocabulary, g: Graph, start: nat, initial: real, end: nat, c: Chunk, t: Trail, e: DictEntry) {
    && IsPath(g, start, t) && |t| == INDEX_CODE_MAX_LENGTH && EndAt(g, start, t) < g.length && EndAt(g, start, t) in g.indices
    && e in EntriesAt(v, IdsOf(t) + [TAIL_KEY]) && |e.code| > INDEX_CODE_MAX_LENGTH
    && Farthest(g, e.code[INDEX_CODE_MAX_LENGTH..], EndAt(g, start, t)) == end != 0
    && c == Chunk(e.code, [Entry(e.text, e.weight)], 0, "", initial * Product(g, start, t))
  }

  lemma WordAtIs(v: Vocabulary, g: Graph, start: nat, initial: real, end: nat, c: Chunk, t: Trail)
    ensures WordAt(v, g, start, initial, end, c, t)
            <==> IsFind(v, g, start, Word(t)) && At(end, c) in ChunksOf(g, initial, HitOf(v, g, start, Word(t)))
  {
    StopTells(g, start, t);
    hide StopOf, Product, EndAt, IdsOf, ChunksOf, HitOf, EntriesAt, IsPath, Images;
    if 1 <= |t| <= INDEX_CODE_MAX_LENGTH { WordGives(v, g, start, initial, t); }
  }

  lemma LongAtIs(v: Vocabulary, entries: seq<DictEntry>, g: Graph, start: nat, initial: real, end: nat, c: Chunk, t: Trail)
    requires Holds(v, entries)
    ensures (exists e :: LongAt(v, g, start, initial, end, c, t, e))
            <==> IsFind(v, g, start, Long(t)) && At(end, c) in ChunksOf(g, initial, HitOf(v, g, start, Long(t)))
  {
    StopTells(g, start, t);
    hide StopOf, Product, EndAt, IdsOf, ChunksOf, HitOf, EntriesAt, IsPath, Farthest, Holds, LongChunks;
    assert CodeOf(g, start, t) == IdsOf(t);
    var es, cr := EntriesAt(v, IdsOf(t) + [TAIL_KEY]), Credibility(g, start, initial, t);
    assert cr == initial * Product(g, start, t);
    hide Credibility;
    if e :| LongAt(v, g, start, initial, end, c, t, e) {
      assert es != [] && IsFind(v, g, start, Long(t));
      LongGives(v, entries, g, start, initial, t);
      LongChunksHave(g, EndAt(g, start, t), es, cr, e, At(end, c));
    }
    if IsFind(v, g, start, Long(t)) && At(end, c) in ChunksOf(g, initial, HitOf(v, g, start, Long(t))) {
      LongGives(v, entries, g, start, initial, t);
      var e := InLongChunks(g, EndAt(g, start, t), es, cr, At(end, c));
      assert LongAt(v, g, start, initial, end, c, t, e);
    }
  }

  /** Main result: a chunk is found at a position if and only if a path gives it, as a word or as a
      longer entry. */
  lemma FoundExactly(v: Vocabulary, entries: seq<DictEntry>, g: Graph, start: nat, initial: real, end: nat, c: Chunk)
    requires Holds(v, entries) && start < g.length
    ensures c in FoundAt(v, g, start, initial, end)
            <==> (exists t :: WordAt(v, g, start, initial, end, c, t)) || (exists t, e :: LongAt(v, g, start, initial, end, c, t, e))
  {
    hide FoundAt, WordAt, LongAt, IsFind, ChunksOf, HitOf, Holds;
    FoundByFinds(v, g, start, initial, end, c);
    forall t
      ensures WordAt(v, g, start, initial, end, c, t)
              <==> IsFind(v, g, start, Word(t)) && At(end, c) in ChunksOf(g, initial, HitOf(v, g, start, Word(t)))
      ensures (exists e :: LongAt(v, g, start, initial, end, c, t, e))
              <==> IsFind(v, g, start, Long(t)) && At(end, c) in ChunksOf(g, initial, HitOf(v, g, start, Long(t)))
    {
      WordAtIs(v, g, start, initial, end, c, t);
      LongAtIs(v, entries, g, start, initial, end, c, t);
    }
    if f :| IsFind(v, g, start, f) && At(end, c) in ChunksOf(g, initial, HitOf(v, g, start, f)) {
      match f
      case Word(t) => assert WordAt(v, g, start, initial, end, c, t);
      case Long(t) => var e :| LongAt(v, g, start, initial, end, c, t, e);
    }
    if t :| WordAt(v, g, start, initial, end, c, t) {
      assert IsFind(v, g, start, Word(t)) && At(end, c) in ChunksOf(g, initial, HitOf(v, g, start, Word(t)));
    }
    if t, e :| LongAt(v, g, start, initial, end, c, t, e) {
      assert IsFind(v, g, start, Long(t)) && At(end, c) in ChunksOf(g, initial, HitOf(v, g, start, Long(t)));
    }
  }

  /** Main result, sound: whatever a lookup finds at a position are dictionary entries whose
      code the graph spells from the start to there. */
  lemma LookupIsSound(v: Vocabulary, entries: seq<DictEntry>, g: Graph, start: nat, initial: real, end: nat, c: Chunk)
    requires Holds(v, entries) && start < g.length && c in FoundAt(v, g, start, initial, end)
    ensures Listed(entries, c) && Spelled(g, start, c.code, end)
  {
    FoundByFinds(v, g, start, initial, end, c);
    var f :| IsFind(v, g, start, f) && At(end, c) in ChunksOf(g, initial, HitOf(v, g, start, f));
    hide FoundAt, Holds, EntriesAt, HitOf, ChunksOf, Listed, Spelled, LongEntries;
    if f.Word? {
      WordIsSound(v, entries, g, start, initial, end, c, f.t);
    } else {
      LongGives(v, entries, g, start, initial, f.t);
      LongIsSound(v, entries, g, start, end, c, f.t, Credibility(g, start, initial, f.t));
    }
  }

  lemma WordIsSound(v: Vocabulary, entries: seq<DictEntry>, g: Graph, start: nat, initial: real, end: nat, c: Chunk, t: Trail)
    requires Holds(v, entries) && IsFind(v, g, start, Word(t)) && At(end, c) in ChunksOf(g, initial, HitOf(v, g, start, Word(t)))
    ensures Listed(entries, c) && Spelled(g, start, c.code, end)
  {
    hide Holds, EntriesAt, HitOf, ChunksOf, Listed, StopOf, IsPath;
    WordGives(v, g, start, initial, t);
    WordIsListed(v, entries, CodeOf(g, start, t), Credibility(g, start, initial, t[..|t| - 1]));
    assert SpelledBy(g, start, c.code, t);
  }

  lemma LongIsSound(v: Vocabulary, entries: seq<DictEntry>, g: Graph, start: nat, end: nat, c: Chunk, t: Trail, credibility: real)
    requires Holds(v, entries) && IsPath(g, start, t)
    requires LongEntries(EntriesAt(v, CodeOf(g, start, t) + [TAIL_KEY]), CodeOf(g, start, t))
    requires At(end, c) in LongChunks(g, StopOf(g, start, t).pos, EntriesAt(v, CodeOf(g, start, t) + [TAIL_KEY]), credibility)
    ensures Listed(entries, c) && Spelled(g, start, c.code, end)
  {
    var slot := CodeOf(g, start, t) + [TAIL_KEY];
    hide IsPath, StopOf, Farthest, EntriesAt, Holds;
    var e := InLongChunks(g, StopOf(g, start, t).pos, EntriesAt(v, slot), credibility, At(end, c));
    HeldMembers(v, entries, slot);
    FarthestIsSpelled(g, e.code[INDEX_CODE_MAX_LENGTH..], StopOf(g, start, t).pos);
    assert SpelledBy(g, start, c.code[..INDEX_CODE_MAX_LENGTH], t);
    assert e in entries && ImageOf(e) == c.entries[0];
  }

  /** Main result, complete: an entry with a short code is found at the end of every path
      that spells it. */
  lemma LookupFindsWord(v: Vocabulary, entries: seq<DictEntry>, g: Graph, start: nat, initial: real, e: DictEntry, t: Trail)
    requires Holds(v, entries) && start < g.length && e in entries && 1 <= |e.code| <= INDEX_CODE_MAX_LENGTH
    requires SpelledBy(g, start, e.code, t)
    ensures Chunk(e.code, Images(EntriesAt(v, e.code)), 0, "", Credibility(g, start, initial, t[..|t| - 1]))
            in FoundAt(v, g, start, initial, StopOf(g, start, t).pos)
    ensures Entry(e.text, e.weight) in Images(EntriesAt(v, e.code))
  {
    InItsSlot(v, entries, e);
    WordGives(v, g, start, initial, t);
    assert IsFind(v, g, start, Word(t));
    hide EntriesAt, IsFind, FoundAt, HitOf, ChunksOf, IsPath, StopOf;
    var c := Chunk(e.code, Images(EntriesAt(v, e.code)), 0, "", Credibility(g, start, initial, t[..|t| - 1]));
    FoundByFinds(v, g, start, initial, StopOf(g, start, t).pos, c);
  }

  lemma {:induction false} InSlotHas(entries: seq<DictEntry>, e: DictEntry)
    requires e in entries && |e.code| > 0
    ensures e in InSlot(entries, Slot(e.code))
  {
    var n := |entries| - 1;
    if entries[n] == e {
      assert InSlot(entries, Slot(e.code)) == InSlot(entries[..n], Slot(e.code)) + [e];
    } else {
      InSlotHas(entries[..n], e);
    }
  }

  lemma InItsSlot(v: Vocabulary, entries: seq<DictEntry>, e: DictEntry)
    requires Holds(v, entries) && e in entries && |e.code| > 0
    ensures e in EntriesAt(v, Slot(e.code)) && ImageOf(e) in Images(EntriesAt(v, Slot(e.code)))
  {
    InSlotHas(entries, e);
    HeldMembers(v, entries, Slot(e.code));
    var found := EntriesAt(v, Slot(e.code));
    var i :| 0 <= i < |found| && found[i] == e;
    assert Images(found)[i] == ImageOf(e);
  }

  /** The slot of the entry is met. */
  lemma LongIsFind(v: Vocabulary, entries: seq<DictEntry>, g: Graph, start: nat, e: DictEntry, t: Trail)
    requires Holds(v, entries) && start < g.length && e in entries && |e.code| > INDEX_CODE_MAX_LENGTH
    requires SpelledBy(g, start, e.code[..INDEX_CODE_MAX_LENGTH], t)
    requires Farthest(g, e.code[INDEX_CODE_MAX_LENGTH..], StopOf(g, start, t).pos) != 0
    ensures CodeOf(g, start, t) == e.code[..INDEX_CODE_MAX_LENGTH] && |t| == INDEX_CODE_MAX_LENGTH
    ensures e in EntriesAt(v, CodeOf(g, start, t) + [TAIL_KEY]) && IsFind(v, g, start, Long(t))
  {
    hide EntriesAt, Holds, Images, Farthest, IsPath, StopOf, IsFind, SpelledBy, CodeOf;
    SpelledLength(g, start, e.code[..INDEX_CODE_MAX_LENGTH], t);
    InItsSlot(v, entries, e);
    FartherInside(g, e.code[INDEX_CODE_MAX_LENGTH..], StopOf(g, start, t).pos);
    LongFind(v, g, start, t);
  }

  lemma LongFind(v: Vocabulary, g: Graph, start: nat, t: Trail)
    requires IsPath(g, start, t) && |t| == INDEX_CODE_MAX_LENGTH
    requires StopOf(g, start, t).pos < g.length && StopOf(g, start, t).pos in g.indices
    requires EntriesAt(v, CodeOf(g, start, t) + [TAIL_KEY]) != []
    ensures IsFind(v, g, start, Long(t))
  {
    hide EntriesAt, IsPath, StopOf;
  }

  lemma SpelledLength(g: Graph, start: nat, code: seq<int>, t: Trail)
    requires SpelledBy(g, start, code, t)
    ensures IsPath(g, start, t) && CodeOf(g, start, t) == code && |t| == |code|
  {
  }

  lemma FartherInside(g: Graph, code: seq<int>, pos: nat)
    requires code != [] && Farthest(g, code, pos) != 0
    ensures pos < g.length && pos in g.indices
  {
  }

  /** Main result, complete: an entry with a longer code is found, for every path that spells
      its index code, at the farthest position the rest of its code can be spelled to. */
  lemma LookupFindsLong(v: Vocabulary, entries: seq<DictEntry>, g: Graph, start: nat, initial: real, e: DictEntry, t: Trail)
    requires Holds(v, entries) && start < g.length && e in entries && |e.code| > INDEX_CODE_MAX_LENGTH
    requires SpelledBy(g, start, e.code[..INDEX_CODE_MAX_LENGTH], t)
    requires Farthest(g, e.code[INDEX_CODE_MAX_LENGTH..], StopOf(g, start, t).pos) != 0
    ensures Chunk(e.code, [Entry(e.text, e.weight)], 0, "", Credibility(g, start, initial, t))
            in FoundAt(v, g, start, initial, Farthest(g, e.code[INDEX_CODE_MAX_LENGTH..], StopOf(g, start, t).pos))
  {
    var code := CodeOf(g, start, t);
    LongIsFind(v, entries, g, start, e, t);
    hide *;
    LongGives(v, entries, g, start, initial, t);
    var end := StopOf(g, start, t).pos;
    var farthest := Farthest(g, e.code[INDEX_CODE_MAX_LENGTH..], end);
    var c := Chunk(e.code, [Entry(e.text, e.weight)], 0, "", Credibility(g, start, initial, t));
    LongChunksHave(g, end, EntriesAt(v, code + [TAIL_KEY]), Credibility(g, start, initial, t), e, At(farthest, c));
    FoundByFinds(v, g, start, initial, farthest, c);
  }

  // ----- in the order of weight -----

  /** Credibilities are factors, never negative. */
  ghost predicate Credible(g: Graph) {
    forall p, id, k :: p in g.indices && id in g.indices[p] && 0 <= k < |g.indices[p][id]| ==> g.indices[p][id][k].credibility >= 0.0
  }

  lemma {:induction false} ProductIsCredible(g: Graph, start: nat, t: Trail)
    requires Credible(g)
    ensures Product(g, start, t) >= 0.0
  {
    if |t| > 0 {
      var init, c := t[..|t| - 1], t[|t| - 1];
      ProductIsCredible(g, start, init);
      var p := Edge(g, EndAt(g, start, init), c);
      assert p.credibility >= 0.0;
      TimesFactors(Product(g, start, init), p.credibility);
    }
  }

  lemma CredibilityIsFactor(g: Graph, start: nat, initial: real, t: Trail)
    requires Credible(g) && initial >= 0.0
    ensures Credibility(g, start, initial, t) >= 0.0
  {
    ProductIsCredible(g, start, t);
    TimesFactors(initial, Product(g, start, t));
  }

  lemma {:induction false} LongChunksAreSingle(g: Graph, end: nat, es: seq<DictEntry>, credibility: real, x: At<Chunk>)
    requires x in LongChunks(g, end, es, credibility)
    ensures |x.item.entries| == 1 && x.item.cursor == 0 && x.item.credibility == credibility
  {
    if x !in LongChunk(g, end, es[0], credibility) { LongChunksAreSingle(g, end, es[1..], credibility, x); }
  }

  /** What can be merged by weight. */
  ghost predicate Mergeable(c: Chunk) {
    c.Live() && Descending(c) && c.credibility >= 0.0
  }

  lemma WordIsDescending(v: Vocabulary, g: Graph, start: nat, initial: real, end: nat, c: Chunk, t: Trail)
    requires IsFind(v, g, start, Word(t)) && At(end, c) in ChunksOf(g, initial, HitOf(v, g, start, Word(t)))
    requires Credible(g) && initial >= 0.0 && HeavierFirst(EntriesAt(v, CodeOf(g, start, t)))
    ensures Mergeable(c)
  {
    WordGives(v, g, start, initial, t);
    hide EntriesAt, HitOf, ChunksOf, IsPath, StopOf, Credible;
    CredibilityIsFactor(g, start, initial, t[..|t| - 1]);
  }

  lemma LongIsDescending(v: Vocabulary, entries: seq<DictEntry>, g: Graph, start: nat, initial: real, end: nat, c: Chunk, t: Trail)
    requires Holds(v, entries) && IsFind(v, g, start, Long(t)) && At(end, c) in ChunksOf(g, initial, HitOf(v, g, start, Long(t)))
    requires Credible(g) && initial >= 0.0
    ensures Mergeable(c)
  {
    hide Holds, EntriesAt, HitOf, ChunksOf, IsPath, StopOf, Credible, LongEntries;
    LongGives(v, entries, g, start, initial, t);
    CredibilityIsFactor(g, start, initial, t);
    LongChunksAreSingle(g, StopOf(g, start, t).pos, EntriesAt(v, CodeOf(g, start, t) + [TAIL_KEY]),
                        Credibility(g, start, initial, t), At(end, c));
  }

  /** Every chunk that a lookup in a sorted vocabulary finds can be merged by weight. */
  lemma FoundIsDescending(v: Vocabulary, entries: seq<DictEntry>, g: Graph, start: nat, initial: real, end: nat, c: Chunk)
    requires Holds(v, entries) && start < g.length && c in FoundAt(v, g, start, initial, end)
    requires Credible(g) && initial >= 0.0 && forall path :: HeavierFirst(EntriesAt(v, path))
    ensures Mergeable(c)
  {
    FoundByFinds(v, g, start, initial, end, c);
    var f :| IsFind(v, g, start, f) && At(end, c) in ChunksOf(g, initial, HitOf(v, g, start, f));
    hide FoundAt, Holds, EntriesAt, HitOf, ChunksOf, IsFind, StopOf, Credible, Mergeable, HeavierFirst;
    match f
    case Word(t) => WordIsDescending(v, g, start, initial, end, c, t);
    case Long(t) => LongIsDescending(v, entries, g, start, initial, end, c, t);
  }

  /** Main result on order: in a dictionary whose homophones are sorted, going through what a
      lookup finds at a position shows every entry once, the best ones first. */
  lemma LookupRunsInOrder(v: Vocabulary, entries: seq<DictEntry>, g: Graph, start: nat, initial: real, collector: Collector, end: nat)
    requires Holds(v, entries) && start < g.length && IsLookup(v, g, start, initial, collector) && end in collector
    requires Credible(g) && initial >= 0.0 && forall path :: HeavierFirst(EntriesAt(v, path))
    ensures AllLive(collector[end]) && Ordered(Run(collector[end]))
    ensures multiset(Run(collector[end])) == multiset(Flat(collector[end]))
  {
    hide FoundAt, Holds, EntriesAt, Credible, HeavierFirst, Descending;
    forall c | c in collector[end]
      ensures Mergeable(c)
    {
      assert c in multiset(collector[end]);
      FoundIsDescending(v, entries, g, start, initial, end, c);
    }
    RunIsOrdered(collector[end]);
    RunIsComplete(collector[end]);
  }
}
