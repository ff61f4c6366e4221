/** The user dictionary lookup: one cursor over the sorted store, moved along with a
    depth-first walk of the syllable graph. */
module UserDictionaries {
  import opened Commons
  import opened Spellings
  import opened Lexicographic
  import opened UserScans
  import opened UserFinds
  import opened UserEntries

  /** The first record whose key is not before `key`. */
  function LowerBound(data: seq<Record>, key: string, n: nat): (r: nat)
    requires n <= |data|
    ensures r <= n && forall i :: r <= i < n ==> AtMost(key, data[i].key)
    ensures r > 0 ==> Less(data[r - 1].key, key)
  {
    if n > 0 && AtMost(key, data[n - 1].key) then LowerBound(data, key, n - 1) else n
  }

  lemma BeforeIsBefore(key: string, a: string, b: string)
    requires Less(a, b) && Less(b, key)
    ensures !AtMost(key, a)
  {
    Total(a, b);
    if AtMost(key, a) { Transitive(key, a, b); }
  }

  lemma LowerBoundSplits(src: Source, key: string, i: nat)
    requires src.SortedStore() && i < |src.db|
    ensures AtMost(key, src.db[i].key) <==> LowerBound(src.db, key, |src.db|) <= i
  {
    hide AtMost, Source.SortedStore;
    var r := LowerBound(src.db, key, |src.db|);
    if i + 1 < r {
      Ascends(src, i, r - 1);
      BeforeIsBefore(key, src.db[i].key, src.db[r - 1].key);
    }
  }

  lemma Ascends(src: Source, i: nat, j: nat)
    requires src.SortedStore() && i < j < |src.db|
    ensures Less(src.db[i].key, src.db[j].key)
  {
    hide AtMost, Source.WellFormedKey;
  }

  class TextDbAccessor {
    const data: seq<Record>
    const prefix: string
    var iter: nat

    constructor (data: seq<Record>, prefix: string)
      ensures this.data == data && this.prefix == prefix
      ensures iter == if prefix == "" then 0 else LowerBound(data, prefix, |data|)
    {
      this.data, this.prefix := data, prefix;
      iter := if prefix == "" then 0 else LowerBound(data, prefix, |data|);
    }

    predicate Exhausted()
      requires iter <= |data|
      reads this
    {
      iter == |data| || !(prefix <= data[iter].key)
    }

    method Jump(key: string) returns (ok: bool)
      modifies this
      ensures iter == LowerBound(data, key, |data|) && ok == (iter < |data|)
    {
      iter := LowerBound(data, key, |data|);
      ok := iter < |data|;
    }

    method GetNextRecord() returns (ok: bool, record: Record)
      requires iter <= |data|
      modifies this
      ensures ok == old(!Exhausted())
      ensures ok ==> old(iter) < |data| && record == data[old(iter)] && iter == old(iter) + 1
      ensures !ok ==> iter == old(iter)
    {
      if Exhausted() {
        return false, Record("", Malformed);
      }
      record := data[iter];
      iter := iter + 1;
      ok := true;
    }
  }

  class DfsState {
    const src: Source
    const accessor: TextDbAccessor
    var code: seq<int>
    var credibility: seq<real>
    var collector: Collector
    var key: string
    var value: Value

    constructor (src: Source, accessor: TextDbAccessor, initialCredibility: real)
      ensures this.src == src && this.accessor == accessor
      ensures code == [] && credibility == [initialCredibility] && collector == map[]
      ensures key == "" && value == Malformed
    {
      this.src, this.accessor := src, accessor;
      code, credibility, collector := [], [initialCredibility], map[];
      key, value := "", Malformed;
    }

    ghost predicate Valid()
      reads this, accessor
    {
      && src.Valid()
      && accessor.data == src.db && accessor.prefix == "" && accessor.iter <= |src.db|
      && src.Translatable(code) && |credibility| > 0
      && (key == "" || '\t' in key)
      && PastMetadata()
    }

    /** The cursor has passed the metadata. */
    ghost predicate PastMetadata()
      reads this, accessor
    {
      LowerBound(src.db, " ", |src.db|) <= accessor.iter
    }

    /** The record at hand is number `i`. */
    ghost predicate Holds(i: nat)
      reads this, accessor
    {
      i < |src.db| && key == src.db[i].key && value == src.db[i].value && accessor.iter == i + 1
    }

    predicate IsExactMatch(prefix: string)
      reads this
    {
      prefix + "\t" <= key
    }

    predicate IsPrefixMatch(prefix: string)
      reads this
    {
      prefix <= key
    }

    method NextEntry() returns (ok: bool)
      requires Valid()
      modifies this`key, this`value, accessor
      ensures Valid()
      ensures ok <==> old(accessor.iter) < |src.db|
      ensures ok ==> Holds(old(accessor.iter))
      ensures !ok ==> key == "" && accessor.iter == |src.db|
    {
      var record;
      ok, record := accessor.GetNextRecord();
      if !ok {
        key, value := "", Malformed;
        return;
      }
      key, value := record.key, record.value;
      TabIsIn(src, old(accessor.iter));
    }

    method ForwardScan(prefix: string) returns (ok: bool)
      requires Valid() && AtMost(" ", prefix)
      modifies this`key, this`value, accessor
      ensures Valid()
      ensures ok <==> LowerBound(src.db, prefix, |src.db|) < |src.db|
      ensures ok ==> Holds(LowerBound(src.db, prefix, |src.db|))
      ensures !ok ==> key == old(key)
    {
      JumpsForward(src, prefix);
      ok := accessor.Jump(prefix);
      if !ok {
        return;
      }
      ok := NextEntry();
    }

    method RecruitEntry(pos: nat, ghost i: nat)
      requires Valid() && Holds(i) && Exact(src, code, i)
      modifies this`collector
      ensures collector == AddEntries(old(collector), pos, src.EntryAt(Here(pos), i))
    {
      var e := src.CreateDictEntry(Record(key, value), code, credibility[|credibility| - 1]);
      assert src.db[i] == Record(key, value);
      if e.Some? {
        collector := AddEntries(collector, pos, [e.value]);
      }
    }

    /** The path walked so far, ending at `pos`. */
    ghost function Here(pos: nat): PathEnd
      requires |credibility| > 0
      reads this
    {
      PathEnd(code, pos, credibility[|credibility| - 1])
    }

    /** Recruits the entries of the current code, which stand together from the record at
        hand on; `next` is the first record after them. */
    method RecruitExact(prefix: string, pos: nat, ghost lo: nat) returns (ghost next: nat)
      requires Valid() && prefix == src.CodeString(code) && Holds(lo)
      requires forall i :: 0 <= i < lo ==> !Exact(src, code, i)
      modifies this`key, this`value, this`collector, accessor
      ensures Valid()
      ensures Stopped(lo, next)
      ensures collector == AddEntries(old(collector), pos, src.MatchesUpTo(Here(pos), next))
    {
      hide Source.Valid, Source.CreateDictEntry, Source.EntryAt, Source.CodeString, AddEntries, LowerBound;
      next := lo;
      ghost var path := Here(pos);
      MatchesUpToSkip(src, path, 0, lo);
      AddNothing(collector, pos);
      while IsExactMatch(prefix)
        invariant Valid() && lo <= next && Holds(next)
        invariant forall i :: lo <= i < next ==> Exact(src, code, i)
        invariant collector == AddEntries(old(collector), pos, src.MatchesUpTo(path, next))
        decreases |src.db| - next
      {
        RecruitEntry(pos, next);
        AddEntriesTwice(old(collector), pos, src.MatchesUpTo(path, next), src.EntryAt(path, next));
        next := next + 1;
        var more := NextEntry();
        if !more {
          break;
        }
      }
    }

    // ----- the walk -----

    /** Looks up the phrases that continue the current code from `pos`. Requires that some
        key starts with the current prefix. */
    method DfsLookup(pos: nat, currentPrefix: string)
      requires Valid() && pos <= src.length && currentPrefix == src.CodeString(code) && currentPrefix <= key
      modifies this`code, this`credibility, this`collector, this`key, this`value, accessor
      ensures Valid() && code == old(code) && credibility == old(credibility)
      ensures src.AllTranslatable(Ahead(pos))
      ensures collector == src.Gather(old(collector), old(Ahead(pos)))
      ensures Placed(src, currentPrefix, key)
      decreases src.length - pos, 3, 0
    {
      hide Source.SortedStore, Source.SortedSyllabary, Source.ForwardGraph, Source.Gather, Source.CodeString, Placed,
           Source.PathsBy, Source.AllTranslatable, Continue;
      ghost var cr := credibility[|credibility| - 1];
      PathsContinue(src, pos, code, cr);
      ContinueTranslatable(src, code, src.Paths(pos, code, cr));
      StartsPlaced(src, currentPrefix, key);
      if pos !in src.indices {
        GatherNothing(src, collector, []);
        return;
      }
      var ids := src.indices[pos].Keys;
      while |ids| > 0
        invariant Valid() && code == old(code) && credibility == old(credibility)
        invariant ids <= src.indices[pos].Keys && currentPrefix <= key
        invariant src.AllTranslatable(src.PathsOver(pos, code, cr, ids))
        invariant src.Gather(collector, src.PathsOver(pos, code, cr, ids))
                  == src.Gather(old(collector), src.Paths(pos, code, cr))
      {
        var id := Least(ids);
        ghost var before := collector;
        LookupSyllable(pos, currentPrefix, id);
        GatherOver(src, before, pos, code, cr, ids);
        if !IsPrefixMatch(currentPrefix) {
          NothingLater(src, pos, code, cr, ids, key);
          GatherNothing(src, collector, src.PathsOver(pos, code, cr, ids - {id}));
          return;
        }
        ids := ids - {id};
      }
      GatherNothing(src, collector, []);
      StartsPlaced(src, currentPrefix, key);
    }

    /** Looks up the phrases whose next syllable is `id`. If the key at hand has left the
        current prefix afterwards, no later syllable has any. */
    method LookupSyllable(pos: nat, currentPrefix: string, id: int)
      requires Valid() && pos <= src.length && pos in src.indices && id in src.indices[pos]
      requires currentPrefix == src.CodeString(code) && currentPrefix <= key
      modifies this`code, this`credibility, this`collector, this`key, this`value, accessor
      ensures Valid() && code == old(code) && credibility == old(credibility)
      ensures src.AllTranslatable(Through(pos, id))
      ensures collector == src.Gather(old(collector), Through(pos, id))
      ensures currentPrefix <= key || (src.Known(id) && Placed(src, src.CodeString(code + [id]), key))
      decreases src.length - pos, 2, 0
    {
      hide Source.SortedStore, Source.SortedSyllabary, Source.Gather, Source.CodeString, Placed, Source.PathsBy, Source.AllTranslatable;
      code := code + [id];
      var ok, prefix := TranslateCodeToString();
      if !ok {
        code := code[..|code| - 1];
        GatherNothing(src, collector, []);
        return;
      }
      LookupSpellings(pos, prefix, src.indices[pos][id]);
      code := code[..|code| - 1];
    }

    /** The paths that go on from `pos` by syllable `id`. */
    ghost function Through(pos: nat, id: int): seq<PathEnd>
      requires src.ForwardGraph() && pos <= src.length && |credibility| > 0
      requires pos in src.indices && id in src.indices[pos]
      reads this
    {
      if src.Known(id) then src.PathsBy(pos, code + [id], credibility[|credibility| - 1], src.indices[pos][id], 0) else []
    }

    method TranslateCodeToString() returns (ok: bool, result: string)
      requires |code| > 0 && src.Translatable(code[..|code| - 1])
      ensures ok <==> src.Known(code[|code| - 1])
      ensures ok ==> src.Translatable(code) && result == src.CodeString(code)
    {
      assert forall k :: 0 <= k < |code| - 1 ==> code[k] == code[..|code| - 1][k];
      result := "";
      for i := 0 to |code|
        invariant src.Translatable(code[..i]) && result == src.CodeString(code[..i])
      {
        if !src.Known(code[i]) {
          return false, "";
        }
        assert code[..i + 1][..i] == code[..i];
        result := result + src.syllabary[code[i]] + " ";
      }
      assert code[..|code|] == code;
      ok := true;
    }

    /** The paths that continue the current code from `pos`. */
    ghost function Ahead(pos: nat): seq<PathEnd>
      requires src.ForwardGraph() && pos <= src.length && |credibility| > 0
      reads this
    {
      src.Paths(pos, code, credibility[|credibility| - 1])
    }

    /** Tries the edges of one syllable. Abbreviated spellings other than the first are
        skipped. */
    method LookupSpellings(pos: nat, prefix: string, list: seq<Properties>)
      requires Valid() && pos <= src.length && prefix == src.CodeString(code) && |code| > 0
      requires forall k :: 0 <= k < |list| ==> pos < list[k].endPos <= src.length
      modifies this`code, this`credibility, this`collector, this`key, this`value, accessor
      ensures Valid() && code == old(code) && credibility == old(credibility)
      ensures src.AllTranslatable(src.PathsBy(pos, code, credibility[|credibility| - 1], list, 0))
      ensures collector == src.Gather(old(collector), src.PathsBy(pos, code, credibility[|credibility| - 1], list, 0))
      ensures |list| > 0 ==> Placed(src, prefix, key)
      ensures |list| == 0 ==> key == old(key)
      decreases src.length - pos, 1, 0
    {
      hide Placed, Source.PathsAlong, Source.Paths, Source.Gather, Source.CodeString, Source.SortedStore,
           Source.SortedSyllabary, Source.ForwardGraph, Source.AllTranslatable;
      ghost var cr := credibility[|credibility| - 1];
      PathsByTranslatable(src, pos, code, cr, list, 0);
      for i := 0 to |list|
        invariant Valid() && code == old(code) && credibility == old(credibility)
        invariant src.AllTranslatable(src.PathsBy(pos, code, cr, list, i))
        invariant src.Gather(collector, src.PathsBy(pos, code, cr, list, i))
                  == src.Gather(old(collector), src.PathsBy(pos, code, cr, list, 0))
        invariant if i > 0 then Placed(src, prefix, key) else key == old(key)
      {
        PathsByTranslatable(src, pos, code, cr, list, i + 1);
        if i > 0 && list[i].kind >= ABBREVIATION {
          assert src.PathsBy(pos, code, cr, list, i) == src.PathsBy(pos, code, cr, list, i + 1);
          continue;
        }
        ghost var before := collector;
        PathsByStep(src, pos, code, cr, list, i);
        PathsAlongTranslatable(src, code, Times(cr, list[i].credibility), list[i].endPos);
        credibility := credibility + [Times(credibility[|credibility| - 1], list[i].credibility)];
        assert credibility[|credibility| - 1] == Times(cr, list[i].credibility);
        TryEdge(prefix, list[i].endPos);
        credibility := credibility[..|credibility| - 1];
        GatherConcat(src, before, src.PathsAlong(code, Times(cr, list[i].credibility), list[i].endPos),
                     src.PathsBy(pos, code, cr, list, i + 1));
      }
      GatherNothing(src, collector, []);
    }

    /** Tries one edge: recruits the entries of the current code at its end, and goes on
        from there while some key may still follow. */
    method TryEdge(prefix: string, end: nat)
      requires Valid() && end <= src.length && prefix == src.CodeString(code) && |code| > 0
      modifies this`code, this`credibility, this`collector, this`key, this`value, accessor
      ensures Valid() && code == old(code) && credibility == old(credibility)
      ensures src.AllTranslatable(src.PathsAlong(code, credibility[|credibility| - 1], end))
      ensures collector == src.Gather(old(collector), src.PathsAlong(code, credibility[|credibility| - 1], end))
      ensures Placed(src, prefix, key)
      decreases src.length - end, 4, 0
    {
      hide Source.SortedStore, Source.SortedSyllabary, Source.ForwardGraph, Source.CodeString, Source.Gather,
           Source.CreateDictEntry, Source.MatchesUpTo, Source.Paths, Source.PathsAlong, Source.Matches, Placed, PassedExact, Source.AllTranslatable, Continue, Under,
           NothingFor, Exact, AddEntries;
      ghost var lo := LowerBound(src.db, prefix, |src.db|);
      ghost var deeper := if src.MayDeepen(code) then Ahead(end) else [];
      PathsAlongContinue(src, code, credibility[|credibility| - 1], end);
      PathsContinue(src, end, code, credibility[|credibility| - 1]);
      CodeIsNotKey(src, code, key);
      CodeIsNoMetadata(src, code);
      var ok := true;
      if prefix != key {
        ok := ForwardScan(prefix);
      }
      if !ok {
        AfterLast(src, Here(end), key, deeper);
        AddNothing(collector, end);
        GatherAlong(src, collector, Here(end), deeper);
        GatherNothing(src, collector, deeper);
        return;
      }
      BeforeFirst(src, code, lo);
      ghost var next := RecruitExact(prefix, end, lo);
      AfterExact(src, Here(end), lo, next, key);
      GatherAlong(src, old(collector), Here(end), deeper);
      if src.MayDeepen(code) && IsPrefixMatch(prefix) {
        DfsLookup(end, prefix);
      } else {
        if src.MayDeepen(code) { AfterBlock(src, code, lo, next, key, deeper); }
        GatherNothing(src, collector, deeper);
      }
    }

    /** The scan has passed the records of the current code, `lo` up to `next`. */
    ghost predicate Stopped(lo: nat, next: nat)
      reads this, accessor
    {
      PassedExact(src, code, lo, next, key) && (next < |src.db| ==> Holds(next))
    }
  }

  ghost predicate PassedExact(src: Source, code: seq<int>, lo: nat, next: nat, key: string) {
    && lo <= next <= |src.db| && src.Translatable(code)
    && (forall i :: lo <= i < next ==> Exact(src, code, i))
    && (next < |src.db| ==> key == src.db[next].key && !Exact(src, code, next))
    && (next == |src.db| ==> key == "")
  }

  lemma PathsByStep(src: Source, pos: nat, code: seq<int>, credibility: real, list: seq<Properties>, i: nat)
    requires src.ForwardGraph() && pos <= src.length && i < |list| && src.Usable(list, i)
    requires forall k :: 0 <= k < |list| ==> pos < list[k].endPos <= src.length
    ensures src.PathsBy(pos, code, credibility, list, i)
            == src.PathsAlong(code, Times(credibility, list[i].credibility), list[i].endPos)
               + src.PathsBy(pos, code, credibility, list, i + 1)
  {
  }

  lemma ContinueTranslatable(src: Source, code: seq<int>, paths: seq<PathEnd>)
    requires Continue(src, code, paths)
    ensures src.AllTranslatable(paths)
  {
  }

  lemma PathsAlongTranslatable(src: Source, code: seq<int>, credibility: real, end: nat)
    requires src.ForwardGraph() && end <= src.length && src.Translatable(code)
    ensures src.AllTranslatable(src.PathsAlong(code, credibility, end))
  {
    PathsAlongContinue(src, code, credibility, end);
  }

  /** One syllable at a time. */
  lemma GatherOver(src: Source, collector: Collector, pos: nat, code: seq<int>, credibility: real, ids: set<int>)
    requires src.ForwardGraph() && pos <= src.length && src.Translatable(code)
    requires pos in src.indices && ids <= src.indices[pos].Keys && |ids| > 0
    ensures var id := Least(ids);
            var through := if src.Known(id) then src.PathsBy(pos, code + [id], credibility, src.indices[pos][id], 0) else [];
            && src.AllTranslatable(through) && src.AllTranslatable(src.PathsOver(pos, code, credibility, ids))
            && src.AllTranslatable(src.PathsOver(pos, code, credibility, ids - {id}))
            && src.Gather(collector, src.PathsOver(pos, code, credibility, ids))
               == src.Gather(src.Gather(collector, through), src.PathsOver(pos, code, credibility, ids - {id}))
  {
    var id := Least(ids);
    var through := if src.Known(id) then src.PathsBy(pos, code + [id], credibility, src.indices[pos][id], 0) else [];
    if src.Known(id) { PathsByContinue(src, pos, code, id, credibility, src.indices[pos][id], 0); }
    PathsOverContinue(src, pos, code, credibility, ids);
    PathsOverContinue(src, pos, code, credibility, ids - {id});
    GatherConcat(src, collector, through, src.PathsOver(pos, code, credibility, ids - {id}));
  }

  /** Every path of `PathsOver` goes through one of the syllables. */
  lemma {:induction false} PathsOverThrough(src: Source, pos: nat, code: seq<int>, credibility: real, ids: set<int>, k: nat)
    requires src.ForwardGraph() && pos <= src.length && src.Translatable(code)
    requires pos in src.indices && ids <= src.indices[pos].Keys
    requires k < |src.PathsOver(pos, code, credibility, ids)|
    ensures var path := src.PathsOver(pos, code, credibility, ids)[k];
            src.Translatable(path.code) && exists id :: id in ids && src.Known(id) && code + [id] <= path.code
    decreases |ids|
  {
    var id := Least(ids);
    var through := if src.Known(id) then src.PathsBy(pos, code + [id], credibility, src.indices[pos][id], 0) else [];
    if src.Known(id) { PathsByContinue(src, pos, code, id, credibility, src.indices[pos][id], 0); }
    if k >= |through| {
      PathsOverThrough(src, pos, code, credibility, ids - {id}, k - |through|);
    }
  }

  lemma NothingLater(src: Source, pos: nat, code: seq<int>, credibility: real, ids: set<int>, key: string)
    requires src.Valid() && pos <= src.length && src.Translatable(code)
    requires pos in src.indices && ids <= src.indices[pos].Keys && |ids| > 0
    requires src.Known(Least(ids)) && Placed(src, src.CodeString(code + [Least(ids)]), key)
    requires !(src.CodeString(code) <= key)
    ensures NothingFor(src, src.PathsOver(pos, code, credibility, ids - {Least(ids)}))
    ensures Placed(src, src.CodeString(code), key)
  {
    var id := Least(ids);
    var paths := src.PathsOver(pos, code, credibility, ids - {id});
    forall k | 0 <= k < |paths|
      ensures src.Translatable(paths[k].code) && forall i :: 0 <= i < |src.db| ==> !Exact(src, paths[k].code, i)
    {
      PathsOverThrough(src, pos, code, credibility, ids - {id}, k);
      var later :| later in ids - {id} && src.Known(later) && code + [later] <= paths[k].code;
      EarlyReturn(src, code, id, key, later, paths[k]);
    }
    CodeStringStep(src, code, id);
    PlacedUnder(src, src.CodeString(code), src.CodeString(code + [id]), key);
  }

  lemma PlacedUnder(src: Source, c: string, p: string, key: string)
    requires c <= p && Placed(src, p, key)
    ensures Placed(src, c, key)
  {
    forall i | 0 <= i < |src.db| && Beyond(c, src.db[i].key)
      ensures AtMost(c, key) && AtMost(key, src.db[i].key)
    {
      BeyondBlock(c, p, src.db[i].key);
      Total(p, src.db[i].key);
      assert Beyond(p, src.db[i].key);
      PrefixAtMost(c, p);
      Transitive(c, p, key);
    }
  }

  lemma PathsByTranslatable(src: Source, pos: nat, code: seq<int>, credibility: real, list: seq<Properties>, i: nat)
    requires src.ForwardGraph() && pos <= src.length && src.Translatable(code) && |code| > 0 && i <= |list|
    requires forall k :: 0 <= k < |list| ==> pos < list[k].endPos <= src.length
    ensures src.AllTranslatable(src.PathsBy(pos, code, credibility, list, i))
  {
    var id := code[|code| - 1];
    assert code[..|code| - 1] + [id] == code;
    PathsByContinue(src, pos, code[..|code| - 1], id, credibility, list, i);
  }

  lemma StartsPlaced(src: Source, prefix: string, key: string)
    requires src.SortedStore() && prefix <= key
    ensures Placed(src, prefix, key)
  {
    forall i | 0 <= i < |src.db| && Beyond(prefix, src.db[i].key)
      ensures AtMost(prefix, key) && AtMost(key, src.db[i].key)
    {
      PrefixAtMost(prefix, key);
      BeyondBlock(prefix, key, src.db[i].key);
      Total(key, src.db[i].key);
    }
  }

  lemma CodeIsNotKey(src: Source, code: seq<int>, key: string)
    requires src.SortedSyllabary() && src.Translatable(code) && |code| > 0
    requires key == "" || '\t' in key
    ensures src.CodeString(code) != key
  {
    CodeStringChars(src, code);
    assert |src.CodeString(code)| > 0;
  }

  lemma BeforeFirst(src: Source, code: seq<int>, lo: nat)
    requires src.Valid() && src.Translatable(code) && lo == LowerBound(src.db, src.CodeString(code), |src.db|)
    ensures forall i :: 0 <= i < lo && i < |src.db| ==> !Exact(src, code, i)
  {
    forall i | 0 <= i < lo && i < |src.db|
      ensures !Exact(src, code, i)
    {
      LowerBoundSplits(src, src.CodeString(code), i);
      if Exact(src, code, i) {
        assert src.CodeString(code) <= src.CodeString(code) + "\t";
        PrefixAtMost(src.CodeString(code), src.db[i].key);
      }
    }
  }

  /** Once the records of a code are passed, the rest of the store has none, and the key at
      hand comes no later than any record beyond the keys that start with the code. */
  lemma AfterExact(src: Source, path: PathEnd, lo: nat, next: nat, key: string)
    requires src.Valid() && PassedExact(src, path.code, lo, next, key) && |path.code| > 0
    requires lo == LowerBound(src.db, src.CodeString(path.code), |src.db|)
    ensures src.MatchesUpTo(path, next) == src.Matches(path)
    ensures Placed(src, src.CodeString(path.code), key)
  {
    var p := src.CodeString(path.code);
    forall j | next <= j < |src.db|
      ensures !Exact(src, path.code, j)
    {
      LowerBoundSplits(src, p, next);
      if next < j && Exact(src, path.code, j) { ExactFirst(src, path.code, next, j); }
    }
    MatchesUpToSkip(src, path, next, |src.db|);
    forall i | 0 <= i < |src.db| && Beyond(p, src.db[i].key)
      ensures AtMost(p, key) && AtMost(key, src.db[i].key)
    {
      LowerBoundSplits(src, p, i);
      BeyondIsNotExact(src, path.code, i);
      LowerBoundSplits(src, p, next);
      KeysInOrder(src, next, i);
    }
  }

  lemma BeyondIsNotExact(src: Source, code: seq<int>, i: nat)
    requires src.Translatable(code) && i < |src.db| && Beyond(src.CodeString(code), src.db[i].key)
    ensures !Exact(src, code, i)
  {
    assert src.CodeString(code) <= src.CodeString(code) + "\t";
  }

  lemma KeysInOrder(src: Source, i: nat, j: nat)
    requires src.SortedStore() && i <= j < |src.db|
    ensures AtMost(src.db[i].key, src.db[j].key)
  {
    Reflexive(src.db[i].key);
    if i < j { Total(src.db[i].key, src.db[j].key); }
  }

  /** If the key at hand does not start with the code, no longer code has an entry. */
  lemma AfterBlock(src: Source, code: seq<int>, lo: nat, next: nat, key: string, deeper: seq<PathEnd>)
    requires src.Valid() && PassedExact(src, code, lo, next, key) && !(src.CodeString(code) <= key)
    requires lo == LowerBound(src.db, src.CodeString(code), |src.db|)
    requires Continue(src, code, deeper)
    ensures NothingFor(src, deeper)
  {
    var p := src.CodeString(code);
    forall k, i | 0 <= k < |deeper| && 0 <= i < |src.db|
      ensures !Exact(src, deeper[k].code, i)
    {
      if Exact(src, deeper[k].code, i) {
        LongerIsNotExact(src, code, deeper[k].code, i);
        PrefixAtMost(p, src.db[i].key);
        LowerBoundSplits(src, p, i);
        LowerBoundSplits(src, p, next);
        KeysInOrder(src, next, i);
        Between(p, p, key, src.db[i].key);
      }
    }
  }

  /** With no record from the code on, neither it nor a longer code has an entry. */
  lemma AfterLast(src: Source, path: PathEnd, key: string, deeper: seq<PathEnd>)
    requires src.Valid() && src.Translatable(path.code) && Continue(src, path.code, deeper)
    requires LowerBound(src.db, src.CodeString(path.code), |src.db|) == |src.db|
    ensures src.Matches(path) == []
    ensures Placed(src, src.CodeString(path.code), key)
    ensures NothingFor(src, deeper)
  {
    var p := src.CodeString(path.code);
    forall i | 0 <= i < |src.db|
      ensures !AtMost(p, src.db[i].key)
    {
      LowerBoundSplits(src, p, i);
    }
    BeforeFirst(src, path.code, |src.db|);
    MatchesUpToSkip(src, path, 0, |src.db|);
    forall k, i | 0 <= k < |deeper| && 0 <= i < |src.db|
      ensures !Exact(src, deeper[k].code, i)
    {
      if Exact(src, deeper[k].code, i) {
        LongerIsNotExact(src, path.code, deeper[k].code, i);
        PrefixAtMost(p, src.db[i].key);
      }
    }
  }

  lemma GatherAlong(src: Source, collector: Collector, path: PathEnd, deeper: seq<PathEnd>)
    requires src.Translatable(path.code) && src.AllTranslatable(deeper)
    requires src.ForwardGraph() && path.pos <= src.length
    requires deeper == if src.MayDeepen(path.code) then src.Paths(path.pos, path.code, path.credibility) else []
    ensures var all := src.PathsAlong(path.code, path.credibility, path.pos);
            && src.AllTranslatable(all)
            && src.Gather(collector, all) == src.Gather(AddEntries(collector, path.pos, src.Matches(path)), deeper)
  {
    assert ([path] + deeper)[1..] == deeper;
  }

  lemma TabIsIn(src: Source, i: nat)
    requires src.SortedStore() && LowerBound(src.db, " ", |src.db|) <= i < |src.db|
    ensures '\t' in src.db[i].key
  {
    assert src.WellFormedKey(src.db[i].key);
  }

  /** A scan for anything but metadata does not come back to them. */
  lemma JumpsForward(src: Source, prefix: string)
    requires src.SortedStore() && AtMost(" ", prefix)
    ensures LowerBound(src.db, " ", |src.db|) <= LowerBound(src.db, prefix, |src.db|)
  {
    var i := LowerBound(src.db, prefix, |src.db|);
    if i < |src.db| {
      Transitive(" ", prefix, src.db[i].key);
      LowerBoundSplits(src, " ", i);
    }
  }

  lemma AddNothing(collector: Collector, pos: nat)
    ensures AddEntries(collector, pos, []) == collector
  {
  }

  lemma AddEntriesTwice(collector: Collector, pos: nat, a: seq<DictEntry>, b: seq<DictEntry>)
    ensures AddEntries(AddEntries(collector, pos, a), pos, b) == AddEntries(collector, pos, a + b)
  {
    var olds := if pos in collector then collector[pos] else [];
    assert (olds + a) + b == olds + (a + b);
    if |a| == 0 { assert a + b == b; }
    if |b| == 0 { assert a + b == a; }
  }

  // ----- the whole lookup -----

  /** Heavier entries first. */
  method SortByWeight(entries: seq<DictEntry>) returns (sorted: seq<DictEntry>)
    ensures multiset(sorted) == multiset(entries) && Descending(sorted)
  {
    sorted := [];
    for n := 0 to |entries|
      invariant multiset(sorted) == multiset(entries[..n]) && Descending(sorted)
    {
      assert entries[..n + 1] == entries[..n] + [entries[n]];
      sorted := InsertByWeight(sorted, entries[n]);
    }
    assert entries[..|entries|] == entries;
  }

  method InsertByWeight(sorted: seq<DictEntry>, e: DictEntry) returns (r: seq<DictEntry>)
    requires Descending(sorted)
    ensures multiset(r) == multiset(sorted) + multiset{e} && Descending(r)
  {
    var k := |sorted|;
    while k > 0 && sorted[k - 1].weight < e.weight
      invariant 0 <= k <= |sorted|
      invariant forall i :: k <= i < |sorted| ==> sorted[i].weight < e.weight
    {
      k := k - 1;
    }
    r := sorted[..k] + [e] + sorted[k..];
    InsertedContents(sorted, e, k);
    InsertedDescending(sorted, e, k);
  }

  lemma InsertedContents(sorted: seq<DictEntry>, e: DictEntry, k: nat)
    requires k <= |sorted|
    ensures multiset(sorted[..k] + [e] + sorted[k..]) == multiset(sorted) + multiset{e}
  {
    assert sorted == sorted[..k] + sorted[k..];
  }

  lemma InsertedDescending(sorted: seq<DictEntry>, e: DictEntry, k: nat)
    requires Descending(sorted) && k <= |sorted|
    requires k > 0 ==> sorted[k - 1].weight >= e.weight
    requires k < |sorted| ==> sorted[k].weight < e.weight
    ensures Descending(sorted[..k] + [e] + sorted[k..])
  {
    var r := sorted[..k] + [e] + sorted[k..];
    forall i, j | 0 <= i < j < |r|
      ensures r[i].weight >= r[j].weight
    {
      assert i < k ==> r[i] == sorted[i];
      assert j > k ==> r[j] == sorted[j - 1];
    }
  }

  /** Collects, at each end position, the phrases of the user dictionary from `startPos` on:
      the same entries as trying every path against every record, heavier ones first. */
  method Lookup(src: Source, startPos: nat, initialCredibility: real) returns (result: Option<Collector>)
    requires src.Valid()
    ensures startPos >= src.length ==> result.None?
    ensures startPos < src.length ==>
              && src.AllTranslatable(src.Paths(startPos, [], initialCredibility))
              && var groups := src.Gather(map[], src.Paths(startPos, [], initialCredibility));
                 if groups == map[] then result.None? else result.Some? && SortedGroups(groups, result.value)
    ensures startPos < src.length ==> IsLookup(src, startPos, initialCredibility, result)
    ensures FoundExactly(src, startPos, initialCredibility, if result.Some? then result.value else map[])
  {
    hide FoundExactly, SortedGroups, Source.Gather, Source.Paths, Source.AllTranslatable, LowerBound, IsLookup;
    if startPos >= src.length {
      NothingBeyond(src, startPos, initialCredibility);
      return None;
    }
    var accessor := new TextDbAccessor(src.db, "");
    var state := new DfsState(src, accessor, initialCredibility);
    var _ := accessor.Jump(" ");
    state.DfsLookup(startPos, "");
    if state.collector == map[] {
      LookupIs(src, startPos, initialCredibility, None);
      LookupFinds(src, startPos, initialCredibility, None);
      return None;
    }
    var sorted := SortGroups(state.collector);
    result := Some(sorted);
    LookupIs(src, startPos, initialCredibility, result);
    LookupFinds(src, startPos, initialCredibility, result);
  }

  method SortGroups(groups: Collector) returns (sorted: Collector)
    ensures SortedGroups(groups, sorted)
  {
    sorted := map[];
    var rest: set<int> := groups.Keys;
    while |rest| > 0
      invariant rest <= groups.Keys && sorted.Keys == groups.Keys - rest
      invariant forall p :: p in sorted ==> multiset(sorted[p]) == multiset(groups[p]) && Descending(sorted[p])
    {
      hide Descending;
      var p: nat := Least(rest);
      rest := rest - {p};
      var group := SortByWeight(groups[p]);
      sorted := sorted[p := group];
    }
  }
}
