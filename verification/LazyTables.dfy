/** A translation that fetches more words as they are used up. */
module LazyTables {
  import opened Commons
  import opened Prisms
  import opened Vocabularies
  import opened TableImages
  import opened ChunkMerges
  import opened DictEntryIterators
  import opened WordLookups

  /** What has been delivered and what is left make up what was fetched, and that is the
      beginning of all there is. */
  ghost predicate Accounted(delivered: seq<Item>, left: seq<Item>, fetched: seq<Item>, all: seq<Item>, limit: nat) {
    && fetched <= all && (limit == 0 ==> fetched == all)
    && multiset(delivered) + multiset(left) == multiset(fetched)
  }

  lemma AccountedMore(delivered: seq<Item>, fetched: seq<Item>, found: seq<Item>, all: seq<Item>, limit: nat, limit': nat)
    requires Accounted(delivered, [], fetched, all, limit)
    requires found <= all && (limit' == 0 ==> found == all)
    ensures |found| > |fetched| ==> Accounted(delivered, found[|fetched|..], found, all, limit')
    ensures |found| <= |fetched| ==> Accounted(delivered, [], fetched, all, limit')
    ensures |found| >= |fetched| ==> fetched <= found
  {
    if |found| >= |fetched| {
      assert fetched == all[..|fetched|] && found == all[..|found|];
      assert found == fetched + found[|fetched|..];
    }
  }

  lemma AccountedStep(delivered: seq<Item>, run: seq<Item>, left: seq<Item>, left': seq<Item>, fetched: seq<Item>, all: seq<Item>, limit: nat)
    requires Accounted(delivered, left, fetched, all, limit)
    requires |run| > 0 && multiset(run) == multiset(left) && multiset(run[1..]) == multiset(left')
    ensures Accounted(delivered + [run[0]], left', fetched, all, limit)
    ensures |left| == |left'| + 1
  {
    assert run == [run[0]] + run[1..];
    assert |multiset(run)| == |run| && |multiset(left)| == |left| && |multiset(run[1..])| == |run[1..]| && |multiset(left')| == |left'|;
  }

  class LazyTableTranslation {
    const prism: Prism
    const index: seq<HeadNode>
    const syllabary: seq<string>
    const input: string
    ghost const vocabulary: Vocabulary
    var iter: DictEntryIterator
    var limit: nat
    ghost var searched: nat
    ghost var fetched: seq<Item>
    ghost var delivered: seq<Item>

    ghost function Found(n: nat): seq<Item>
      requires prism.Valid()
    {
      Fetch(prism, vocabulary, syllabary, input, n)
    }

    ghost function Raised(n: nat): nat
      requires prism.Valid()
    {
      WordLookups.Raised(prism, input, n)
    }

    ghost function LastLimit(): (r: nat)
      requires prism.Valid()
      ensures r > 0
    {
      WordLookups.LastLimit(prism, vocabulary, syllabary, input)
    }

    ghost predicate Dictionary() {
      prism.Valid() && IsHead(vocabulary, index)
    }

    ghost predicate Consistent()
      reads this, iter
    {
      && Dictionary() && iter.Valid() && iter.filter == None && iter.entryCount == |fetched|
      && Accounted(delivered, Flat(iter.chunks), fetched, Found(0), limit)
    }

    /** What has been fetched was found with the limit `searched`, on the way to the last limit. */
    ghost predicate OnTrack()
      requires prism.Valid()
      reads this, iter
    {
      if iter.Exhausted() then fetched == Found(LastLimit())
      else
        && searched > 0 && fetched == Found(searched) && limit == Raised(searched)
        && LastLimit() == StopLimit(prism, vocabulary, syllabary, input, searched)
    }

    ghost predicate Valid()
      reads this, iter
    {
      Consistent() && OnTrack()
    }

    /** Starts with the first few keys. */
    constructor (prism: Prism, index: seq<HeadNode>, syllabary: seq<string>, input: string, ghost v: Vocabulary)
      requires prism.Valid() && IsHead(v, index)
      ensures Valid() && fresh(iter) && delivered == []
      ensures this.prism == prism && this.index == index && this.syllabary == syllabary
      ensures this.input == input && vocabulary == v
      ensures iter.Exhausted() <==> Found(INITIAL_SEARCH_LIMIT) == []
    {
      this.prism, this.index, this.syllabary, this.input, vocabulary := prism, index, syllabary, input, v;
      var nothing := new DictEntryIterator();
      iter, limit, searched, fetched, delivered := nothing, INITIAL_SEARCH_LIMIT, INITIAL_SEARCH_LIMIT, [], [];
      new;
      hide IsHead, Fetch, OnTrack, Flat, Run, WordLookups.Raised, Accounted, Prism.Valid;
      NothingYet(this);
      var _ := FetchMoreTableEntries();
      Starts();
    }

    lemma Starts()
      requires Consistent() && searched == INITIAL_SEARCH_LIMIT && limit == Raised(INITIAL_SEARCH_LIMIT)
      requires IsRefetch([], Found(INITIAL_SEARCH_LIMIT), fetched, Flat(iter.chunks))
      ensures OnTrack() && (iter.Exhausted() <==> Found(INITIAL_SEARCH_LIMIT) == [])
    {
      NoneLeft(iter.chunks);
      hide IsHead, Fetch, Flat, WordLookups.Raised, Accounted, Prism.Valid, StopLimit;
    }

    /** Looks up again with a higher limit, and passes over what has been delivered. */
    method FetchMoreTableEntries() returns (ok: bool)
      requires Consistent() && iter.Exhausted()
      modifies this`iter, this`limit, this`fetched
      ensures Consistent() && delivered == old(delivered) && (iter == old(iter) || fresh(iter))
      ensures ok == (old(limit) > 0)
      ensures old(limit) == 0 ==> limit == 0 && iter == old(iter) && fetched == old(fetched)
      ensures old(limit) > 0 ==> limit == Raised(old(limit))
      ensures old(limit) > 0 ==> IsRefetch(old(fetched), Found(old(limit)), fetched, Flat(iter.chunks))
    {
      hide IsHead, Fetch, Flat, Accounted;
      if limit == 0 {
        return false;
      }
      var previousEntryCount := iter.entryCount;
      var more, count := FetchUpTo(limit);
      ghost var found := Found(limit);
      FetchIsPrefix(prism, vocabulary, syllabary, input, limit);
      ghost var was := limit;
      if count < limit {
        limit := 0;
      } else {
        limit := limit * EXPANDING_FACTOR;
      }
      NoneLeft(iter.chunks);
      AccountedMore(delivered, fetched, found, Found(0), was, limit);
      if more.entryCount > previousEntryCount {
        var _ := more.Skip(previousEntryCount);
        iter := more;
        fetched := found;
      }
      ok := true;
    }

    /** A new iterator over what a lookup with a limit finds. */
    method FetchUpTo(n: nat) returns (more: DictEntryIterator, count: nat)
      requires Dictionary()
      ensures fresh(more) && more.Valid() && more.filter == None && more.entry == None
      ensures Flat(more.chunks) == Found(n) && more.entryCount == |Found(n)|
      ensures count == |Matches(prism, input, n)|
    {
      hide IsHead, ChunksOver, Flat;
      more := new DictEntryIterator();
      NothingFilled(more);
      count := LookupWords(more, prism, index, syllabary, input, true, n, vocabulary);
      ChunksOverFresh(prism, vocabulary, syllabary, input, Matches(prism, input, n));
      FilledWith(more, ChunksOver(prism, vocabulary, syllabary, input, Matches(prism, input, n)));
    }

    /** The next entry to show. */
    method Peek() returns (r: Option<ShownEntry>)
      requires Valid()
      modifies iter
      ensures Valid() && iter.chunks == old(iter.chunks)
      ensures iter.Exhausted() ==> r == None
      ensures !iter.Exhausted() ==> r == Some(Show(Run(iter.chunks)[0]))
    {
      hide Dictionary, Accounted;
      ShownFirst(Run(iter.chunks));
      r := iter.Peek();
    }

    /** Delivers an entry, and fetches more when it was the last one. */
    method Next() returns (more: bool)
      requires Valid()
      modifies this, iter
      ensures Valid() && more == !iter.Exhausted() && (iter == old(iter) || fresh(iter))
      ensures old(iter.Exhausted()) ==> !more && delivered == old(delivered) && limit == old(limit)
      ensures !old(iter.Exhausted()) ==> delivered == old(delivered) + [old(Run(iter.chunks))[0]]
      ensures old(|Flat(iter.chunks)|) > 1 ==> more && fetched == old(fetched) && limit == old(limit)
      ensures old(|Flat(iter.chunks)|) == 1 ==> (more <==> old(limit) > 0 && |Found(old(limit))| > |old(fetched)|)
      ensures old(|Flat(iter.chunks)|) == 1 ==> limit == if old(limit) == 0 then 0 else Raised(old(limit))
    {
      hide Prism.Valid, IsHead, Fetch, Accounted, Flat, WordLookups.Raised;
      NoneLeft(iter.chunks);
      if iter.Exhausted() {
        return false;
      }
      RunIsComplete(iter.chunks);
      ghost var run, left := Run(iter.chunks), Flat(iter.chunks);
      delivered := delivered + [run[0]];
      var _ := iter.Next();
      RunIsComplete(iter.chunks);
      AccountedStep(old(delivered), run, left, Flat(iter.chunks), fetched, Found(0), limit);
      NoneLeft(iter.chunks);
      if iter.Exhausted() {
        ghost var next := limit;
        var _ := FetchMoreTableEntries();
        NoneLeft(iter.chunks);
        if !iter.Exhausted() { searched := next; }
      }
      more := !iter.Exhausted();
    }

    /** At any time what has been delivered is among what is found in the end, each entry at most
        once. */
    lemma DeliveredSoFar()
      requires Valid()
      ensures multiset(delivered) <= multiset(Found(LastLimit()))
    {
      if !iter.Exhausted() { StopExtends(prism, vocabulary, syllabary, input, searched); }
      hide Fetch, StopLimit, Flat, WordLookups.LastLimit, Prism.Valid, WordLookups.Raised, IsHead;
      AmongLast(delivered, Flat(iter.chunks), fetched, Found(LastLimit()));
    }

    /** Goes through all that the translation has to show. */
    method DeliverAll() returns (shown: seq<ShownEntry>)
      requires Valid()
      modifies this, iter
      ensures Valid() && iter.Exhausted()
      ensures old(delivered) <= delivered && shown == ShownItems(delivered[|old(delivered)|..])
      ensures multiset(delivered) == multiset(Found(LastLimit()))
      ensures multiset(delivered) == multiset(Found(0)) <==> !WordsBeyond(prism, vocabulary, syllabary, input, LastLimit())
    {
      hide Fetch, StopLimit, Flat, Run, WordLookups.LastLimit, Prism.Valid, WordsBeyond, IsHead;
      shown := [];
      assert delivered[|delivered|..] == [];
      while !iter.Exhausted()
        invariant Valid() && (iter == old(iter) || fresh(iter))
        invariant old(delivered) <= delivered && shown == ShownItems(delivered[|old(delivered)|..])
        decreases |Found(LastLimit())| - |delivered|
      {
        var e := Peek();
        shown := shown + [e.value];
        ghost var before := delivered;
        var _ := Next();
        ShownOneMore(old(delivered), before, delivered);
        DeliveredIsShort();
      }
      AllDelivered();
    }

    lemma DeliveredIsShort()
      requires Valid()
      ensures |delivered| <= |Found(LastLimit())|
    {
      DeliveredSoFar();
      hide Fetch, StopLimit, Flat, OnTrack, Consistent;
      var last := Found(LastLimit());
      assert |multiset(delivered)| <= |multiset(last)| by { assert multiset(last) == multiset(delivered) + (multiset(last) - multiset(delivered)); }
    }

    lemma AllDelivered()
      requires Valid() && iter.Exhausted()
      ensures multiset(delivered) == multiset(Found(LastLimit()))
      ensures multiset(delivered) == multiset(Found(0)) <==> !WordsBeyond(prism, vocabulary, syllabary, input, LastLimit())
    {
      NoneLeft(iter.chunks);
      FetchIsPrefix(prism, vocabulary, syllabary, input, LastLimit());
      FetchesAllExactly(prism, vocabulary, syllabary, input, LastLimit());
      hide Fetch, StopLimit, Flat, WordsBeyond, WordLookups.LastLimit;
      var last, all := Found(LastLimit()), Found(0);
      assert |multiset(last)| == |last| && |multiset(all)| == |all|;
      assert all[..|last|] == last;
    }
  }

  lemma AmongLast(delivered: seq<Item>, left: seq<Item>, fetched: seq<Item>, last: seq<Item>)
    requires multiset(delivered) + multiset(left) == multiset(fetched) && fetched <= last
    ensures multiset(delivered) <= multiset(last)
  {
    assert last == fetched + last[|fetched|..];
  }

  ghost function ShownItems(items: seq<Item>): seq<ShownEntry> {
    seq(|items|, i requires 0 <= i < |items| => Show(items[i]))
  }

  lemma ShownOneMore(first: seq<Item>, before: seq<Item>, after: seq<Item>)
    requires first <= before && |after| == |before| + 1 && before <= after
    ensures ShownItems(after[|first|..]) == ShownItems(before[|first|..]) + [Show(after[|before|])]
  {
    assert after[|first|..] == before[|first|..] + [after[|before|]];
  }

  /** A refetch that finds more leaves exactly what is new; one that does not changes nothing. */
  ghost predicate IsRefetch(before: seq<Item>, found: seq<Item>, after: seq<Item>, left: seq<Item>) {
    if |found| > |before| then before <= found && after == found && left == found[|before|..]
    else after == before && left == []
  }

  /** Before the first lookup. */
  lemma NothingYet(t: LazyTableTranslation)
    requires t.Dictionary() && t.iter.chunks == [] && t.iter.entry == None && t.iter.entryCount == 0 && t.iter.filter == None
    requires t.delivered == [] && t.fetched == [] && t.limit > 0
    ensures t.Consistent()
  {
  }

  lemma ShownFirst(run: seq<Item>)
    ensures Shown(None, run) == [] <==> run == []
    ensures run != [] ==> Shown(None, run)[0] == Show(run[0])
  {
  }

  lemma NoneLeft(chunks: seq<Chunk>)
    requires AllLive(chunks)
    ensures chunks == [] <==> Flat(chunks) == []
  {
    if |chunks| > 0 { assert chunks[0] in chunks; }
  }
}
