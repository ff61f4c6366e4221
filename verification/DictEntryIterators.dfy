/** The iterator over dictionary entries: a list of chunks with the entry last peeked at. */
module DictEntryIterators {
  import opened Commons
  import opened ChunkMerges

  /** An entry as it is shown to a translator. */
  datatype ShownEntry = ShownEntry(text: string, code: seq<int>, weight: real, comment: string, remainingCodeLength: nat)

  type Filter = ShownEntry -> bool

  function Show(x: Item): ShownEntry {
    ShownEntry(x.entry.text, x.code, Times((x.entry.weight + 1.0) / 100000000.0, x.credibility),
               if |x.remainingCode| > 0 then "~" + x.remainingCode else "", |x.remainingCode|)
  }

  /** An entry is shown with one added to its weight, which then is divided by ten to the eighth and
      multiplied by the credibility of its path; what is missing of its code is told. */
  lemma ShowTells(x: Item)
    ensures var e := Show(x);
            && e.text == x.entry.text && e.code == x.code
            && e.weight * 100000000.0 == (x.entry.weight + 1.0) * x.credibility
            && e.remainingCodeLength == |x.remainingCode|
            && (x.remainingCode != "" ==> e.comment == "~" + x.remainingCode) && (x.remainingCode == "" ==> e.comment == "")
  {
    var w := x.entry.weight + 1.0;
    assert w / 100000000.0 * x.credibility * 100000000.0 == w * x.credibility;
  }

  predicate Passes(filter: Option<Filter>, e: ShownEntry) {
    filter.Some? ==> filter.value(e)
  }

  /** What is shown of a run: the entries that pass the filter. */
  ghost function Shown(filter: Option<Filter>, run: seq<Item>): seq<ShownEntry> {
    if |run| == 0 then []
    else (if Passes(filter, Show(run[0])) then [Show(run[0])] else []) + Shown(filter, run[1..])
  }

  lemma NothingIsShown(filter: Option<Filter>)
    ensures AllLive([]) && Shown(filter, Run([])) == []
  {
  }

  lemma HeadIsShown(filter: Option<Filter>, list: seq<Chunk>)
    requires AllLive(list) && |list| > 0
    ensures var run := Run(list);
            |run| > 0 && (Passes(filter, Show(run[0])) ==> Shown(filter, run) != [] && Shown(filter, run)[0] == Show(run[0]))
  {
    hide Advance, Total, AllLive;
  }

  lemma HeadIsNotShown(filter: Option<Filter>, list: seq<Chunk>)
    requires AllLive(list) && |list| > 0 && !Passes(filter, Show(Run(list)[0]))
    ensures AllLive(Advance(list)) && Shown(filter, Run(list)) == Shown(filter, Run(Advance(list)))
  {
    AdvanceShrinks(list);
    hide Advance, Total, AllLive;
    assert Run(list)[1..] == Run(Advance(list));
  }

  class DictEntryIterator {
    var chunks: seq<Chunk>
    var entry: Option<ShownEntry>
    var entryCount: nat
    var filter: Option<Filter>

    ghost predicate Valid()
      reads this
    {
      && AllLive(chunks)
      && (entry.Some? ==> |chunks| > 0 && entry.value == Show(Run(chunks)[0]) && Passes(filter, entry.value))
    }

    /** What the iterator will show from now on. */
    ghost function Upcoming(): seq<ShownEntry>
      requires Valid()
      reads this
    {
      Shown(filter, Run(chunks))
    }

    constructor ()
      ensures Valid() && chunks == [] && entry == None && entryCount == 0 && filter == None
    {
      chunks, entry, entryCount, filter := [], None, 0, None;
    }

    predicate Exhausted()
      reads this
    {
      |chunks| == 0
    }

    method AddChunk(chunk: Chunk)
      modifies this
      ensures chunks == old(chunks) + [chunk] && entryCount == old(entryCount) + |chunk.entries|
      ensures entry == old(entry) && filter == old(filter)
    {
      chunks := chunks + [chunk];
      entryCount := entryCount + |chunk.entries|;
    }

    /** Puts the chunks in order, and keeps those that tie in the order they had. */
    method Sort()
      modifies this
      ensures chunks == Sorted(old(chunks)) && entry == old(entry) && entryCount == old(entryCount) && filter == old(filter)
      ensures InOrder(chunks) && multiset(chunks) == multiset(old(chunks))
      ensures forall c :: Ties(chunks, c) == Ties(old(chunks), c)
      ensures old(AllLive(chunks) && AllDescending(chunks)) ==> Orderly(chunks)
    {
      SortedInOrder(chunks);
      if AllLive(chunks) && AllDescending(chunks) { SortedIsOrderly(chunks); }
      forall c
        ensures Ties(Sorted(chunks), c) == Ties(chunks, c)
      {
        SortedIsStable(chunks, c);
      }
      hide InOrder, Orderly, Ties, Sorted, AllLive, AllDescending;
      chunks := Sorted(chunks);
    }

    /** Makes the entry at the head of the first chunk current. */
    method PrepareEntry()
      requires AllLive(chunks)
      modifies this`entry
      ensures |chunks| == 0 ==> entry == old(entry)
      ensures |chunks| > 0 ==> entry == Some(Show(Run(chunks)[0]))
    {
      if |chunks| == 0 {
        return;
      }
      var chunk := chunks[0];
      assert chunk in chunks;
      var e := chunk.entries[chunk.cursor];
      entry := Some(ShownEntry(e.text, chunk.code, Times((e.weight + 1.0) / 100000000.0, chunk.credibility), "", 0));
      if |chunk.remainingCode| > 0 {
        entry := Some(entry.value.(comment := "~" + chunk.remainingCode, remainingCodeLength := |chunk.remainingCode|));
      }
    }

    /** The next entry to show, left in place. */
    method Peek() returns (r: Option<ShownEntry>)
      requires Valid()
      modifies this
      ensures Valid() && Upcoming() == old(Upcoming())
      ensures entryCount == old(entryCount) && filter == old(filter)
      ensures r == entry && (r == None <==> Upcoming() == [])
      ensures r.Some? ==> Upcoming()[0] == r.value
      ensures filter == None ==> chunks == old(chunks)
    {
      while entry.None? && |chunks| > 0
        invariant Valid() && Upcoming() == old(Upcoming())
        invariant entryCount == old(entryCount) && filter == old(filter)
        invariant filter == None ==> chunks == old(chunks)
        decreases Total(chunks), entry.None?
      {
        hide Shown, Run, AllLive, Total, Advance;
        PrepareEntry();
        if filter.Some? && !filter.value(entry.value) {
          HeadIsNotShown(filter, chunks);
          var _ := DropHead();
        }
      }
      NothingIsShown(filter);
      if |chunks| > 0 { HeadIsShown(filter, chunks); }
      r := entry;
    }

    /** Leaves the current entry behind, and brings the best of the rest to the front. */
    method Next() returns (more: bool)
      requires Valid()
      modifies this
      ensures Valid() && entry == None && more == !Exhausted()
      ensures entryCount == old(entryCount) && filter == old(filter)
      ensures Run(chunks) == if old(|chunks|) == 0 then [] else old(Run(chunks))[1..]
      ensures old(entry).Some? ==> Upcoming() == old(Upcoming())[1..]
    {
      if |chunks| > 0 { RunSteps(chunks); }
      more := DropHead();
    }

    /** The step itself, whether or not the entry in front passes the filter. */
    method DropHead() returns (more: bool)
      requires AllLive(chunks)
      modifies this
      ensures AllLive(chunks) && entry == None && more == !Exhausted()
      ensures entryCount == old(entryCount) && filter == old(filter)
      ensures old(|chunks|) == 0 ==> chunks == []
      ensures old(|chunks|) > 0 ==> chunks == Advance(old(chunks)) && Total(chunks) < old(Total(chunks))
    {
      entry := None;
      if |chunks| == 0 {
        return false;
      }
      AdvanceShrinks(chunks);
      var chunk := chunks[0].Step();
      if chunk.cursor >= |chunk.entries| {
        chunks := chunks[1..];
      } else {
        chunks := [chunk] + chunks[1..];
        Sort();
      }
      more := |chunks| > 0;
    }

    /** Passes over entries in the order of the chunk list. */
    method Skip(numEntries: nat) returns (ok: bool)
      requires AllLive(chunks)
      modifies this`chunks
      ensures AllLive(chunks) && ok == (numEntries <= old(Total(chunks)))
      ensures Flat(chunks) == if ok then old(Flat(chunks))[numEntries..] else []
    {
      var n := numEntries;
      ghost var all := Flat(chunks);
      while n > 0
        invariant AllLive(chunks) && 0 <= n <= numEntries
        invariant numEntries - n <= |all| && Flat(chunks) == all[numEntries - n..]
      {
        if |chunks| == 0 {
          return false;
        }
        var chunk := chunks[0];
        assert chunk in chunks;
        if chunk.cursor + n < |chunk.entries| {
          SkipInside(chunks, n);
          assert all[numEntries - n..][n..] == all[numEntries..];
          chunks := [chunk.(cursor := chunk.cursor + n)] + chunks[1..];
          return true;
        }
        SkipChunk(chunks);
        n := n - (|chunk.entries| - chunk.cursor);
        chunks := chunks[1..];
      }
      ok := true;
    }
  }

  lemma RunSteps(list: seq<Chunk>)
    requires AllLive(list) && |list| > 0
    ensures AllLive(Advance(list)) && Run(Advance(list)) == Run(list)[1..]
  {
    AdvanceShrinks(list);
  }

  lemma SkipInside(list: seq<Chunk>, n: nat)
    requires |list| > 0 && list[0].cursor + n < |list[0].entries|
    ensures n <= |Flat(list)|
    ensures Flat([list[0].(cursor := list[0].cursor + n)] + list[1..]) == Flat(list)[n..]
  {
    ItemsFrom(list[0], n);
  }

  lemma SkipChunk(list: seq<Chunk>)
    requires |list| > 0 && list[0].cursor <= |list[0].entries|
    ensures |list[0].entries| - list[0].cursor <= |Flat(list)|
    ensures Flat(list[1..]) == Flat(list)[|list[0].entries| - list[0].cursor..]
  {
    ItemsFrom(list[0], |list[0].entries| - list[0].cursor);
  }

  lemma {:induction false} ItemsFrom(c: Chunk, n: nat)
    requires c.cursor + n <= |c.entries|
    ensures |Items(c)| == |c.entries| - c.cursor
    ensures Items(c.(cursor := c.cursor + n)) == Items(c)[n..]
    decreases |c.entries| - c.cursor
  {
    if c.Live() {
      if n > 0 { ItemsFrom(c.Step(), n - 1); } else { ItemsFrom(c.Step(), 0); }
    }
  }
}
