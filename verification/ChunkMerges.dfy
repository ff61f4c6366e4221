/** Merging chunks: runs of table entries that are offered as one list, best entry first. */
module ChunkMerges {
  import opened Commons
  import opened Groupings
  import opened TableImages

  /** A run of table entries that share a code. */
  datatype Chunk = Chunk(code: seq<int>, entries: seq<Entry>, cursor: nat, remainingCode: string, credibility: real)
  {
    predicate Live() { cursor < |entries| }

    function HeadWeight(): real
      requires Live()
    {
      Times(credibility, entries[cursor].weight)
    }

    function Step(): Chunk { this.(cursor := cursor + 1) }
  }

  /** The order of chunks by the entry they would offer next. */
  predicate Before(a: Chunk, b: Chunk) {
    if !a.Live() then false
    else if !b.Live() then true
    else if |a.remainingCode| != |b.remainingCode| then |a.remainingCode| < |b.remainingCode|
    else a.HeadWeight() > b.HeadWeight()
  }

  // ----- a stable sort -----

  /** Puts a chunk behind all that it does not come before. */
  function Insert(list: seq<Chunk>, c: Chunk): seq<Chunk> {
    if |list| == 0 then [c]
    else if Before(c, list[|list| - 1]) then Insert(list[..|list| - 1], c) + [list[|list| - 1]]
    else list + [c]
  }

  function Sorted(list: seq<Chunk>): seq<Chunk> {
    if |list| == 0 then [] else Insert(Sorted(list[..|list| - 1]), list[|list| - 1])
  }

  ghost predicate InOrder(list: seq<Chunk>) {
    forall i, j :: 0 <= i < j < |list| ==> !Before(list[j], list[i])
  }

  /** What does not come before a chunk does not come before what precedes it. */
  lemma OrderIsWeak(a: Chunk, b: Chunk, c: Chunk)
    ensures Before(a, c) ==> Before(a, b) || Before(b, c)
    ensures Before(a, b) ==> !Before(b, a)
  {
  }

  lemma AppendKeepsOrder(list: seq<Chunk>, c: Chunk)
    requires InOrder(list) && forall x :: x in list ==> !Before(c, x)
    ensures InOrder(list + [c])
  {
    hide Before;
  }

  lemma {:induction false} InsertContents(list: seq<Chunk>, c: Chunk)
    ensures multiset(Insert(list, c)) == multiset(list) + multiset{c}
    ensures forall x :: x in Insert(list, c) <==> x in list || x == c
  {
    hide Before;
    if |list| > 0 {
      var init, last := list[..|list| - 1], list[|list| - 1];
      assert list == init + [last];
      InsertContents(init, c);
    }
  }

  lemma {:induction false} InsertKeepsOrder(list: seq<Chunk>, c: Chunk)
    requires InOrder(list)
    ensures InOrder(Insert(list, c))
  {
    hide Before;
    if |list| > 0 {
      var init, last := list[..|list| - 1], list[|list| - 1];
      if Before(c, last) {
        InsertKeepsOrder(init, c);
        InsertContents(init, c);
        OrderIsWeak(c, last, c);
        AppendKeepsOrder(Insert(init, c), last);
      } else {
        forall x | x in list
          ensures !Before(c, x)
        {
          OrderIsWeak(c, last, x);
        }
        AppendKeepsOrder(list, c);
      }
    }
  }

  /** Sorting orders the chunks and loses none. */
  lemma {:induction false} SortedInOrder(list: seq<Chunk>)
    ensures InOrder(Sorted(list)) && multiset(Sorted(list)) == multiset(list)
    ensures forall x :: x in Sorted(list) <==> x in list
  {
    if |list| > 0 {
      var init, last := list[..|list| - 1], list[|list| - 1];
      assert list == init + [last];
      SortedInOrder(init);
      InsertKeepsOrder(Sorted(init), last);
      InsertContents(Sorted(init), last);
    }
  }

  /** The chunks of a list that tie with `c`, in order. */
  ghost function Ties(list: seq<Chunk>, c: Chunk): seq<Chunk> {
    if |list| == 0 then []
    else
      var last := list[|list| - 1];
      Ties(list[..|list| - 1], c) + (if Before(c, last) || Before(last, c) then [] else [last])
  }

  lemma {:induction false} InsertIsStable(list: seq<Chunk>, x: Chunk, c: Chunk)
    ensures Ties(Insert(list, x), c) == Ties(list, c) + (if Before(c, x) || Before(x, c) then [] else [x])
  {
    if |list| == 0 {
      assert [x][..0] == [];
    } else {
      var init, last := list[..|list| - 1], list[|list| - 1];
      if Before(x, last) {
        InsertIsStable(init, x, c);
        assert (Insert(init, x) + [last])[..|Insert(init, x)|] == Insert(init, x);
      } else {
        assert (list + [x])[..|list|] == list;
      }
    }
  }

  /** Sorting keeps chunks that tie in their order. */
  lemma {:induction false} SortedIsStable(list: seq<Chunk>, c: Chunk)
    ensures Ties(Sorted(list), c) == Ties(list, c)
  {
    if |list| > 0 {
      SortedIsStable(list[..|list| - 1], c);
      InsertIsStable(Sorted(list[..|list| - 1]), list[|list| - 1], c);
    }
  }

  // ----- what is left to offer -----

  /** An entry as a chunk offers it. */
  datatype Item = Item(code: seq<int>, entry: Entry, remainingCode: string, credibility: real)
  {
    function Weight(): real { Times(credibility, entry.weight) }
  }

  function HeadItem(c: Chunk): Item
    requires c.Live()
  {
    Item(c.code, c.entries[c.cursor], c.remainingCode, c.credibility)
  }

  ghost function Items(c: Chunk): seq<Item>
    decreases |c.entries| - c.cursor
  {
    if c.Live() then [HeadItem(c)] + Items(c.Step()) else []
  }

  /** All that the chunks have left, chunk after chunk. */
  ghost function Flat(list: seq<Chunk>): seq<Item> {
    if |list| == 0 then [] else Items(list[0]) + Flat(list[1..])
  }

  lemma {:induction false} FlatConcat(a: seq<Chunk>, b: seq<Chunk>)
    ensures Flat(a + b) == Flat(a) + Flat(b)
  {
    if |a| == 0 {
      assert a + b == b;
    } else {
      assert (a + b)[1..] == a[1..] + b;
      FlatConcat(a[1..], b);
    }
  }

  ghost predicate AllLive(list: seq<Chunk>) {
    forall c :: c in list ==> c.Live()
  }

  /** The order in which entries should be offered: whole codes before codes to be completed,
      shorter completions first, then by credibility times weight. */
  ghost predicate NotAfter(a: Item, b: Item) {
    |a.remainingCode| < |b.remainingCode| || (|a.remainingCode| == |b.remainingCode| && a.Weight() >= b.Weight())
  }

  /** The entries of a chunk come best first, as a compiled table has them. */
  ghost predicate Descending(c: Chunk) {
    forall i, j :: 0 <= i < j < |c.entries| ==> c.entries[i].weight >= c.entries[j].weight
  }

  // ----- the merge -----

  /** The chunks once the first entry of the first one is done with. */
  function Advance(list: seq<Chunk>): seq<Chunk>
    requires |list| > 0
  {
    if list[0].cursor + 1 >= |list[0].entries| then list[1..] else Sorted([list[0].Step()] + list[1..])
  }

  lemma {:induction false} FlatIsMapped(list: seq<Chunk>)
    ensures Flat(list) == FlatMap(Items, list)
  {
    if |list| > 0 { FlatIsMapped(list[1..]); }
  }

  lemma AdvanceFlat(list: seq<Chunk>)
    requires |list| > 0 && AllLive(list)
    ensures list[0].Live() && AllLive(Advance(list))
    ensures multiset(Flat(list)) == multiset{HeadItem(list[0])} + multiset(Flat(Advance(list)))
  {
    hide Before, Insert, Sorted, Items, Chunk.Live;
    var c := list[0];
    assert c in list;
    FlatHead(list);
    if c.Step().Live() { SteppedFlat(c, list[1..]); }
    AdvanceCases(list);
  }

  lemma {:induction false} FlatHead(list: seq<Chunk>)
    requires |list| > 0 && list[0].Live()
    ensures Flat(list) == [HeadItem(list[0])] + (Items(list[0].Step()) + Flat(list[1..]))
    ensures !list[0].Step().Live() ==> Items(list[0].Step()) == []
  {
  }

  lemma AdvanceCases(list: seq<Chunk>)
    requires |list| > 0
    ensures Advance(list) == if list[0].Step().Live() then Sorted([list[0].Step()] + list[1..]) else list[1..]
  {
  }

  lemma SteppedFlat(c: Chunk, rest: seq<Chunk>)
    requires c.Step().Live() && AllLive(rest)
    ensures AllLive(Sorted([c.Step()] + rest))
    ensures multiset(Flat(Sorted([c.Step()] + rest))) == multiset(Items(c.Step()) + Flat(rest))
  {
    hide Before, Insert, Sorted, Items;
    var next := [c.Step()] + rest;
    assert next[1..] == rest;
    SortedInOrder(next);
    FlatMapOfMultiset(Items, Sorted(next), next);
    FlatIsMapped(next);
    FlatIsMapped(Sorted(next));
  }

  ghost function Total(list: seq<Chunk>): nat { |Flat(list)| }

  lemma AdvanceShrinks(list: seq<Chunk>)
    requires |list| > 0 && AllLive(list)
    ensures AllLive(Advance(list)) && Total(list) == Total(Advance(list)) + 1
  {
    AdvanceFlat(list);
    assert |multiset(Flat(list))| == |Flat(list)| && |multiset(Flat(Advance(list)))| == |Flat(Advance(list))|;
  }

  /** Everything that repeated advancing offers, in order. */
  ghost function Run(list: seq<Chunk>): seq<Item>
    requires AllLive(list)
    decreases Total(list)
  {
    if |list| == 0 then []
    else
      AdvanceShrinks(list);
      assert list[0] in list;
      [HeadItem(list[0])] + Run(Advance(list))
  }

  /** Main result, first half: the merge offers every entry of every chunk exactly once. */
  lemma {:induction false} RunIsComplete(list: seq<Chunk>)
    requires AllLive(list)
    ensures multiset(Run(list)) == multiset(Flat(list))
    decreases Total(list)
  {
    if |list| > 0 {
      AdvanceShrinks(list);
      AdvanceFlat(list);
      RunIsComplete(Advance(list));
    }
  }

  // ----- the order of the merge -----

  /** The order, written out. */
  lemma NotAfterTells(a: Item, b: Item)
    ensures NotAfter(a, b)
            <==> |a.remainingCode| < |b.remainingCode|
                 || (|a.remainingCode| == |b.remainingCode| && a.credibility * a.entry.weight >= b.credibility * b.entry.weight)
  {
  }

  /** Each chunk by itself comes best first. */
  ghost predicate AllDescending(list: seq<Chunk>) {
    forall c :: c in list ==> Descending(c) && c.credibility >= 0.0
  }

  ghost predicate Orderly(list: seq<Chunk>) {
    AllLive(list) && InOrder(list) && AllDescending(list)
  }

  lemma SortedDescending(list: seq<Chunk>)
    requires AllDescending(list)
    ensures AllDescending(Sorted(list)) && InOrder(Sorted(list))
  {
    SortedInOrder(list);
    hide Sorted, Descending, InOrder;
  }

  lemma AdvanceOrderly(list: seq<Chunk>)
    requires Orderly(list) && |list| > 0
    ensures Orderly(Advance(list))
  {
    AdvanceShrinks(list);
    var next := [list[0].Step()] + list[1..];
    assert list[0] in list && Descending(list[0].Step());
    hide Descending;
    assert AllDescending(list[1..]) && AllDescending(next);
    SortedDescending(next);
    hide Sorted, AllLive, AllDescending;
    InOrderBehind(list);
  }

  lemma InOrderBehind(list: seq<Chunk>)
    requires InOrder(list) && |list| > 0
    ensures InOrder(list[1..])
  {
  }

  lemma {:induction false} HeadIsBestOfChunk(c: Chunk, d: Chunk, x: Item)
    requires c.Live() && Descending(c) && c.credibility >= 0.0
    requires d == c.(cursor := d.cursor) && c.cursor <= d.cursor && x in Items(d)
    ensures NotAfter(HeadItem(c), x)
    decreases |d.entries| - d.cursor
  {
    if x == HeadItem(d) {
      TimesMonotone(c.entries[c.cursor].weight, d.entries[d.cursor].weight, c.credibility);
    } else {
      HeadIsBestOfChunk(c, d.Step(), x);
    }
  }

  lemma {:induction false} InFlat(list: seq<Chunk>, x: Item) returns (i: nat)
    requires x in Flat(list)
    ensures i < |list| && x in Items(list[i])
  {
    if x in Items(list[0]) {
      i := 0;
    } else {
      i := InFlat(list[1..], x);
      i := i + 1;
    }
  }

  lemma HeadIsBest(list: seq<Chunk>, x: Item)
    requires Orderly(list) && |list| > 0 && x in Flat(list)
    ensures list[0].Live() && NotAfter(HeadItem(list[0]), x)
  {
    var i := InFlat(list, x);
    assert list[i] in list && list[0] in list;
    HeadIsBestOfChunk(list[i], list[i], x);
    assert i > 0 ==> !Before(list[i], list[0]);
  }

  lemma HeadIsFirst(list: seq<Chunk>, x: Item)
    requires Orderly(list) && |list| > 0 && AllLive(Advance(list)) && x in Run(Advance(list))
    ensures list[0].Live() && NotAfter(HeadItem(list[0]), x)
  {
    hide Run, Flat, Advance, NotAfter, Orderly;
    RunIsComplete(Advance(list));
    assert x in multiset(Run(Advance(list)));
    OrderlyIsLive(list);
    AdvanceFlat(list);
    assert x in multiset(Flat(list));
    HeadIsBest(list, x);
  }

  lemma OrderlyIsLive(list: seq<Chunk>)
    requires Orderly(list)
    ensures AllLive(list)
  {
  }

  ghost predicate Ordered(items: seq<Item>) {
    forall i, j :: 0 <= i < j < |items| ==> NotAfter(items[i], items[j])
  }

  /** Main result, second half: what the merge offers is in order. */
  lemma {:induction false} RunIsOrdered(list: seq<Chunk>)
    requires Orderly(list)
    ensures Ordered(Run(list))
    decreases Total(list)
  {
    if |list| > 0 {
      hide Flat, Advance, NotAfter;
      AdvanceShrinks(list);
      AdvanceOrderly(list);
      var rest := Run(Advance(list));
      RunIsOrdered(Advance(list));
      forall j | 0 <= j < |rest|
        ensures list[0].Live() && NotAfter(HeadItem(list[0]), rest[j])
      {
        HeadIsFirst(list, rest[j]);
      }
    }
  }

  /** A chunk list that has been sorted is merged in order. */
  lemma SortedIsOrderly(list: seq<Chunk>)
    requires AllLive(list) && AllDescending(list)
    ensures Orderly(Sorted(list))
  {
    SortedInOrder(list);
  }
}
