/** The table: a vocabulary laid out as an array of head nodes, sorted trunk levels that are
    searched by bisection, and tail lists. */
module TableImages {
  import opened Commons
  import opened Spellings
  import opened Vocabularies

  datatype Entry = Entry(text: string, weight: real)

  datatype TailNode = TailNode(extraCode: seq<int>, entry: Entry)

  datatype Index = NoIndex | Trunk(nodes: seq<TrunkNode>) | Tail(tails: seq<TailNode>)

  datatype TrunkNode = TrunkNode(key: int, entries: seq<Entry>, next: Index)

  datatype HeadNode = HeadNode(entries: seq<Entry>, next: Index)

  function ImageOf(e: DictEntry): Entry { Entry(e.text, e.weight) }

  function Images(entries: seq<DictEntry>): seq<Entry> {
    seq(|entries|, i requires 0 <= i < |entries| => ImageOf(entries[i]))
  }

  function TailOf(e: DictEntry): TailNode
    requires |e.code| >= INDEX_CODE_MAX_LENGTH
  {
    TailNode(e.code[INDEX_CODE_MAX_LENGTH..], ImageOf(e))
  }

  // ----- what a faithful image is -----

  ghost predicate IsTail(v: Vocabulary, tails: seq<TailNode>) {
    var entries := PageAt(v, TAIL_KEY).entries;
    && TAIL_KEY in v.pages && |tails| == |entries|
    && forall i :: 0 <= i < |entries| ==> |entries[i].code| > INDEX_CODE_MAX_LENGTH && tails[i] == TailOf(entries[i])
  }

  /** The image of what lies below a page, `level` keys below the root. */
  ghost predicate IsNext(page: Page, next: Index, level: nat)
    requires 1 <= level <= INDEX_CODE_MAX_LENGTH
    decreases INDEX_CODE_MAX_LENGTH - level, 1
  {
    match page.nextLevel
    case None => next == NoIndex
    case Some(v) =>
      if level < INDEX_CODE_MAX_LENGTH then next.Trunk? && IsTrunk(v, next.nodes, level)
      else next.Tail? && IsTail(v, next.tails)
  }

  ghost predicate SortedByKey(nodes: seq<TrunkNode>) {
    forall i, j :: 0 <= i < j < |nodes| ==> nodes[i].key < nodes[j].key
  }

  ghost predicate IsTrunk(v: Vocabulary, nodes: seq<TrunkNode>, level: nat)
    requires 1 <= level < INDEX_CODE_MAX_LENGTH
    decreases INDEX_CODE_MAX_LENGTH - level, 0
  {
    && SortedByKey(nodes)
    && (forall k :: k in v.pages ==> exists i :: 0 <= i < |nodes| && nodes[i].key == k)
    && (forall i :: 0 <= i < |nodes| ==>
          && nodes[i].key in v.pages
          && nodes[i].entries == Images(v.pages[nodes[i].key].entries)
          && IsNext(v.pages[nodes[i].key], nodes[i].next, level + 1))
  }

  ghost predicate IsHead(v: Vocabulary, head: seq<HeadNode>) {
    && RootIds(v, |head|)
    && (forall k :: 0 <= k < |head| ==>
          && head[k].entries == Images(PageAt(v, k).entries)
          && IsNext(PageAt(v, k), head[k].next, 1))
  }

  // ----- building it -----

  method BuildEntryList(src: seq<DictEntry>) returns (dest: seq<Entry>)
    ensures dest == Images(src)
  {
    dest := [];
    for i := 0 to |src|
      invariant dest == Images(src[..i])
    {
      dest := dest + [ImageOf(src[i])];
    }
    assert src[..|src|] == src;
  }

  /** Fails when the vocabulary has no tail slot. */
  method BuildTailIndex(v: Vocabulary) returns (r: Option<Index>)
    requires LongTails(v, INDEX_CODE_MAX_LENGTH)
    ensures r.Some? <==> Shaped(v, INDEX_CODE_MAX_LENGTH)
    ensures r.Some? ==> r.value.Tail? && IsTail(v, r.value.tails)
  {
    if TAIL_KEY !in v.pages {
      return None;
    }
    var entries := v.pages[TAIL_KEY].entries;
    var tails := [];
    for i := 0 to |entries|
      invariant |tails| == i
      invariant forall j :: 0 <= j < i ==> |entries[j].code| > INDEX_CODE_MAX_LENGTH && tails[j] == TailOf(entries[j])
    {
      assert entries[i] in entries;
      tails := tails + [TailOf(entries[i])];
    }
    r := Some(Tail(tails));
  }

  /** Builds what lies below a page. */
  method BuildNext(page: Page, level: nat) returns (r: Option<Index>)
    requires 1 <= level <= INDEX_CODE_MAX_LENGTH
    requires page.nextLevel.Some? ==> LongTails(page.nextLevel.value, level)
    ensures r.Some? <==> (page.nextLevel.Some? ==> Shaped(page.nextLevel.value, level))
    ensures r.Some? ==> IsNext(page, r.value, level)
    decreases INDEX_CODE_MAX_LENGTH - level, 1
  {
    if page.nextLevel.None? {
      return Some(NoIndex);
    }
    if level < INDEX_CODE_MAX_LENGTH {
      r := BuildTrunkIndex(page.nextLevel.value, level);
    } else {
      r := BuildTailIndex(page.nextLevel.value);
    }
  }

  /** The part of a trunk level whose keys are outside `rest`. */
  ghost predicate Partial(v: Vocabulary, nodes: seq<TrunkNode>, level: nat, rest: set<int>)
    requires 1 <= level < INDEX_CODE_MAX_LENGTH
  {
    && SortedByKey(nodes)
    && (forall k :: k in v.pages && k !in rest ==> exists i :: 0 <= i < |nodes| && nodes[i].key == k)
    && (forall i :: 0 <= i < |nodes| ==>
          && nodes[i].key in v.pages && nodes[i].key !in rest
          && nodes[i].entries == Images(v.pages[nodes[i].key].entries)
          && IsNext(v.pages[nodes[i].key], nodes[i].next, level + 1))
    && (forall i, k :: 0 <= i < |nodes| && k in rest ==> nodes[i].key < k)
  }

  lemma OneMoreNode(v: Vocabulary, nodes: seq<TrunkNode>, level: nat, rest: set<int>, node: TrunkNode)
    requires 1 <= level < INDEX_CODE_MAX_LENGTH && Partial(v, nodes, level, rest)
    requires IsLeast(node.key, rest) && node.key in v.pages
    requires node.entries == Images(v.pages[node.key].entries) && IsNext(v.pages[node.key], node.next, level + 1)
    ensures Partial(v, nodes + [node], level, rest - {node.key})
  {
    hide IsNext, Images;
    var more := nodes + [node];
    forall k | k in v.pages && k !in rest - {node.key}
      ensures exists i :: 0 <= i < |more| && more[i].key == k
    {
      if k == node.key {
        assert more[|nodes|].key == k;
      } else {
        var i :| 0 <= i < |nodes| && nodes[i].key == k;
        assert more[i].key == k;
      }
    }
  }

  method BuildTrunkIndex(v: Vocabulary, level: nat) returns (r: Option<Index>)
    requires 1 <= level < INDEX_CODE_MAX_LENGTH && LongTails(v, level)
    ensures r.Some? <==> Shaped(v, level)
    ensures r.Some? ==> r.value.Trunk? && IsTrunk(v, r.value.nodes, level)
    decreases INDEX_CODE_MAX_LENGTH - level, 0
  {
    var nodes: seq<TrunkNode> := [];
    var rest := v.pages.Keys;
    while |rest| > 0
      invariant rest <= v.pages.Keys && Partial(v, nodes, level, rest)
      invariant forall k :: k in v.pages && k !in rest && v.pages[k].nextLevel.Some? ==> Shaped(v.pages[k].nextLevel.value, level + 1)
    {
      hide Partial, IsNext, Images;
      var key := Least(rest);
      var entries := BuildEntryList(v.pages[key].entries);
      var next := BuildNext(v.pages[key], level + 1);
      if next.None? {
        return None;
      }
      var node := TrunkNode(key, entries, next.value);
      OneMoreNode(v, nodes, level, rest, node);
      nodes := nodes + [node];
      rest := rest - {key};
    }
    r := Some(Trunk(nodes));
  }

  method BuildHeadIndex(v: Vocabulary, numSyllables: nat) returns (r: Option<seq<HeadNode>>)
    requires RootIds(v, numSyllables) && LongTails(v, 0)
    ensures r.Some? <==> Shaped(v, 0)
    ensures r.Some? ==> |r.value| == numSyllables && IsHead(v, r.value)
  {
    var head := seq(numSyllables, _ => HeadNode([], NoIndex));
    var rest := v.pages.Keys;
    while |rest| > 0
      invariant rest <= v.pages.Keys && |head| == numSyllables
      invariant forall k :: 0 <= k < numSyllables && k !in rest ==>
                  head[k].entries == Images(PageAt(v, k).entries) && IsNext(PageAt(v, k), head[k].next, 1)
      invariant forall k :: k in v.pages && k !in rest && v.pages[k].nextLevel.Some? ==> Shaped(v.pages[k].nextLevel.value, 1)
    {
      hide IsNext, Images;
      var key := Least(rest);
      var entries := BuildEntryList(v.pages[key].entries);
      var next := BuildNext(v.pages[key], 1);
      if next.None? {
        return None;
      }
      head := head[key := HeadNode(entries, next.value)];
      rest := rest - {key};
    }
    r := Some(head);
  }
}
