/** Walking a table: bisection on trunk levels, accessors over entry lists and tails, and the
    visitor that goes down and up the levels. */
module TableVisitors {
  import opened Commons
  import opened Vocabularies
  import opened TableImages

  // ----- find_node -----

  /** The first node in `lo..hi` whose key is not less than `key`, by bisection. */
  function LowerBound(nodes: seq<TrunkNode>, key: int, lo: nat, hi: nat): (r: nat)
    requires SortedByKey(nodes) && lo <= hi <= |nodes|
    ensures lo <= r <= hi
    ensures forall i :: lo <= i < r ==> nodes[i].key < key
    ensures forall i :: r <= i < hi ==> key <= nodes[i].key
    decreases hi - lo
  {
    if lo == hi then lo
    else
      var mid := (lo + hi) / 2;
      if nodes[mid].key < key then LowerBound(nodes, key, mid + 1, hi) else LowerBound(nodes, key, lo, mid)
  }

  /** The node with the given key, or the end. */
  function FindNode(nodes: seq<TrunkNode>, key: int): (r: nat)
    requires SortedByKey(nodes)
    ensures r <= |nodes|
    ensures r < |nodes| ==> nodes[r].key == key
    ensures r == |nodes| ==> forall i :: 0 <= i < |nodes| ==> nodes[i].key != key
  {
    var it := LowerBound(nodes, key, 0, |nodes|);
    if it == |nodes| || key < nodes[it].key then |nodes| else it
  }

  // ----- accessors -----

  datatype Contents = Nothing | EntryList(entries: seq<Entry>) | CodeMap(tails: seq<TailNode>)

  datatype TableAccessor = TableAccessor(indexCode: seq<int>, contents: Contents, cursor: nat, credibility: real)
  {
    function Size(): nat {
      match contents
      case Nothing => 0
      case EntryList(es) => |es|
      case CodeMap(ts) => |ts|
    }

    predicate Exhausted() { cursor >= Size() }

    function CurrentEntry(): Entry
      requires !Exhausted()
    {
      if contents.EntryList? then contents.entries[cursor] else contents.tails[cursor].entry
    }

    function ExtraCode(): Option<seq<int>> {
      if contents.CodeMap? && cursor < |contents.tails| then Some(contents.tails[cursor].extraCode) else None
    }

    function Code(): seq<int> {
      match ExtraCode()
      case None => indexCode
      case Some(extra) => indexCode + extra
    }

    function Next(): TableAccessor {
      if Exhausted() then this else this.(cursor := cursor + 1)
    }

    /** What stepping through to the end shows: each entry with its full code. */
    ghost function Drain(): seq<(seq<int>, Entry)>
      decreases Size() - cursor
    {
      if Exhausted() then [] else [(Code(), CurrentEntry())] + Next().Drain()
    }
  }

  const NO_ACCESSOR := TableAccessor([], Nothing, 0, 1.0)

  // ----- where a code leads in the vocabulary and in its image -----

  ghost function PageUnder(v: Vocabulary, code: seq<int>): Page
    decreases |code|
  {
    if |code| == 0 then Page([], Some(v))
    else PageAt(NextOf(PageUnder(v, code[..|code| - 1])), code[|code| - 1])
  }

  ghost function IndexAfter(head: seq<HeadNode>, code: seq<int>): Index
    requires |code| > 0
    decreases |code|
  {
    var id := code[|code| - 1];
    if |code| == 1 then (if 0 <= id < |head| then head[id].next else NoIndex)
    else
      var index := IndexAfter(head, code[..|code| - 1]);
      if index.Trunk? && SortedByKey(index.nodes) && FindNode(index.nodes, id) < |index.nodes|
      then index.nodes[FindNode(index.nodes, id)].next else NoIndex
  }

  lemma {:induction false} EntriesUnder(v: Vocabulary, code: seq<int>, id: int)
    ensures EntriesAt(v, code + [id]) == PageUnder(v, code + [id]).entries
    decreases |code|
  {
    assert (code + [id])[..|code|] == code;
    if |code| == 0 {
      assert code + [id] == [id];
      assert PageUnder(v, [id][..0]) == Page([], Some(v));
    } else {
      var k := code[0];
      assert code + [id] == [k] + (code[1..] + [id]);
      PageBelow(v, k, code[1..] + [id]);
      EntriesUnder(NextOf(PageAt(v, k)), code[1..], id);
      NothingAt(code[1..] + [id]);
    }
  }

  lemma {:induction false} PageBelow(v: Vocabulary, k: int, code: seq<int>)
    ensures PageUnder(v, [k] + code) == if |code| == 0 then PageAt(v, k) else PageUnder(NextOf(PageAt(v, k)), code)
    decreases |code|
  {
    var path := [k] + code;
    if |code| == 0 {
      assert path[..0] == [];
    } else {
      assert path[..|path| - 1] == [k] + code[..|code| - 1];
      PageBelow(v, k, code[..|code| - 1]);
    }
  }

  /** The image below a code is the image of what the vocabulary has below it. */
  lemma {:induction false} IndexIsFaithful(v: Vocabulary, head: seq<HeadNode>, code: seq<int>)
    requires IsHead(v, head) && 1 <= |code| <= INDEX_CODE_MAX_LENGTH
    ensures IsNext(PageUnder(v, code), IndexAfter(head, code), |code|)
    decreases |code|
  {
    var init, id := code[..|code| - 1], code[|code| - 1];
    if |code| == 1 {
      assert init == [] && PageUnder(v, init) == Page([], Some(v));
      assert PageUnder(v, code) == PageAt(v, id);
    } else {
      IndexIsFaithful(v, head, init);
    }
  }

  /** A node of a trunk level is the image of its page. */
  lemma TrunkNodeIs(v: Vocabulary, nodes: seq<TrunkNode>, level: nat, id: int)
    requires 1 <= level < INDEX_CODE_MAX_LENGTH && IsTrunk(v, nodes, level)
    ensures var i := FindNode(nodes, id);
            && (i < |nodes| <==> id in v.pages)
            && (i < |nodes| ==> nodes[i].entries == Images(PageAt(v, id).entries))
  {
  }

  // ----- the visitor -----

  class TableVisitor {
    ghost const vocabulary: Vocabulary
    const lv1: seq<HeadNode>
    var lv2: Option<seq<TrunkNode>>
    var lv3: Option<seq<TrunkNode>>
    var lv4: Option<seq<TailNode>>
    var level: nat
    var indexCode: seq<int>
    var credibility: seq<real>

    constructor (index: seq<HeadNode>, ghost v: Vocabulary)
      requires IsHead(v, index)
      ensures vocabulary == v && lv1 == index && Stands([], [1.0])
    {
      vocabulary, lv1 := v, index;
      lv2, lv3, lv4 := None, None, None;
      level, indexCode, credibility := 0, [], [1.0];
    }

    constructor Copy(other: TableVisitor)
      ensures vocabulary == other.vocabulary && lv1 == other.lv1
      ensures forall code, crs :: old(other.Stands(code, crs)) ==> Stands(code, crs)
    {
      vocabulary, lv1 := other.vocabulary, other.lv1;
      lv2, lv3, lv4 := other.lv2, other.lv3, other.lv4;
      level, indexCode, credibility := other.level, other.indexCode, other.credibility;
    }

    /** The visitor has walked `code`. The levels below may hold anything: what a walk left
        there before going back up cannot be told. */
    ghost predicate Stands(code: seq<int>, crs: seq<real>)
      reads this
    {
      && IsHead(vocabulary, lv1)
      && |code| <= INDEX_CODE_MAX_LENGTH && level == |code| && indexCode == code
      && |crs| == level + 1 && credibility == crs
      && (level >= 1 ==> lv2.Some? && IndexAfter(lv1, code[..1]) == Trunk(lv2.value))
      && (level >= 2 ==> lv3.Some? && IndexAfter(lv1, code[..2]) == Trunk(lv3.value))
      && (level == 3 ==> lv4.Some? && IndexAfter(lv1, code) == Tail(lv4.value))
    }

    /** Looks a syllable up below where the visitor stands; at the last level, everything. */
    method Access(id: int, ghost code: seq<int>, ghost crs: seq<real>) returns (a: TableAccessor)
      requires Stands(code, crs)
      ensures Opens(vocabulary, a, code, id, Times(1.0, crs[|crs| - 1]))
    {
      hide IsHead, IsTrunk, IsTail, Opens, PageUnder, IndexAfter;
      Standing(code, crs);
      var cr := Times(1.0, credibility[|credibility| - 1]);
      if level == 0 {
        OpensHead(vocabulary, lv1, id, cr);
        if !(0 <= id < |lv1|) {
          return NO_ACCESSOR;
        }
        return TableAccessor(indexCode + [id], EntryList(lv1[id].entries), 0, cr);
      }
      if level == INDEX_CODE_MAX_LENGTH {
        OpensTail(vocabulary, code, id, lv4.value, cr);
        return TableAccessor(indexCode, CodeMap(lv4.value), 0, cr);
      }
      var nodes := if level == 1 then lv2.value else lv3.value;
      OpensTrunk(vocabulary, code, id, nodes, cr);
      var i := FindNode(nodes, id);
      if i == |nodes| {
        return NO_ACCESSOR;
      }
      a := TableAccessor(indexCode + [id], EntryList(nodes[i].entries), 0, cr);
    }

    /** Down to the next level. */
    method Walk(id: int, factor: real, ghost code: seq<int>, ghost crs: seq<real>) returns (ok: bool)
      requires Stands(code, crs)
      modifies this
      ensures ok <==> |code| < INDEX_CODE_MAX_LENGTH && PageUnder(vocabulary, code + [id]).nextLevel.Some?
      ensures ok ==> Stands(code + [id], crs + [Times(crs[|crs| - 1], factor)])
      ensures !ok ==> Stands(code, crs)
    {
      hide IsHead, IsTrunk, IsTail, IsNext, PageUnder, IndexAfter;
      if level == INDEX_CODE_MAX_LENGTH {
        return false;
      }
      NextIsFaithful(vocabulary, lv1, code, id);
      var next := Below(id, code, crs);
      if next.NoIndex? {
        return false;
      }
      if level == 0 {
        lv2 := Some(next.nodes);
      } else if level == 1 {
        lv3 := Some(next.nodes);
      } else {
        lv4 := Some(next.tails);
      }
      OneMore(code, id);
      level := level + 1;
      indexCode := indexCode + [id];
      credibility := credibility + [Times(credibility[|credibility| - 1], factor)];
      ok := true;
    }

    /** What there is below where the visitor stands. */
    method Below(id: int, ghost code: seq<int>, ghost crs: seq<real>) returns (next: Index)
      requires Stands(code, crs) && level < INDEX_CODE_MAX_LENGTH
      ensures next == IndexAfter(lv1, code + [id])
    {
      hide IsHead, IsTrunk, IsTail, PageUnder, IndexAfter;
      Standing(code, crs);
      if level == 0 {
        IndexAfterHead(lv1, id);
        return if 0 <= id < |lv1| then lv1[id].next else NoIndex;
      }
      var nodes := if level == 1 then lv2.value else lv3.value;
      assert code[..level] == code;
      IndexAfterTrunk(lv1, code, id, nodes);
      SortedTrunk(NextOf(PageUnder(vocabulary, code)), nodes, level);
      var i := FindNode(nodes, id);
      next := if i == |nodes| then NoIndex else nodes[i].next;
    }

    /** Up one level. */
    method Backdate(ghost code: seq<int>, ghost crs: seq<real>) returns (ok: bool)
      requires Stands(code, crs)
      modifies this
      ensures ok <==> |code| > 0
      ensures ok ==> Stands(code[..|code| - 1], crs[..|crs| - 1])
      ensures !ok ==> Stands(code, crs)
    {
      hide IsHead, IndexAfter;
      if level == 0 {
        return false;
      }
      level := level - 1;
      if |indexCode| > level {
        indexCode := indexCode[..|indexCode| - 1];
        credibility := credibility[..|credibility| - 1];
      }
      assert code[..|code| - 1][..level] == code[..level];
      assert level == 2 ==> code[..2][..1] == code[..1];
      ok := true;
    }

    /** Back to the root. */
    method Reset(ghost code: seq<int>, ghost crs: seq<real>)
      requires Stands(code, crs)
      modifies this
      ensures Stands([], [1.0])
    {
      level, indexCode, credibility := 0, [], [1.0];
    }

    /** What the level the visitor stands on is the image of. */
    lemma Standing(code: seq<int>, crs: seq<real>)
      requires Stands(code, crs)
      ensures level > 0 ==> PageUnder(vocabulary, code).nextLevel.Some?
      ensures level == 1 ==> IsTrunk(NextOf(PageUnder(vocabulary, code)), lv2.value, 1)
      ensures level == 2 ==> IsTrunk(NextOf(PageUnder(vocabulary, code)), lv3.value, 2)
      ensures level == 3 ==> IsTail(NextOf(PageUnder(vocabulary, code)), lv4.value)
    {
      if level > 0 {
        assert code[..level] == code;
        IndexIsFaithful(vocabulary, lv1, code);
      }
    }
  }

  lemma OneMore(code: seq<int>, id: int)
    ensures (code + [id])[..|code| + 1] == code + [id]
    ensures forall k :: 0 <= k <= |code| ==> (code + [id])[..k] == code[..k]
  {
  }

  /** What is found one syllable further is the image of what the vocabulary has there. */
  lemma NextIsFaithful(v: Vocabulary, head: seq<HeadNode>, code: seq<int>, id: int)
    requires IsHead(v, head) && |code| < INDEX_CODE_MAX_LENGTH
    ensures var index := IndexAfter(head, code + [id]);
            && (index == NoIndex <==> PageUnder(v, code + [id]).nextLevel.None?)
            && (index != NoIndex && |code| < 2 ==> index.Trunk?)
            && (index != NoIndex && |code| == 2 ==> index.Tail?)
  {
    IndexIsFaithful(v, head, code + [id]);
  }

  lemma IndexAfterHead(head: seq<HeadNode>, id: int)
    ensures IndexAfter(head, [] + [id]) == if 0 <= id < |head| then head[id].next else NoIndex
  {
  }

  lemma IndexAfterTrunk(head: seq<HeadNode>, code: seq<int>, id: int, nodes: seq<TrunkNode>)
    requires |code| > 0 && IndexAfter(head, code) == Trunk(nodes)
    ensures IndexAfter(head, code + [id])
            == if SortedByKey(nodes) && FindNode(nodes, id) < |nodes| then nodes[FindNode(nodes, id)].next else NoIndex
  {
    assert (code + [id])[..|code|] == code;
  }

  lemma SortedTrunk(v: Vocabulary, nodes: seq<TrunkNode>, level: nat)
    requires 1 <= level < INDEX_CODE_MAX_LENGTH && IsTrunk(v, nodes, level)
    ensures SortedByKey(nodes)
  {
  }

  lemma OpensHead(v: Vocabulary, head: seq<HeadNode>, id: int, cr: real)
    requires IsHead(v, head)
    ensures Opens(v, if 0 <= id < |head| then TableAccessor([] + [id], EntryList(head[id].entries), 0, cr) else NO_ACCESSOR, [], id, cr)
  {
    assert [] + [id] == [id];
  }

  lemma OpensTrunk(v: Vocabulary, code: seq<int>, id: int, nodes: seq<TrunkNode>, cr: real)
    requires 1 <= |code| < INDEX_CODE_MAX_LENGTH && IsTrunk(NextOf(PageUnder(v, code)), nodes, |code|)
    ensures SortedByKey(nodes)
    ensures var i := FindNode(nodes, id);
            Opens(v, if i < |nodes| then TableAccessor(code + [id], EntryList(nodes[i].entries), 0, cr) else NO_ACCESSOR, code, id, cr)
  {
    TrunkNodeIs(NextOf(PageUnder(v, code)), nodes, |code|, id);
    EntriesUnder(v, code, id);
    assert (code + [id])[..|code|] == code;
  }

  lemma OpensTail(v: Vocabulary, code: seq<int>, id: int, tails: seq<TailNode>, cr: real)
    requires |code| == INDEX_CODE_MAX_LENGTH && IsTail(NextOf(PageUnder(v, code)), tails)
    ensures Opens(v, TableAccessor(code, CodeMap(tails), 0, cr), code, id, cr)
  {
    EntriesUnder(v, code, TAIL_KEY);
    assert (code + [TAIL_KEY])[..|code|] == code;
    assert tails == TailImages(EntriesAt(v, code + [TAIL_KEY]));
  }

  /** The tail nodes of a slot. */
  function TailImages(entries: seq<DictEntry>): seq<TailNode> {
    seq(|entries|, i requires 0 <= i < |entries| =>
      TailNode(if |entries[i].code| > INDEX_CODE_MAX_LENGTH then entries[i].code[INDEX_CODE_MAX_LENGTH..] else [], ImageOf(entries[i])))
  }

  /** The keys of the slot that is looked up below `code`: that of `code` and `id`, or, once
      the index code is full, the one all longer codes share. */
  function SlotBelow(code: seq<int>, id: int): seq<int> {
    if |code| < INDEX_CODE_MAX_LENGTH then code + [id] else code + [TAIL_KEY]
  }

  /** The accessor of a slot that has entries. */
  ghost function AccessorFor(v: Vocabulary, code: seq<int>, id: int, credibility: real): TableAccessor {
    var entries := EntriesAt(v, SlotBelow(code, id));
    if |code| < INDEX_CODE_MAX_LENGTH
    then TableAccessor(code + [id], EntryList(Images(entries)), 0, credibility)
    else TableAccessor(code, CodeMap(TailImages(entries)), 0, credibility)
  }

  /** The accessor shows exactly the slot. */
  ghost predicate Opens(v: Vocabulary, a: TableAccessor, code: seq<int>, id: int, credibility: real) {
    var entries := EntriesAt(v, SlotBelow(code, id));
    && (a.Exhausted() <==> entries == [])
    && (entries != [] ==> a == AccessorFor(v, code, id, credibility))
  }
}
