/** Looking phrases up in a table by their code. */
module TableQueries {
  import opened Commons
  import opened Vocabularies
  import opened TableImages
  import opened TableVisitors

  // ----- by a code -----

  /** The entries in the slot of a code, each with its full code. */
  ghost function Phrases(v: Vocabulary, code: seq<int>): seq<(seq<int>, Entry)> {
    var entries := EntriesAt(v, Slot(code));
    seq(|entries|, i requires 0 <= i < |entries| =>
      (if |code| <= INDEX_CODE_MAX_LENGTH || |entries[i].code| <= INDEX_CODE_MAX_LENGTH then code[..IndexLength(code)]
       else code[..INDEX_CODE_MAX_LENGTH] + entries[i].code[INDEX_CODE_MAX_LENGTH..],
       Entry(entries[i].text, entries[i].weight)))
  }

  function IndexLength(code: seq<int>): nat {
    if |code| < INDEX_CODE_MAX_LENGTH then |code| else INDEX_CODE_MAX_LENGTH
  }

  lemma {:induction false} DrainEntries(a: TableAccessor)
    requires a.contents.EntryList?
    ensures |a.Drain()| == if a.cursor <= a.Size() then a.Size() - a.cursor else 0
    ensures forall i :: 0 <= i < |a.Drain()| ==> a.Drain()[i] == (a.indexCode, a.contents.entries[a.cursor + i])
    decreases a.Size() - a.cursor
  {
    if !a.Exhausted() { DrainEntries(a.Next()); }
  }

  lemma {:induction false} DrainTails(a: TableAccessor)
    requires a.contents.CodeMap?
    ensures |a.Drain()| == if a.cursor <= a.Size() then a.Size() - a.cursor else 0
    ensures forall i :: 0 <= i < |a.Drain()| ==>
              a.Drain()[i] == (a.indexCode + a.contents.tails[a.cursor + i].extraCode, a.contents.tails[a.cursor + i].entry)
    decreases a.Size() - a.cursor
  {
    if !a.Exhausted() { DrainTails(a.Next()); }
  }

  lemma {:induction false} DeadEnd(v: Vocabulary, prefix: seq<int>, path: seq<int>)
    requires |prefix| > 0 && PageUnder(v, prefix).nextLevel.None? && prefix < path
    ensures PageUnder(v, path) == Page([], None)
    decreases |path|
  {
    var init := path[..|path| - 1];
    if |init| == |prefix| {
      assert init == prefix;
    } else {
      DeadEnd(v, prefix, init);
    }
  }

  lemma NoPhrases(v: Vocabulary, code: seq<int>, i: nat)
    requires i < |code| && i < INDEX_CODE_MAX_LENGTH && i + 1 < |code|
    requires PageUnder(v, code[..i + 1]).nextLevel.None?
    ensures Phrases(v, code) == []
  {
    var slot := Slot(code);
    assert code[..i + 1] == slot[..i + 1];
    assert code[..i + 1] < slot;
    DeadEnd(v, code[..i + 1], slot);
    assert slot == slot[..|slot| - 1] + [slot[|slot| - 1]];
    EntriesUnder(v, slot[..|slot| - 1], slot[|slot| - 1]);
  }

  lemma PhrasesShown(v: Vocabulary, code: seq<int>, a: TableAccessor, cr: real)
    requires |code| > 0 && LongTailEntries(v, code)
    requires var n := IndexLength(code);
             if |code| <= INDEX_CODE_MAX_LENGTH then Opens(v, a, code[..n - 1], code[n - 1], cr) else Opens(v, a, code[..n], TAIL_KEY, cr)
    ensures a.Drain() == Phrases(v, code)
  {
    var n := IndexLength(code);
    assert code[..n - 1] + [code[n - 1]] == code[..n];
    assert |code| == n ==> code[..n] == code;
    if !a.Exhausted() {
      if |code| <= INDEX_CODE_MAX_LENGTH { DrainEntries(a); } else { DrainTails(a); }
    }
  }

  /** The entries of a tail slot have long codes. */
  ghost predicate LongTailEntries(v: Vocabulary, code: seq<int>) {
    |code| > INDEX_CODE_MAX_LENGTH ==> forall e :: e in EntriesAt(v, Slot(code)) ==> |e.code| > INDEX_CODE_MAX_LENGTH
  }

  /** All phrases in the slot of `code`, with their codes. */
  method QueryPhrases(index: seq<HeadNode>, code: seq<int>, ghost v: Vocabulary) returns (a: TableAccessor)
    requires IsHead(v, index) && LongTailEntries(v, code)
    ensures |code| == 0 ==> a.Drain() == []
    ensures |code| > 0 ==> a.Drain() == Phrases(v, code)
  {
    hide Phrases, IsHead, TableVisitor.Stands, PageUnder, Opens, LongTailEntries;
    if |code| == 0 {
      return NO_ACCESSOR;
    }
    var visitor := new TableVisitor(index, v);
    ghost var crs := [1.0];
    for i := 0 to INDEX_CODE_MAX_LENGTH
      invariant i < |code| && visitor.vocabulary == v && |crs| > 0
      invariant fresh(visitor) && visitor.Stands(code[..i], crs)
    {
      if |code| == i + 1 {
        a := visitor.Access(code[i], code[..i], crs);
        PhrasesShown(v, code, a, Times(1.0, crs[|crs| - 1]));
        return;
      }
      assert code[..i] + [code[i]] == code[..i + 1];
      LengthStands(visitor, code[..i], crs);
      var ok := visitor.Walk(code[i], 1.0, code[..i], crs);
      if !ok {
        NoPhrases(v, code, i);
        return NO_ACCESSOR;
      }
      crs := crs + [Times(crs[|crs| - 1], 1.0)];
    }
    a := visitor.Access(TAIL_KEY, code[..INDEX_CODE_MAX_LENGTH], crs);
    PhrasesShown(v, code, a, Times(1.0, crs[|crs| - 1]));
  }

  lemma LengthStands(visitor: TableVisitor, code: seq<int>, crs: seq<real>)
    requires visitor.Stands(code, crs)
    ensures |code| <= INDEX_CODE_MAX_LENGTH && |crs| == |code| + 1
  {
  }

  // ----- a compiled dictionary -----

  function Published(entries: seq<DictEntry>): seq<(seq<int>, Entry)> {
    seq(|entries|, i requires 0 <= i < |entries| => (entries[i].code, Entry(entries[i].text, entries[i].weight)))
  }

  lemma {:induction false} InSlotMembers(entries: seq<DictEntry>, path: seq<int>)
    ensures forall e :: e in InSlot(entries, path) ==> e in entries && |e.code| > 0 && Slot(e.code) == path
  {
    if |entries| > 0 { InSlotMembers(entries[..|entries| - 1], path); }
  }

  lemma SameSlot(a: seq<int>, b: seq<int>)
    requires Slot(a) == Slot(b)
    ensures |a| <= INDEX_CODE_MAX_LENGTH || |b| <= INDEX_CODE_MAX_LENGTH ==> a == b
    ensures |a| > INDEX_CODE_MAX_LENGTH && |b| > INDEX_CODE_MAX_LENGTH ==> a[..INDEX_CODE_MAX_LENGTH] == b[..INDEX_CODE_MAX_LENGTH]
  {
    if |a| > INDEX_CODE_MAX_LENGTH && |b| > INDEX_CODE_MAX_LENGTH {
      assert a[..INDEX_CODE_MAX_LENGTH] == Slot(a)[..INDEX_CODE_MAX_LENGTH];
      assert b[..INDEX_CODE_MAX_LENGTH] == Slot(b)[..INDEX_CODE_MAX_LENGTH];
    }
  }

  /** Main result: looking a code up in the table of a dictionary gives exactly the entries
      of its slot, in the dictionary's order, each with the code it was given. Codes up to
      the index length have a slot of their own. */
  lemma PhrasesOfDictionary(entries: seq<DictEntry>, code: seq<int>)
    requires |code| > 0
    ensures LongTailEntries(Compile(entries), code)
    ensures Phrases(Compile(entries), code) == Published(InSlot(entries, Slot(code)))
  {
    var v := Compile(entries);
    var found := InSlot(entries, Slot(code));
    CompiledSlots(entries, Slot(code));
    InSlotMembers(entries, Slot(code));
    forall i | 0 <= i < |found|
      ensures |code| <= INDEX_CODE_MAX_LENGTH ==> found[i].code == code
      ensures |code| > INDEX_CODE_MAX_LENGTH ==> |found[i].code| > INDEX_CODE_MAX_LENGTH
      ensures Phrases(v, code)[i] == (found[i].code, Entry(found[i].text, found[i].weight))
    {
      assert found[i] in found;
      SameSlot(code, found[i].code);
      assert |code| <= INDEX_CODE_MAX_LENGTH ==> code[..IndexLength(code)] == code;
      if |code| > INDEX_CODE_MAX_LENGTH {
        assert found[i].code == found[i].code[..INDEX_CODE_MAX_LENGTH] + found[i].code[INDEX_CODE_MAX_LENGTH..];
      }
    }
  }
}
