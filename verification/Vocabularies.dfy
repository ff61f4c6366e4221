/** The vocabulary: a trie of dictionary entries over syllable codes. Codes longer than the
    index share the slot of their first syllables. */
module Vocabularies {
  import opened Commons

  datatype DictEntry = DictEntry(text: string, code: seq<int>, weight: real)

  datatype Page = Page(entries: seq<DictEntry>, nextLevel: Option<Vocabulary>)

  datatype Vocabulary = Vocabulary(pages: map<int, Page>)

  const INDEX_CODE_MAX_LENGTH: nat := 3

  /** The key of the slot that takes what the index has no room for. */
  const TAIL_KEY := -1

  const EMPTY := Vocabulary(map[])

  function PageAt(v: Vocabulary, key: int): Page {
    if key in v.pages then v.pages[key] else Page([], None)
  }

  function NextOf(page: Page): Vocabulary {
    if page.nextLevel.Some? then page.nextLevel.value else EMPTY
  }

  /** Locates the entries of a code, from `level` on, and appends `e` to them. */
  function AddEntry(v: Vocabulary, code: seq<int>, e: DictEntry, level: nat): Vocabulary
    requires level < |code| && level <= INDEX_CODE_MAX_LENGTH
    decreases INDEX_CODE_MAX_LENGTH - level
  {
    var key := if level < INDEX_CODE_MAX_LENGTH then code[level] else TAIL_KEY;
    var page := PageAt(v, key);
    if level == |code| - 1 || level == INDEX_CODE_MAX_LENGTH
    then Vocabulary(v.pages[key := page.(entries := page.entries + [e])])
    else Vocabulary(v.pages[key := page.(nextLevel := Some(AddEntry(NextOf(page), code, e, level + 1)))])
  }

  /** A dictionary as the compiler makes it, entry by entry. A code with no syllable has no
      slot. */
  function Compile(entries: seq<DictEntry>): Vocabulary {
    if |entries| == 0 then EMPTY
    else
      var e := entries[|entries| - 1];
      var v := Compile(entries[..|entries| - 1]);
      if |e.code| == 0 then v else AddEntry(v, e.code, e, 0)
  }

  // ----- slots -----

  /** The keys that lead to the slot of a code. */
  function Slot(code: seq<int>): seq<int> {
    if |code| <= INDEX_CODE_MAX_LENGTH then code else code[..INDEX_CODE_MAX_LENGTH] + [TAIL_KEY]
  }

  /** The entries found by following `path`. */
  function EntriesAt(v: Vocabulary, path: seq<int>): seq<DictEntry>
    decreases |path|
  {
    if |path| == 0 || path[0] !in v.pages then []
    else if |path| == 1 then v.pages[path[0]].entries
    else if v.pages[path[0]].nextLevel.None? then []
    else EntriesAt(v.pages[path[0]].nextLevel.value, path[1..])
  }

  /** Adding an entry appends it to its own slot and touches no other. */
  lemma {:induction false} AddEntryAt(v: Vocabulary, code: seq<int>, e: DictEntry, level: nat, path: seq<int>)
    requires level < |code| && level <= INDEX_CODE_MAX_LENGTH && |path| > 0
    ensures EntriesAt(AddEntry(v, code, e, level), path)
            == if path == Slot(code)[level..] then EntriesAt(v, path) + [e] else EntriesAt(v, path)
    decreases INDEX_CODE_MAX_LENGTH - level
  {
    var slot := Slot(code);
    var key := if level < INDEX_CODE_MAX_LENGTH then code[level] else TAIL_KEY;
    assert slot[level] == key && slot[level..][0] == key;
    if level == |code| - 1 || level == INDEX_CODE_MAX_LENGTH {
      assert slot[level..] == [key];
      if path[0] == key && |path| == 1 { assert path == [key]; }
    } else {
      assert slot[level..][1..] == slot[level + 1..];
      assert |slot[level..]| > 1;
      var next := NextOf(PageAt(v, key));
      if path[0] == key {
        assert path == [key] + path[1..] && slot[level..] == [key] + slot[level + 1..];
        if |path| > 1 {
          AddEntryAt(next, code, e, level + 1, path[1..]);
          NothingAt(path[1..]);
        }
      }
    }
  }

  lemma NothingAt(path: seq<int>)
    ensures EntriesAt(EMPTY, path) == []
  {
  }

  /** The entries of a list that belong to a slot, in order. */
  function InSlot(entries: seq<DictEntry>, path: seq<int>): seq<DictEntry> {
    if |entries| == 0 then []
    else
      var e := entries[|entries| - 1];
      InSlot(entries[..|entries| - 1], path) + (if |e.code| > 0 && Slot(e.code) == path then [e] else [])
  }

  /** Main result: a slot of the compiled vocabulary holds exactly the entries of the
      dictionary that belong there, in the order they were given. */
  lemma {:induction false} CompiledSlots(entries: seq<DictEntry>, path: seq<int>)
    requires |path| > 0
    ensures EntriesAt(Compile(entries), path) == InSlot(entries, path)
  {
    if |entries| == 0 {
      NothingAt(path);
    } else {
      var e := entries[|entries| - 1];
      CompiledSlots(entries[..|entries| - 1], path);
      if |e.code| > 0 {
        AddEntryAt(Compile(entries[..|entries| - 1]), e.code, e, 0, path);
        assert Slot(e.code)[0..] == Slot(e.code);
      }
    }
  }

  /** The vocabulary has, in the slots where they belong, the entries of a dictionary. */
  ghost predicate Holds(v: Vocabulary, entries: seq<DictEntry>) {
    forall path :: |path| > 0 ==> multiset(EntriesAt(v, path)) == multiset(InSlot(entries, path))
  }

  lemma CompiledHolds(entries: seq<DictEntry>)
    ensures Holds(Compile(entries), entries)
  {
    forall path | |path| > 0
      ensures EntriesAt(Compile(entries), path) == InSlot(entries, path)
    {
      CompiledSlots(entries, path);
    }
  }

  // ----- the order of homophones -----

  /** Puts an entry behind all that weigh no less. */
  function InsertByWeight(list: seq<DictEntry>, e: DictEntry): seq<DictEntry> {
    if |list| == 0 then [e]
    else if e.weight > list[|list| - 1].weight then InsertByWeight(list[..|list| - 1], e) + [list[|list| - 1]]
    else list + [e]
  }

  function SortedByWeight(list: seq<DictEntry>): seq<DictEntry> {
    if |list| == 0 then [] else InsertByWeight(SortedByWeight(list[..|list| - 1]), list[|list| - 1])
  }

  /** Sorts the entries of every page, heavier ones first. */
  function SortHomophones(v: Vocabulary): Vocabulary {
    Vocabulary(map k | k in v.pages :: SortedPage(v.pages[k]))
  }

  function SortedPage(page: Page): Page {
    Page(SortedByWeight(page.entries),
         match page.nextLevel case None => None case Some(v) => Some(SortHomophones(v)))
  }

  ghost predicate HeavierFirst(list: seq<DictEntry>) {
    forall i, j :: 0 <= i < j < |list| ==> list[i].weight >= list[j].weight
  }

  lemma {:induction false} InsertedContents(list: seq<DictEntry>, e: DictEntry)
    ensures multiset(InsertByWeight(list, e)) == multiset(list) + multiset{e}
    ensures forall x :: x in InsertByWeight(list, e) <==> x in list || x == e
  {
    if |list| > 0 {
      var init, last := list[..|list| - 1], list[|list| - 1];
      assert list == init + [last];
      InsertedContents(init, e);
    }
  }

  lemma HeavierThenLast(list: seq<DictEntry>, e: DictEntry)
    requires HeavierFirst(list) && forall x :: x in list ==> x.weight >= e.weight
    ensures HeavierFirst(list + [e])
  {
  }

  lemma {:induction false} InsertedByWeight(list: seq<DictEntry>, e: DictEntry)
    requires HeavierFirst(list)
    ensures HeavierFirst(InsertByWeight(list, e))
  {
    if |list| > 0 {
      var init, last := list[..|list| - 1], list[|list| - 1];
      if e.weight > last.weight {
        InsertedByWeight(init, e);
        InsertedContents(init, e);
        HeavierThenLast(InsertByWeight(init, e), last);
      } else {
        HeavierThenLast(list, e);
      }
    }
  }

  lemma {:induction false} SortedByWeightIs(list: seq<DictEntry>)
    ensures HeavierFirst(SortedByWeight(list)) && multiset(SortedByWeight(list)) == multiset(list)
  {
    if |list| > 0 {
      var init, last := list[..|list| - 1], list[|list| - 1];
      assert list == init + [last];
      SortedByWeightIs(init);
      InsertedByWeight(SortedByWeight(init), last);
      InsertedContents(SortedByWeight(init), last);
    }
  }

  lemma PagesSorted(v: Vocabulary, k: int)
    requires k in v.pages
    ensures k in SortHomophones(v).pages
    ensures SortHomophones(v).pages[k].entries == SortedByWeight(v.pages[k].entries)
    ensures SortHomophones(v).pages[k].nextLevel
            == match v.pages[k].nextLevel case None => None case Some(w) => Some(SortHomophones(w))
  {
  }

  /** Sorting touches no slot but by sorting it. */
  lemma {:induction false} SortedSlots(v: Vocabulary, path: seq<int>)
    ensures EntriesAt(SortHomophones(v), path) == SortedByWeight(EntriesAt(v, path))
    decreases |path|
  {
    if |path| > 0 && path[0] in v.pages {
      PagesSorted(v, path[0]);
      if |path| > 1 && v.pages[path[0]].nextLevel.Some? { SortedSlots(v.pages[path[0]].nextLevel.value, path[1..]); }
    }
  }

  /** Main result: a sorted vocabulary still holds the dictionary, heavier homophones first. */
  lemma SortedHolds(v: Vocabulary, entries: seq<DictEntry>)
    requires Holds(v, entries)
    ensures Holds(SortHomophones(v), entries)
    ensures forall path :: HeavierFirst(EntriesAt(SortHomophones(v), path))
  {
    forall path
      ensures HeavierFirst(EntriesAt(SortHomophones(v), path))
      ensures multiset(EntriesAt(SortHomophones(v), path)) == multiset(EntriesAt(v, path))
    {
      SortedSlots(v, path);
      SortedByWeightIs(EntriesAt(v, path));
    }
  }

  // ----- shape -----

  /** `v` stands `level` keys below the root, where only the tail slot is left at the end. */
  ghost predicate Shaped(v: Vocabulary, level: nat)
    decreases INDEX_CODE_MAX_LENGTH - level
  {
    && (level == INDEX_CODE_MAX_LENGTH ==> TAIL_KEY in v.pages)
    && (level < INDEX_CODE_MAX_LENGTH ==>
          forall k :: k in v.pages && v.pages[k].nextLevel.Some? ==> Shaped(v.pages[k].nextLevel.value, level + 1))
  }

  /** The entries of the tail slots have codes longer than the index. */
  ghost predicate LongTails(v: Vocabulary, level: nat)
    decreases INDEX_CODE_MAX_LENGTH - level
  {
    && (level == INDEX_CODE_MAX_LENGTH ==>
          forall e :: e in PageAt(v, TAIL_KEY).entries ==> |e.code| > INDEX_CODE_MAX_LENGTH)
    && (level < INDEX_CODE_MAX_LENGTH ==>
          forall k :: k in v.pages && v.pages[k].nextLevel.Some? ==> LongTails(v.pages[k].nextLevel.value, level + 1))
  }

  ghost predicate RootIds(v: Vocabulary, numSyllables: nat) {
    forall k :: k in v.pages ==> 0 <= k < numSyllables
  }

  lemma {:induction false} AddEntryShaped(v: Vocabulary, e: DictEntry, level: nat)
    requires level < |e.code| && level <= INDEX_CODE_MAX_LENGTH
    requires (Shaped(v, level) && LongTails(v, level)) || (v == EMPTY && level > 0)
    ensures Shaped(AddEntry(v, e.code, e, level), level) && LongTails(AddEntry(v, e.code, e, level), level)
    decreases INDEX_CODE_MAX_LENGTH - level
  {
    if !(level == |e.code| - 1 || level == INDEX_CODE_MAX_LENGTH) {
      AddEntryShaped(NextOf(PageAt(v, e.code[level])), e, level + 1);
    }
  }

  ghost predicate IdsBelow(entries: seq<DictEntry>, numSyllables: nat) {
    forall e, i :: e in entries && 0 <= i < |e.code| ==> 0 <= e.code[i] < numSyllables
  }

  /** A compiled vocabulary can be laid out as a table. */
  lemma {:induction false} CompiledShape(entries: seq<DictEntry>, numSyllables: nat)
    requires IdsBelow(entries, numSyllables)
    ensures Shaped(Compile(entries), 0) && LongTails(Compile(entries), 0) && RootIds(Compile(entries), numSyllables)
  {
    if |entries| > 0 {
      var e := entries[|entries| - 1];
      CompiledShape(entries[..|entries| - 1], numSyllables);
      if |e.code| > 0 { AddEntryShaped(Compile(entries[..|entries| - 1]), e, 0); }
    }
  }

  lemma {:induction false} SortedShaped(v: Vocabulary, level: nat)
    requires level <= INDEX_CODE_MAX_LENGTH && Shaped(v, level) && LongTails(v, level)
    ensures Shaped(SortHomophones(v), level) && LongTails(SortHomophones(v), level)
    decreases INDEX_CODE_MAX_LENGTH - level
  {
    var w := SortHomophones(v);
    if level == INDEX_CODE_MAX_LENGTH {
      PagesSorted(v, TAIL_KEY);
      SortedByWeightIs(v.pages[TAIL_KEY].entries);
      forall e | e in w.pages[TAIL_KEY].entries
        ensures |e.code| > INDEX_CODE_MAX_LENGTH
      {
        assert e in multiset(w.pages[TAIL_KEY].entries);
        assert e in v.pages[TAIL_KEY].entries;
      }
    } else {
      forall k | k in w.pages && w.pages[k].nextLevel.Some?
        ensures Shaped(w.pages[k].nextLevel.value, level + 1) && LongTails(w.pages[k].nextLevel.value, level + 1)
      {
        PagesSorted(v, k);
        SortedShaped(v.pages[k].nextLevel.value, level + 1);
      }
    }
  }
}
