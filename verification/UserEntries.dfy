/** What a user dictionary lookup finds, told by the graph's edges and the stored records: from
    which record an entry comes, and what it weighs. */
module UserEntries {
  import opened Commons
  import opened Spellings
  import opened GraphEdges
  import opened UserScans
  import opened UserTrails
  import opened UserFinds

  // ----- records -----

  /** The key under which a text is stored: its syllables, each followed by a space, and behind a
      tab the text. */
  ghost function KeyOf(src: Source, code: seq<int>, text: string): string
    requires src.Translatable(code)
  {
    if |code| == 0 then "\t" + text else src.syllabary[code[0]] + " " + KeyOf(src, code[1..], text)
  }

  lemma {:induction false} KeyIs(src: Source, code: seq<int>, rest: seq<int>, text: string)
    requires src.Translatable(code) && src.Translatable(rest)
    ensures src.Translatable(code + rest)
    ensures src.CodeString(code + rest) + "\t" + text == src.CodeString(code) + KeyOf(src, rest, text)
    decreases |rest|
  {
    if |rest| == 0 {
      assert code + rest == code;
      Associate(src.CodeString(code), "\t", text);
    } else {
      var next := code + [rest[0]];
      assert next + rest[1..] == code + rest && next[..|code|] == code;
      KeyIs(src, next, rest[1..], text);
      hide Source.CodeString, KeyOf;
      NextKey(src, code, rest, text);
    }
  }

  lemma NextKey(src: Source, code: seq<int>, rest: seq<int>, text: string)
    requires src.Translatable(code) && src.Translatable(rest) && |rest| > 0
    ensures src.Translatable(code + [rest[0]])
    ensures src.CodeString(code + [rest[0]]) + KeyOf(src, rest[1..], text) == src.CodeString(code) + KeyOf(src, rest, text)
  {
    var s, key := src.syllabary[rest[0]], KeyOf(src, rest[1..], text);
    assert (code + [rest[0]])[..|code|] == code;
    Associate(src.CodeString(code), s, " ");
    Associate(src.CodeString(code), s + " ", key);
  }

  lemma KeyIsWhole(src: Source, code: seq<int>, text: string)
    requires src.Translatable(code)
    ensures KeyOf(src, code, text) == src.CodeString(code) + "\t" + text
  {
    KeyIs(src, [], code, text);
    assert [] + code == code && "" + KeyOf(src, code, text) == KeyOf(src, code, text);
  }

  /** Record `i` holds `text` under the code, and is not deleted. */
  ghost predicate IsLive(src: Source, i: nat, code: seq<int>, text: string)
    requires src.Translatable(code)
  {
    && i < |src.db| && src.db[i].key == KeyOf(src, code, text)
    && src.db[i].value.Packed? && src.db[i].value.unpacked.commits >= 0
  }

  /** The entry is that of record `i`: its use count, and its strength times the credibility. */
  ghost predicate IsEntryOf(src: Source, i: nat, credibility: real, x: DictEntry) {
    && src.Translatable(x.code) && IsLive(src, i, x.code, x.text)
    && x.commitCount == src.db[i].value.unpacked.commits
    && x.weight == src.strength(src.db[i].value.unpacked, src.presentTick) * credibility
  }

  lemma {:induction false} TabEnds(key: string, k: nat)
    requires k < |key| && key[k] == '\t'
    ensures SeparatorPos(key) <= k
  {
    if k > 0 && key[0] != '\t' { TabEnds(key[1..], k - 1); }
  }

  /** The code part of a key ends at its tab. */
  lemma KeyParts(src: Source, code: seq<int>, key: string)
    requires src.SortedSyllabary() && src.Translatable(code) && src.CodeString(code) + "\t" <= key
    ensures SeparatorPos(key) == |src.CodeString(code)|
    ensures key == src.CodeString(code) + "\t" + key[|src.CodeString(code)| + 1..]
  {
    CodeStringChars(src, code);
    var c := src.CodeString(code);
    var n := SeparatorPos(key);
    assert key[|c|] == (c + "\t")[|c|] == '\t';
    assert forall i :: 0 <= i < |c| ==> key[i] == c[i];
    TabEnds(key, |c|);
  }

  /** A record gives exactly its entry. */
  lemma GivesExactly(src: Source, path: PathEnd, i: nat, x: DictEntry)
    requires src.SortedSyllabary() && src.Translatable(path.code) && i < |src.db|
    ensures Gives(src, path, i, x) <==> x.code == path.code && IsEntryOf(src, i, path.credibility, x)
  {
    var key, c := src.db[i].key, src.CodeString(path.code);
    KeyIsWhole(src, path.code, x.text);
    if c + "\t" <= key {
      KeyParts(src, path.code, key);
      hide Source.CodeString, KeyOf, SeparatorPos;
      assert key == c + "\t" + x.text <==> key[|c| + 1..] == x.text;
      if src.db[i].value.Packed? && src.db[i].value.unpacked.commits >= 0 {
        var v := src.db[i].value.unpacked;
        var e := src.CreateDictEntry(src.db[i], path.code, path.credibility);
        assert |c| < |key| && e.Some? && e.value.text == key[|c| + 1..];
        assert e.value.code == path.code && e.value.commitCount == v.commits;
        assert e.value.weight == src.strength(v, src.presentTick) * path.credibility;
        hide Source.CreateDictEntry;
        if x.code == path.code && IsEntryOf(src, i, path.credibility, x) { assert x == e.value; }
      }
    } else {
      assert c + "\t" <= c + "\t" + x.text;
    }
  }

  // ----- paths -----

  ghost function Ids(t: Trail): seq<int> {
    if |t| == 0 then [] else [t[0].id] + Ids(t[1..])
  }

  ghost function Edge(src: Source, pos: nat, c: Choice): Properties {
    if pos in src.indices && c.id in src.indices[pos] && c.nth < |src.indices[pos][c.id]| then src.indices[pos][c.id][c.nth]
    else DEFAULT_PROPERTIES
  }

  /** Where the edges of a path lead. */
  ghost function EndAt(src: Source, pos: nat, t: Trail): nat
    decreases |t|
  {
    if |t| == 0 then pos else EndAt(src, Edge(src, pos, t[0]).endPos, t[1..])
  }

  /** The product of the credibilities of its edges. */
  ghost function Product(src: Source, pos: nat, t: Trail): real
    decreases |t|
  {
    if |t| == 0 then 1.0 else Times(Edge(src, pos, t[0]).credibility, Product(src, Edge(src, pos, t[0]).endPos, t[1..]))
  }

  lemma {:induction false} EndTells(src: Source, pos: nat, code: seq<int>, credibility: real, t: Trail)
    requires IsTrail(src, pos, |code|, t)
    ensures var end := EndOf(src, pos, code, credibility, t);
            end.code == code + Ids(t) && end.pos == EndAt(src, pos, t) && end.credibility == Times(credibility, Product(src, pos, t))
    decreases |t|
  {
    var c, p := t[0], Edge(src, pos, t[0]);
    assert p == StepTo(src, pos, c);
    if |t| == 1 {
      assert t[1..] == [];
      assert code + [c.id] == code + ([c.id] + []);
    } else {
      var before := Times(credibility, p.credibility);
      EndTells(src, p.endPos, code + [c.id], before, t[1..]);
      TimesAssociate(credibility, p.credibility, Product(src, p.endPos, t[1..]));
      assert code + [c.id] + Ids(t[1..]) == code + ([c.id] + Ids(t[1..]));
    }
  }

  /** A path that leads to `end` spells the code of record `i`, and gives its entry. */
  ghost predicate IsFound(src: Source, start: nat, credibility: real, end: nat, x: DictEntry, t: Trail, i: nat) {
    && IsTrail(src, start, 0, t) && EndAt(src, start, t) == end && x.code == Ids(t)
    && IsEntryOf(src, i, Times(credibility, Product(src, start, t)), x)
  }

  lemma FoundIs(src: Source, start: nat, credibility: real, end: nat, x: DictEntry, t: Trail, i: nat)
    requires src.SortedSyllabary()
    ensures Finds(src, start, credibility, end, x, t, i) <==> IsFound(src, start, credibility, end, x, t, i)
  {
    hide Gives, Source.SortedSyllabary, EndOf, EndAt, Product, Ids, IsEntryOf;
    if IsTrail(src, start, 0, t) {
      EndTells(src, start, [], credibility, t);
      var path := EndOf(src, start, [], credibility, t);
      assert [] + Ids(t) == Ids(t);
      if i < |src.db| && src.Translatable(path.code) { GivesExactly(src, path, i, x); }
      EntryIsRecord(src, i, Times(credibility, Product(src, start, t)), x);
    }
  }

  lemma EntryIsRecord(src: Source, i: nat, credibility: real, x: DictEntry)
    ensures IsEntryOf(src, i, credibility, x) ==> i < |src.db| && src.Translatable(x.code)
  {
  }

  /** Every entry is at a position as often as there are a path to it and a record that give it. */
  ghost predicate FoundExactly(src: Source, start: nat, credibility: real, groups: Collector) {
    forall end: nat, x :: CountedAt(src, start, credibility, groups, end, x)
  }

  ghost predicate CountedAt(src: Source, start: nat, credibility: real, groups: Collector, end: nat, x: DictEntry) {
    exists finds: set<(Trail, nat)> :: AreFinds(src, start, credibility, end, x, finds) && multiset(Group(groups, end))[x] == |finds|
  }

  ghost predicate AreFinds(src: Source, start: nat, credibility: real, end: nat, x: DictEntry, finds: set<(Trail, nat)>) {
    forall t, i: nat :: (t, i) in finds <==> IsFound(src, start, credibility, end, x, t, i)
  }

  /** Main result: a lookup finds exactly what paths and records give, with the weight they give it. */
  lemma LookupFinds(src: Source, start: nat, credibility: real, result: Option<Collector>)
    requires src.ForwardGraph() && src.SortedSyllabary() && start <= src.length && IsLookup(src, start, credibility, result)
    ensures FoundExactly(src, start, credibility, if result.Some? then result.value else map[])
  {
    var groups := if result.Some? then result.value else map[];
    forall end: nat, x
      ensures CountedAt(src, start, credibility, groups, end, x)
    {
      var finds := FindsAmong(src, start, credibility, end, x, Trails(src, start, 0));
      hide FindsAmong, Finds, IsFound, Trails, Source.SortedSyllabary, Source.ForwardGraph;
      forall t, i: nat
        ensures (t, i) in finds <==> IsFound(src, start, credibility, end, x, t, i)
      {
        FindsAre(src, start, credibility, end, x, t, i);
        FoundIs(src, start, credibility, end, x, t, i);
      }
      assert AreFinds(src, start, credibility, end, x, finds);
    }
  }

  lemma NoStep(src: Source, pos: nat, t: Trail)
    requires src.ForwardGraph()
    ensures IsTrail(src, pos, 0, t) ==> pos < src.length
  {
    if IsTrail(src, pos, 0, t) {
      var p := StepTo(src, pos, t[0]);
      assert p == src.indices[pos][t[0].id][t[0].nth] && pos < p.endPos <= src.length;
    }
  }

  /** Nothing is found from behind the graph: no edge leads beyond its end. */
  lemma NothingBeyond(src: Source, start: nat, credibility: real)
    requires src.ForwardGraph() && start >= src.length
    ensures FoundExactly(src, start, credibility, map[])
  {
    forall end: nat, x
      ensures CountedAt(src, start, credibility, map[], end, x)
    {
      forall t: Trail, i: nat
        ensures !IsFound(src, start, credibility, end, x, t, i)
      {
        NoStep(src, start, t);
      }
      hide IsFound;
      var none: set<(Trail, nat)> := {};
      assert AreFinds(src, start, credibility, end, x, none) && |none| == 0;
    }
  }
}
