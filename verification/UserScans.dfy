/** The user dictionary as a plain search: every path of the graph, every key of the store.
    What a scan with a moving cursor has to agree with. */
module UserScans {
  import opened Commons
  import opened Spellings
  import opened Lexicographic

  datatype UserDbValue = UserDbValue(commits: int, dee: real, tick: nat)

  /** A stored value, as far as it can be unpacked. */
  datatype Value = Malformed | Packed(unpacked: UserDbValue)

  datatype Record = Record(key: string, value: Value)

  datatype DictEntry = DictEntry(text: string, code: seq<int>, commitCount: int, weight: real)

  type Collector = map<nat, seq<DictEntry>>

  /** The end of a path through the graph: its syllables, its position, its credibility. */
  datatype PathEnd = PathEnd(code: seq<int>, pos: nat, credibility: real)

  /** The position of the tab that ends the code part of a key. */
  function SeparatorPos(key: string): (n: nat)
    ensures n <= |key| && '\t' !in key[..n]
    ensures n < |key| ==> key[n] == '\t'
  {
    if |key| == 0 || key[0] == '\t' then 0
    else
      var n := SeparatorPos(key[1..]);
      assert key[..n + 1] == [key[0]] + key[1..][..n];
      n + 1
  }

  /** Everything a lookup reads. `strength` stands for the decay and probability formulas. */
  datatype Source = Source(
    indices: map<nat, SpellingIndex>, length: nat, syllabary: seq<string>, db: seq<Record>,
    depthLimit: nat, presentTick: nat, strength: (UserDbValue, nat) -> real)
  {
    // ----- what the caller provides -----

    /** A tab ends the code part, which has no control characters. */
    ghost predicate WellFormedKey(key: string) {
      var n := SeparatorPos(key);
      n < |key| && forall i :: 0 <= i < n ==> key[i] > '\t'
    }

    /** Keys before the space are metadata, and may be anything. */
    ghost predicate SortedStore() {
      && (forall i, j :: 0 <= i < j < |db| ==> Less(db[i].key, db[j].key))
      && (forall i :: 0 <= i < |db| && AtMost(" ", db[i].key) ==> WellFormedKey(db[i].key))
    }

    ghost predicate SortedSyllabary() {
      && (forall i :: 0 <= i < |syllabary| ==> IsSyllable(syllabary[i]))
      && (forall i, j :: 0 <= i < j < |syllabary| ==> Less(syllabary[i], syllabary[j]))
    }

    ghost predicate ForwardGraph() {
      forall p, s, k :: p in indices && s in indices[p] && 0 <= k < |indices[p][s]| ==>
        p < indices[p][s][k].endPos <= length
    }

    ghost predicate Valid() {
      SortedStore() && SortedSyllabary() && ForwardGraph()
    }

    // ----- codes as key prefixes -----

    predicate Known(id: int) { 0 <= id < |syllabary| }

    predicate Translatable(code: seq<int>) {
      forall i :: 0 <= i < |code| ==> Known(code[i])
    }

    function CodeString(code: seq<int>): string
      requires Translatable(code)
    {
      if |code| == 0 then ""
      else CodeString(code[..|code| - 1]) + syllabary[code[|code| - 1]] + " "
    }

    // ----- paths -----

    predicate Usable(list: seq<Properties>, i: nat)
      requires i < |list|
    {
      i == 0 || list[i].kind < ABBREVIATION
    }

    predicate MayDeepen(code: seq<int>) {
      depthLimit == 0 || |code| < depthLimit
    }

    /** All paths from `pos` that continue `code`, in the order they are tried. */
    function Paths(pos: nat, code: seq<int>, credibility: real): seq<PathEnd>
      requires ForwardGraph() && pos <= length
      decreases length - pos, 3, 0
    {
      if pos in indices then PathsOver(pos, code, credibility, indices[pos].Keys) else []
    }

    function PathsOver(pos: nat, code: seq<int>, credibility: real, ids: set<int>): seq<PathEnd>
      requires ForwardGraph() && pos <= length && pos in indices && ids <= indices[pos].Keys
      decreases length - pos, 2, |ids|
    {
      if |ids| == 0 then []
      else
        var id := Least(ids);
        (if Known(id) then PathsBy(pos, code + [id], credibility, indices[pos][id], 0) else [])
        + PathsOver(pos, code, credibility, ids - {id})
    }

    /** The paths whose next edge is one of `list[i..]`. */
    function PathsBy(pos: nat, code: seq<int>, credibility: real, list: seq<Properties>, i: nat): seq<PathEnd>
      requires ForwardGraph() && pos <= length
      requires forall k :: 0 <= k < |list| ==> pos < list[k].endPos <= length
      requires i <= |list|
      decreases length - pos, 1, |list| - i
    {
      if i == |list| then []
      else
        (if Usable(list, i) then PathsAlong(code, Times(credibility, list[i].credibility), list[i].endPos) else [])
        + PathsBy(pos, code, credibility, list, i + 1)
    }

    function PathsAlong(code: seq<int>, credibility: real, end: nat): seq<PathEnd>
      requires ForwardGraph() && end <= length
      decreases length - end, 4, 0
    {
      [PathEnd(code, end, credibility)] + (if MayDeepen(code) then Paths(end, code, credibility) else [])
    }

    // ----- entries -----

    /** The entry a record gives, unless it is malformed or deleted. */
    function CreateDictEntry(r: Record, code: seq<int>, credibility: real): Option<DictEntry> {
      var n := SeparatorPos(r.key);
      if n == |r.key| || r.value.Malformed? || r.value.unpacked.commits < 0 then None
      else
        var v := r.value.unpacked;
        Some(DictEntry(r.key[n + 1..], code, v.commits, strength(v, presentTick) * credibility))
    }

    /** What record `i` adds at the end of a path: its entry, if it is live and its key is
        the path's code. */
    function EntryAt(path: PathEnd, i: nat): seq<DictEntry>
      requires Translatable(path.code) && i < |db|
    {
      var e := CreateDictEntry(db[i], path.code, path.credibility);
      if CodeString(path.code) + "\t" <= db[i].key && e.Some? then [e.value] else []
    }

    function MatchesUpTo(path: PathEnd, n: nat): seq<DictEntry>
      requires Translatable(path.code) && n <= |db|
    {
      if n == 0 then [] else MatchesUpTo(path, n - 1) + EntryAt(path, n - 1)
    }

    function Matches(path: PathEnd): seq<DictEntry>
      requires Translatable(path.code)
    {
      MatchesUpTo(path, |db|)
    }

    ghost predicate AllTranslatable(paths: seq<PathEnd>) {
      forall i :: 0 <= i < |paths| ==> Translatable(paths[i].code)
    }

    /** Tries every path against every record. */
    function Gather(collector: Collector, paths: seq<PathEnd>): Collector
      requires AllTranslatable(paths)
      decreases |paths|
    {
      if |paths| == 0 then collector
      else Gather(AddEntries(collector, paths[0].pos, Matches(paths[0])), paths[1..])
    }
  }

  /** Appends to the group at `pos`; a group only exists once it has an entry. */
  function AddEntries(collector: Collector, pos: nat, entries: seq<DictEntry>): Collector {
    if |entries| == 0 then collector
    else collector[pos := (if pos in collector then collector[pos] else []) + entries]
  }

  // ----- facts about codes and paths -----

  lemma {:induction false} CodeStringPrefix(src: Source, a: seq<int>, b: seq<int>)
    requires a <= b && src.Translatable(b)
    ensures src.Translatable(a) && src.CodeString(a) <= src.CodeString(b)
    decreases |b|
  {
    assert forall i :: 0 <= i < |a| ==> a[i] == b[i];
    if |a| == |b| {
      assert a == b;
    } else {
      CodeStringPrefix(src, a, b[..|b| - 1]);
    }
  }

  lemma CodeStringStep(src: Source, code: seq<int>, id: int)
    requires src.Translatable(code) && src.Known(id)
    ensures src.Translatable(code + [id])
    ensures src.CodeString(code + [id]) == src.CodeString(code) + (src.syllabary[id] + " ")
  {
    assert (code + [id])[..|code|] == code;
  }

  /** No character of a code string is a tab. */
  lemma {:induction false} CodeStringChars(src: Source, code: seq<int>)
    requires src.SortedSyllabary() && src.Translatable(code)
    ensures forall i :: 0 <= i < |src.CodeString(code)| ==> src.CodeString(code)[i] >= ' '
  {
    if |code| > 0 { CodeStringChars(src, code[..|code| - 1]); }
  }

  /** Every path of the list continues `code` by at least one syllable. */
  ghost predicate Continue(src: Source, code: seq<int>, paths: seq<PathEnd>) {
    forall i :: 0 <= i < |paths| ==> src.Translatable(paths[i].code) && code < paths[i].code
  }

  lemma {:induction false} PathsContinue(src: Source, pos: nat, code: seq<int>, credibility: real)
    requires src.ForwardGraph() && pos <= src.length && src.Translatable(code)
    ensures Continue(src, code, src.Paths(pos, code, credibility))
    decreases src.length - pos, 3, 0
  {
    if pos in src.indices { PathsOverContinue(src, pos, code, credibility, src.indices[pos].Keys); }
  }

  lemma {:induction false} PathsOverContinue(src: Source, pos: nat, code: seq<int>, credibility: real, ids: set<int>)
    requires src.ForwardGraph() && pos <= src.length && src.Translatable(code)
    requires pos in src.indices && ids <= src.indices[pos].Keys
    ensures Continue(src, code, src.PathsOver(pos, code, credibility, ids))
    decreases src.length - pos, 2, |ids|
  {
    if |ids| > 0 {
      var id := Least(ids);
      PathsOverContinue(src, pos, code, credibility, ids - {id});
      if src.Known(id) {
        PathsByContinue(src, pos, code, id, credibility, src.indices[pos][id], 0);
      }
    }
  }

  lemma {:induction false} PathsByContinue(src: Source, pos: nat, code: seq<int>, id: int, credibility: real, list: seq<Properties>, i: nat)
    requires src.ForwardGraph() && pos <= src.length && src.Translatable(code) && src.Known(id)
    requires forall k :: 0 <= k < |list| ==> pos < list[k].endPos <= src.length
    requires i <= |list|
    ensures Under(src, code + [id], src.PathsBy(pos, code + [id], credibility, list, i))
    decreases src.length - pos, 1, |list| - i
  {
    if i < |list| {
      PathsByContinue(src, pos, code, id, credibility, list, i + 1);
      if src.Usable(list, i) {
        PathsAlongContinue(src, code + [id], Times(credibility, list[i].credibility), list[i].endPos);
      }
    }
  }

  /** Every path of the list is `code` or continues it. */
  ghost predicate Under(src: Source, code: seq<int>, paths: seq<PathEnd>) {
    forall i :: 0 <= i < |paths| ==> src.Translatable(paths[i].code) && code <= paths[i].code
  }

  lemma {:induction false} PathsAlongContinue(src: Source, code: seq<int>, credibility: real, end: nat)
    requires src.ForwardGraph() && end <= src.length && src.Translatable(code)
    ensures Under(src, code, src.PathsAlong(code, credibility, end))
    decreases src.length - end, 4, 0
  {
    if src.MayDeepen(code) { PathsContinue(src, end, code, credibility); }
  }

  // ----- facts about gathering -----

  lemma {:induction false} GatherConcat(src: Source, collector: Collector, a: seq<PathEnd>, b: seq<PathEnd>)
    requires src.AllTranslatable(a) && src.AllTranslatable(b)
    ensures src.AllTranslatable(a + b)
    ensures src.Gather(collector, a + b) == src.Gather(src.Gather(collector, a), b)
    decreases |a|
  {
    if |a| == 0 {
      assert a + b == b;
    } else {
      assert (a + b)[1..] == a[1..] + b;
      GatherConcat(src, AddEntries(collector, a[0].pos, src.Matches(a[0])), a[1..], b);
    }
  }

  /** The path's entry belongs to record `i`. */
  ghost predicate Exact(src: Source, code: seq<int>, i: nat)
    requires src.Translatable(code) && i < |src.db|
  {
    src.CodeString(code) + "\t" <= src.db[i].key
  }

  lemma {:induction false} MatchesUpToSkip(src: Source, path: PathEnd, m: nat, n: nat)
    requires src.Translatable(path.code) && m <= n <= |src.db|
    requires forall i :: m <= i < n ==> !Exact(src, path.code, i)
    ensures src.MatchesUpTo(path, n) == src.MatchesUpTo(path, m)
  {
    if m < n {
      MatchesUpToSkip(src, path, m, n - 1);
      assert !Exact(src, path.code, n - 1);
    }
  }

  ghost predicate NothingFor(src: Source, paths: seq<PathEnd>) {
    forall k :: 0 <= k < |paths| ==>
      src.Translatable(paths[k].code) && forall i :: 0 <= i < |src.db| ==> !Exact(src, paths[k].code, i)
  }

  lemma {:induction false} GatherNothing(src: Source, collector: Collector, paths: seq<PathEnd>)
    requires NothingFor(src, paths)
    ensures src.AllTranslatable(paths)
    ensures src.Gather(collector, paths) == collector
    decreases |paths|
  {
    if |paths| > 0 {
      MatchesUpToSkip(src, paths[0], 0, |src.db|);
      GatherNothing(src, collector, paths[1..]);
    }
  }

  // ----- why the scan may skip and stop -----

  /** The keys that start with a code string and belong to it stand first among those that
      start with it. */
  lemma ExactFirst(src: Source, code: seq<int>, i: nat, j: nat)
    requires src.Valid() && src.Translatable(code) && |code| > 0 && i < j < |src.db|
    requires AtMost(src.CodeString(code), src.db[i].key) && Exact(src, code, j)
    ensures Exact(src, code, i)
  {
    var p, a, b := src.CodeString(code), src.db[i].key, src.db[j].key;
    CodeStringChars(src, code);
    CodeIsNoMetadata(src, code);
    Transitive(" ", p, a);
    assert src.WellFormedKey(a) && Less(a, b);
    Total(a, b);
    hide AtMost, Source.WellFormedKey, Source.SortedStore, Source.CodeString;
    ExactChar(src, code, j);
    assert p <= p + "\t";
    Between(p, p, a, b);
    KeyGoesOn(src, p, a);
    NextChar(p, a, b);
    assert a[..|p| + 1] == p + "\t";
  }

  lemma CodeIsNoMetadata(src: Source, code: seq<int>)
    requires src.SortedSyllabary() && src.Translatable(code) && |code| > 0
    ensures AtMost(" ", src.CodeString(code))
  {
    CodeStringChars(src, code);
    assert |src.CodeString(code)| > 0;
  }

  lemma KeyGoesOn(src: Source, p: string, a: string)
    requires src.WellFormedKey(a) && p <= a && forall i :: 0 <= i < |p| ==> p[i] >= ' '
    ensures |p| < |a| && a[|p|] >= '\t'
  {
    var n := SeparatorPos(a);
    assert forall i :: 0 <= i < |p| ==> a[i] == p[i];
  }

  lemma {:induction false} NextChar(p: string, a: string, b: string)
    requires p <= a && p <= b && |p| < |a| && |p| < |b| && AtMost(a, b)
    ensures a[|p|] <= b[|p|]
  {
    if |p| > 0 {
      NextChar(p[1..], a[1..], b[1..]);
    }
  }

  lemma ExactChar(src: Source, code: seq<int>, i: nat)
    requires src.Translatable(code) && i < |src.db|
    ensures Exact(src, code, i) ==>
              |src.CodeString(code)| < |src.db[i].key| && src.db[i].key[|src.CodeString(code)|] == '\t'
  {
    assert (src.CodeString(code) + "\t")[|src.CodeString(code)|] == '\t';
  }

  /** A record for a longer code starts with the code string but does not belong to it. */
  lemma LongerIsNotExact(src: Source, code: seq<int>, longer: seq<int>, i: nat)
    requires src.Valid() && src.Translatable(longer) && code < longer && i < |src.db|
    requires Exact(src, longer, i)
    ensures src.Translatable(code) && src.CodeString(code) <= src.db[i].key && !Exact(src, code, i)
  {
    CodeStringPrefix(src, code, longer);
    var next := longer[..|code| + 1];
    CodeStringPrefix(src, next, longer);
    assert next == code + [longer[|code|]];
    assert src.Known(longer[|code|]);
    CodeStringStep(src, code, longer[|code|]);
    CodeStringChars(src, next);
    var p, q := src.CodeString(code), src.CodeString(next);
    assert |p| < |q| && q <= src.db[i].key;
    assert src.db[i].key[|p|] == q[|p|] >= ' ';
    ExactChar(src, code, i);
  }

  /** No record lies beyond the keys under `prefix` without `key` being between. */
  ghost predicate Placed(src: Source, prefix: string, key: string) {
    forall i :: 0 <= i < |src.db| && Beyond(prefix, src.db[i].key) ==>
      AtMost(prefix, key) && AtMost(key, src.db[i].key)
  }

  /** When the key at hand has left `code`, no path through a later sibling of `id` has an
      entry: stopping early loses nothing. */
  lemma EarlyReturn(src: Source, code: seq<int>, id: int, key: string, later: int, path: PathEnd)
    requires src.Valid() && src.Translatable(code) && src.Known(id) && src.Known(later) && id < later
    requires Placed(src, src.CodeString(code + [id]), key) && !(src.CodeString(code) <= key)
    requires src.Translatable(path.code) && code + [later] <= path.code
    ensures forall i :: 0 <= i < |src.db| ==> !Exact(src, path.code, i)
  {
    CodeStringStep(src, code, id);
    CodeStringStep(src, code, later);
    CodeStringPrefix(src, code + [later], path.code);
    var c := src.CodeString(code);
    forall i | 0 <= i < |src.db|
      ensures !Exact(src, path.code, i)
    {
      var r := src.db[i].key;
      if Exact(src, path.code, i) {
        var q := src.CodeString(path.code);
        assert q <= q + "\t" <= r;
        assert c + (src.syllabary[later] + " ") <= r;
        var x := r[|c|..];
        assert r == c + x && src.syllabary[later] + " " <= x;
        Siblings(src.syllabary[id], src.syllabary[later], x);
        BeyondUnder(c, src.syllabary[id] + " ", x);
        Between(c, src.CodeString(code + [id]), key, r);
      }
    }
  }
}
