/** Encoding phrases: every way to spell a phrase by the codes of its words. */
module Encoders {
  import opened Spellings

  /** What words can be translated, and how. */
  type Dictionary = map<string, seq<string>>

  /** The codes of a word; none if it cannot be translated. */
  function Translations(dict: Dictionary, word: string): seq<string> {
    if word in dict then dict[word] else []
  }

  datatype NewEntry = NewEntry(phrase: string, codeStr: string, value: string)

  class PhraseCollector {
    var created: seq<NewEntry>
    const dict: Dictionary

    constructor (dict: Dictionary)
      ensures created == [] && this.dict == dict
    {
      created, this.dict := [], dict;
    }

    method CreateEntry(phrase: string, codeStr: string, value: string)
      modifies this
      ensures created == old(created) + [NewEntry(phrase, codeStr, value)]
    {
      created := created + [NewEntry(phrase, codeStr, value)];
    }
  }

  class RawCode {
    var parts: seq<string>

    constructor ()
      ensures parts == []
    {
      parts := [];
    }

    function ToString(): string
      reads this
    {
      Joined(parts)
    }

    method Push(x: string)
      modifies this
      ensures parts == old(parts) + [x]
    {
      parts := parts + [x];
    }

    method Pop()
      requires |parts| > 0
      modifies this
      ensures parts == old(parts)[..|old(parts)| - 1]
    {
      parts := parts[..|parts| - 1];
    }
  }

  function Joined(parts: seq<string>): string {
    if |parts| == 0 then "" else if |parts| == 1 then parts[0] else parts[0] + " " + Joined(parts[1..])
  }

  // ----- ways to cut a phrase up -----

  /** The next word: its length, and which of its codes. */
  datatype Piece = Piece(len: nat, nth: nat)

  type Way = seq<Piece>

  /** The codes of the word of length `len` at `pos`. */
  function CodesAt(dict: Dictionary, phrase: string, pos: nat, len: nat): seq<string>
    requires pos + len <= |phrase|
  {
    Translations(dict, phrase[pos..pos + len])
  }

  ghost predicate IsPiece(dict: Dictionary, phrase: string, pos: nat, p: Piece) {
    0 < p.len && pos + p.len <= |phrase| && p.nth < |CodesAt(dict, phrase, pos, p.len)|
  }

  /** A way to cut the phrase from `pos` on into words that have codes, and to choose one for
      each. */
  ghost predicate IsWay(dict: Dictionary, phrase: string, pos: nat, way: Way)
    decreases |way|
  {
    if |way| == 0 then pos == |phrase|
    else IsPiece(dict, phrase, pos, way[0]) && IsWay(dict, phrase, pos + way[0].len, way[1..])
  }

  ghost function CodeOf(dict: Dictionary, phrase: string, pos: nat, p: Piece): string {
    if IsPiece(dict, phrase, pos, p) then CodesAt(dict, phrase, pos, p.len)[p.nth] else ""
  }

  ghost function CodesOf(dict: Dictionary, phrase: string, pos: nat, way: Way): seq<string>
    decreases |way|
  {
    if |way| == 0 then []
    else [CodeOf(dict, phrase, pos, way[0])] + CodesOf(dict, phrase, pos + way[0].len, way[1..])
  }

  // ----- the ways in the order they are tried -----

  ghost function Ways(dict: Dictionary, phrase: string, pos: nat): seq<Way>
    requires pos <= |phrase|
    decreases |phrase| - pos, 2, 0
  {
    if pos == |phrase| then [[]] else WaysUpTo(dict, phrase, pos, |phrase| - pos)
  }

  /** Those whose first word is no longer than `k`. */
  ghost function WaysUpTo(dict: Dictionary, phrase: string, pos: nat, k: nat): seq<Way>
    requires pos + k <= |phrase|
    decreases |phrase| - pos, 1, k
  {
    if k == 0 then [] else WaysBy(dict, phrase, pos, k, |CodesAt(dict, phrase, pos, k)|) + WaysUpTo(dict, phrase, pos, k - 1)
  }

  /** Those by the first `n` codes of the word of length `k`. */
  ghost function WaysBy(dict: Dictionary, phrase: string, pos: nat, k: nat, n: nat): seq<Way>
    requires 0 < k && pos + k <= |phrase|
    decreases |phrase| - pos, 0, n
  {
    if n == 0 then [] else WaysBy(dict, phrase, pos, k, n - 1) + Ahead(Piece(k, n - 1), Ways(dict, phrase, pos + k))
  }

  ghost function Ahead(p: Piece, ways: seq<Way>): seq<Way> {
    seq(|ways|, i requires 0 <= i < |ways| => [p] + ways[i])
  }

  // ----- all ways, each once -----

  ghost predicate Begins(w: Way, p: Piece) {
    |w| > 0 && w[0] == p
  }

  lemma AheadAre(p: Piece, ways: seq<Way>, w: Way)
    ensures w in Ahead(p, ways) <==> Begins(w, p) && w[1..] in ways
  {
    if Begins(w, p) && w[1..] in ways {
      var i :| 0 <= i < |ways| && ways[i] == w[1..];
      assert Ahead(p, ways)[i] == w;
    }
  }

  lemma AheadOnce(p: Piece, ways: seq<Way>)
    requires Once(ways)
    ensures Once(Ahead(p, ways))
  {
    var a := Ahead(p, ways);
    forall i, j | 0 <= i < j < |a|
      ensures a[i] != a[j]
    {
      assert a[i][1..] == ways[i] && a[j][1..] == ways[j];
    }
  }

  lemma {:induction false} WaysAre(dict: Dictionary, phrase: string, pos: nat, w: Way)
    requires pos <= |phrase|
    ensures w in Ways(dict, phrase, pos) <==> IsWay(dict, phrase, pos, w)
    decreases |phrase| - pos, 2, 0
  {
    if pos == |phrase| {
      assert |w| == 0 ==> w == [];
    } else {
      WaysUpToAre(dict, phrase, pos, |phrase| - pos, w);
    }
  }

  lemma {:induction false} WaysUpToAre(dict: Dictionary, phrase: string, pos: nat, k: nat, w: Way)
    requires pos + k <= |phrase|
    ensures w in WaysUpTo(dict, phrase, pos, k) <==> |w| > 0 && w[0].len <= k && IsWay(dict, phrase, pos, w)
    decreases |phrase| - pos, 1, k
  {
    if k > 0 {
      WaysByAre(dict, phrase, pos, k, |CodesAt(dict, phrase, pos, k)|, w);
      WaysUpToAre(dict, phrase, pos, k - 1, w);
    }
  }

  lemma {:induction false} WaysByAre(dict: Dictionary, phrase: string, pos: nat, k: nat, n: nat, w: Way)
    requires 0 < k && pos + k <= |phrase| && n <= |CodesAt(dict, phrase, pos, k)|
    ensures w in WaysBy(dict, phrase, pos, k, n) <==>
              |w| > 0 && w[0].len == k && w[0].nth < n && IsWay(dict, phrase, pos, w)
    decreases |phrase| - pos, 0, n
  {
    if n > 0 {
      hide CodesAt;
      WaysByAre(dict, phrase, pos, k, n - 1, w);
      var ways := Ways(dict, phrase, pos + k);
      AheadAre(Piece(k, n - 1), ways, w);
      if |w| > 0 { WaysAre(dict, phrase, pos + k, w[1..]); }
      hide Ways, Ahead;
    }
  }

  lemma {:induction false} WaysOnce(dict: Dictionary, phrase: string, pos: nat)
    requires pos <= |phrase|
    ensures Once(Ways(dict, phrase, pos))
    decreases |phrase| - pos, 2, 0
  {
    if pos < |phrase| { WaysUpToOnce(dict, phrase, pos, |phrase| - pos); }
  }

  lemma {:induction false} WaysUpToOnce(dict: Dictionary, phrase: string, pos: nat, k: nat)
    requires pos + k <= |phrase|
    ensures Once(WaysUpTo(dict, phrase, pos, k))
    decreases |phrase| - pos, 1, k
  {
    if k > 0 {
      hide WaysBy, IsWay;
      var n := |CodesAt(dict, phrase, pos, k)|;
      WaysByOnce(dict, phrase, pos, k, n);
      WaysUpToOnce(dict, phrase, pos, k - 1);
      forall w | w in WaysBy(dict, phrase, pos, k, n)
        ensures w !in WaysUpTo(dict, phrase, pos, k - 1)
      {
        WaysByAre(dict, phrase, pos, k, n, w);
        WaysUpToAre(dict, phrase, pos, k - 1, w);
      }
      OnceConcat(WaysBy(dict, phrase, pos, k, n), WaysUpTo(dict, phrase, pos, k - 1));
    }
  }

  lemma {:induction false} WaysByOnce(dict: Dictionary, phrase: string, pos: nat, k: nat, n: nat)
    requires 0 < k && pos + k <= |phrase| && n <= |CodesAt(dict, phrase, pos, k)|
    ensures Once(WaysBy(dict, phrase, pos, k, n))
    decreases |phrase| - pos, 0, n
  {
    if n > 0 {
      hide CodesAt, Ways, IsWay, Ahead;
      WaysByOnce(dict, phrase, pos, k, n - 1);
      WaysOnce(dict, phrase, pos + k);
      var ways, p := Ways(dict, phrase, pos + k), Piece(k, n - 1);
      AheadOnce(p, ways);
      forall w | w in WaysBy(dict, phrase, pos, k, n - 1)
        ensures w !in Ahead(p, ways)
      {
        WaysByAre(dict, phrase, pos, k, n - 1, w);
        AheadAre(p, ways, w);
      }
      OnceConcat(WaysBy(dict, phrase, pos, k, n - 1), Ahead(p, ways));
    }
  }

  /** Main result: the ways that are tried are all ways there are, each once. */
  lemma WaysExactly(dict: Dictionary, phrase: string)
    ensures Once(Ways(dict, phrase, 0))
    ensures forall w :: w in Ways(dict, phrase, 0) <==> IsWay(dict, phrase, 0, w)
    ensures Ways(dict, phrase, 0) == [] <==> forall w :: !IsWay(dict, phrase, 0, w)
  {
    hide Ways, IsWay;
    WaysOnce(dict, phrase, 0);
    forall w
      ensures w in Ways(dict, phrase, 0) <==> IsWay(dict, phrase, 0, w)
    {
      WaysAre(dict, phrase, 0, w);
    }
    var ways := Ways(dict, phrase, 0);
    if ways != [] { assert ways[0] in ways; }
  }

  // ----- the search -----

  /** The entries that the ways give, behind the codes chosen so far. */
  ghost function Entries(dict: Dictionary, phrase: string, value: string, pos: nat, chosen: seq<string>, ways: seq<Way>): seq<NewEntry> {
    seq(|ways|, i requires 0 <= i < |ways| => NewEntry(phrase, Joined(chosen + CodesOf(dict, phrase, pos, ways[i])), value))
  }

  lemma EntriesConcat(dict: Dictionary, phrase: string, value: string, pos: nat, chosen: seq<string>, a: seq<Way>, b: seq<Way>)
    ensures Entries(dict, phrase, value, pos, chosen, a + b)
            == Entries(dict, phrase, value, pos, chosen, a) + Entries(dict, phrase, value, pos, chosen, b)
  {
    hide Joined, CodesOf;
  }

  lemma EntriesAhead(dict: Dictionary, phrase: string, value: string, pos: nat, chosen: seq<string>, p: Piece, ways: seq<Way>)
    ensures Entries(dict, phrase, value, pos, chosen, Ahead(p, ways))
            == Entries(dict, phrase, value, pos + p.len, chosen + [CodeOf(dict, phrase, pos, p)], ways)
  {
    forall i | 0 <= i < |ways|
      ensures chosen + CodesOf(dict, phrase, pos, Ahead(p, ways)[i])
              == (chosen + [CodeOf(dict, phrase, pos, p)]) + CodesOf(dict, phrase, pos + p.len, ways[i])
    {
      assert ([p] + ways[i])[1..] == ways[i];
      hide CodeOf;
    }
  }

  /** What has been created when the ways `done` have been tried. */
  ghost predicate Created(before: seq<NewEntry>, after: seq<NewEntry>, dict: Dictionary, phrase: string, value: string, pos: nat,
                          chosen: seq<string>, done: seq<Way>) {
    after == before + Entries(dict, phrase, value, pos, chosen, done)
  }

  lemma CreatedMore(before: seq<NewEntry>, middle: seq<NewEntry>, after: seq<NewEntry>, dict: Dictionary, phrase: string, value: string,
                    pos: nat, chosen: seq<string>, done: seq<Way>, more: seq<Way>)
    requires Created(before, middle, dict, phrase, value, pos, chosen, done)
    requires Created(middle, after, dict, phrase, value, pos, chosen, more)
    ensures Created(before, after, dict, phrase, value, pos, chosen, done + more)
  {
    EntriesConcat(dict, phrase, value, pos, chosen, done, more);
    hide Entries;
    Associate(before, Entries(dict, phrase, value, pos, chosen, done), Entries(dict, phrase, value, pos, chosen, more));
  }

  lemma CreatedNone(before: seq<NewEntry>, dict: Dictionary, phrase: string, value: string, pos: nat, chosen: seq<string>)
    ensures Created(before, before, dict, phrase, value, pos, chosen, [])
  {
  }

  class ScriptEncoder {
    const collector: PhraseCollector

    constructor (collector: PhraseCollector)
      ensures this.collector == collector
    {
      this.collector := collector;
    }

    /** Main result: one entry for every way to spell the phrase, and success exactly if there
        is one. */
    method EncodePhrase(phrase: string, value: string) returns (ok: bool)
      modifies collector
      ensures collector.created
              == old(collector.created) + Entries(collector.dict, phrase, value, 0, [], Ways(collector.dict, phrase, 0))
      ensures ok <==> exists w :: IsWay(collector.dict, phrase, 0, w)
    {
      hide Ways, Entries, IsWay;
      var code := new RawCode();
      WaysExactly(collector.dict, phrase);
      ok := DfsEncode(phrase, value, 0, code);
    }

    /** Tries every way from `startPos` on, longer words first. The code is left as it was. */
    method DfsEncode(phrase: string, value: string, startPos: nat, code: RawCode) returns (ret: bool)
      requires startPos <= |phrase|
      modifies code, collector
      ensures code.parts == old(code.parts)
      ensures Created(old(collector.created), collector.created, collector.dict, phrase, value, startPos, code.parts,
                      Ways(collector.dict, phrase, startPos))
      ensures ret <==> Ways(collector.dict, phrase, startPos) != []
      decreases |phrase| - startPos, 1
    {
      hide WaysBy;
      if startPos == |phrase| {
        assert code.parts + [] == code.parts;
        collector.CreateEntry(phrase, code.ToString(), value);
        return true;
      }
      ret := false;
      ghost var dict, chosen := collector.dict, code.parts;
      ghost var done: seq<Way> := [];
      CreatedNone(collector.created, dict, phrase, value, startPos, chosen);
      var k := |phrase| - startPos;
      while k > 0
        invariant 0 <= k <= |phrase| - startPos && code.parts == chosen
        invariant done + WaysUpTo(dict, phrase, startPos, k) == Ways(dict, phrase, startPos)
        invariant Created(old(collector.created), collector.created, dict, phrase, value, startPos, chosen, done)
        invariant ret <==> done != []
      {
        hide Created;
        ghost var middle := collector.created;
        var ok := TryWord(phrase, value, startPos, k, code);
        ghost var more := WaysBy(dict, phrase, startPos, k, |CodesAt(dict, phrase, startPos, k)|);
        CreatedMore(old(collector.created), middle, collector.created, dict, phrase, value, startPos, chosen, done, more);
        Associate(done, more, WaysUpTo(dict, phrase, startPos, k - 1));
        ret := ret || ok;
        done := done + more;
        k := k - 1;
      }
      assert done + [] == done;
    }

    /** Tries the codes of the word of length `k`. */
    method TryWord(phrase: string, value: string, startPos: nat, k: nat, code: RawCode) returns (ret: bool)
      requires 0 < k && startPos + k <= |phrase|
      modifies code, collector
      ensures code.parts == old(code.parts)
      ensures var ways := WaysBy(collector.dict, phrase, startPos, k, |CodesAt(collector.dict, phrase, startPos, k)|);
              && Created(old(collector.created), collector.created, collector.dict, phrase, value, startPos, code.parts, ways)
              && (ret <==> ways != [])
      decreases |phrase| - startPos, 0
    {
      hide Ways, Created, Ahead;
      ret := false;
      ghost var dict, chosen := collector.dict, code.parts;
      CreatedNone(collector.created, dict, phrase, value, startPos, chosen);
      var translations := Translations(collector.dict, phrase[startPos..startPos + k]);
      for n := 0 to |translations|
        invariant code.parts == chosen
        invariant Created(old(collector.created), collector.created, dict, phrase, value, startPos, chosen, WaysBy(dict, phrase, startPos, k, n))
        invariant ret <==> WaysBy(dict, phrase, startPos, k, n) != []
      {
        hide WaysBy;
        ghost var middle, ways := collector.created, Ways(dict, phrase, startPos + k);
        code.Push(translations[n]);
        var ok := DfsEncode(phrase, value, startPos + k, code);
        code.Pop();
        Tried(middle, collector.created, dict, phrase, value, startPos, chosen, k, n);
        CreatedMore(old(collector.created), middle, collector.created, dict, phrase, value, startPos, chosen,
                    WaysBy(dict, phrase, startPos, k, n), Ahead(Piece(k, n), ways));
        OneMoreCode(dict, phrase, startPos, k, n);
        ret := ret || ok;
      }
    }
  }

  lemma Tried(before: seq<NewEntry>, after: seq<NewEntry>, dict: Dictionary, phrase: string, value: string, pos: nat,
              chosen: seq<string>, k: nat, n: nat)
    requires 0 < k && pos + k <= |phrase| && n < |CodesAt(dict, phrase, pos, k)|
    requires Created(before, after, dict, phrase, value, pos + k, chosen + [CodesAt(dict, phrase, pos, k)[n]], Ways(dict, phrase, pos + k))
    ensures Created(before, after, dict, phrase, value, pos, chosen, Ahead(Piece(k, n), Ways(dict, phrase, pos + k)))
  {
    hide Ways, Entries;
    EntriesAhead(dict, phrase, value, pos, chosen, Piece(k, n), Ways(dict, phrase, pos + k));
  }

  lemma OneMoreCode(dict: Dictionary, phrase: string, pos: nat, k: nat, n: nat)
    requires 0 < k && pos + k <= |phrase|
    ensures WaysBy(dict, phrase, pos, k, n + 1) == WaysBy(dict, phrase, pos, k, n) + Ahead(Piece(k, n), Ways(dict, phrase, pos + k))
    ensures Ahead(Piece(k, n), Ways(dict, phrase, pos + k)) == [] <==> Ways(dict, phrase, pos + k) == []
  {
  }
}
