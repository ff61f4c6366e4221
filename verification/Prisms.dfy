/** The spelling index (`Prism`): a trie from keys to spelling ids, and for each id the
    syllables it may stand for. The trie is taken as a finite map. */
module Prisms {
  import opened Spellings

  datatype Match = Match(value: int, length: nat)

  datatype Descriptor = Descriptor(syllableId: int, kind: SpellingType, credibility: real, tips: string)

  datatype SpellingTable = NoSpellingTable | SpellingTable(items: seq<seq<Descriptor>>)

  datatype Prism = Prism(keys: map<string, int>, spellingMap: SpellingTable, alphabet: seq<char>)
  {
    /** Ids are ranks, and every letter of a key is in the alphabet, once. */
    ghost predicate Valid() {
      && (forall k :: k in keys ==> keys[k] >= 0)
      && (forall i, j :: 0 <= i < j < |alphabet| ==> alphabet[i] != alphabet[j])
    }

    /** Keys that are prefixes of `text`, shortest first. No key is empty. */
    function CommonPrefixSearch(text: string): seq<Match> {
      PrefixesUpTo(text, |text|)
    }

    function PrefixesUpTo(text: string, n: nat): (r: seq<Match>)
      requires n <= |text|
      ensures forall i :: 0 <= i < |r| ==>
                0 < r[i].length <= n && text[..r[i].length] in keys && keys[text[..r[i].length]] == r[i].value
      ensures forall len :: 0 < len <= n && text[..len] in keys ==> Match(keys[text[..len]], len) in r
      ensures forall i, j :: 0 <= i < j < |r| ==> r[i].length < r[j].length
    {
      if n == 0 then []
      else
        var shorter := PrefixesUpTo(text, n - 1);
        if text[..n] in keys then shorter + [Match(keys[text[..n]], n)] else shorter
    }

    /** What a `SpellingAccessor` for spelling `id` enumerates. With no descriptor to show
        it enumerates the id itself, once, as a normal spelling. */
    function QuerySpelling(id: int): (r: seq<Descriptor>)
      ensures |r| > 0
    {
      if spellingMap.SpellingTable? && 0 <= id < |spellingMap.items| && |spellingMap.items[id]| > 0
      then spellingMap.items[id]
      else [Descriptor(id, NORMAL, 1.0, "")]
    }

    // ----- expand search -----

    /** Some key starts with `s`. */
    predicate IsPath(s: string) {
      exists k :: k in keys && s <= k
    }

    /** The value stored at `s`, -1 if `s` is only an inner node, -2 if it is no path. */
    function Traverse(s: string): int {
      if s in keys then keys[s] else if IsPath(s) then -1 else -2
    }

    function ChildrenUpTo(s: string, n: nat): (r: seq<string>)
      requires n <= |alphabet|
    {
      if n == 0 then []
      else
        var before := ChildrenUpTo(s, n - 1);
        if IsPath(s + [alphabet[n - 1]]) then before + [s + [alphabet[n - 1]]] else before
    }

    /** The nodes one letter below `s`, in alphabetical order. */
    function Children(s: string): seq<string> {
      ChildrenUpTo(s, |alphabet|)
    }

    function ChildrenOf(nodes: seq<string>): seq<string> {
      if |nodes| == 0 then []
      else ChildrenOf(nodes[..|nodes| - 1]) + Children(nodes[|nodes| - 1])
    }

    /** The nodes `n` letters below `text`, in the order a breadth-first search meets them. */
    function Level(text: string, n: nat): seq<string> {
      if n == 0 then (if IsPath(text) then [text] else []) else ChildrenOf(Level(text, n - 1))
    }

    function KeysAmong(nodes: seq<string>): seq<string> {
      if |nodes| == 0 then []
      else
        var before := KeysAmong(nodes[..|nodes| - 1]);
        if nodes[|nodes| - 1] in keys then before + [nodes[|nodes| - 1]] else before
    }

    /** The keys up to `n` letters longer than `text`. */
    function HitsUpTo(text: string, n: nat): seq<string> {
      if n == 0 then KeysAmong(Level(text, 0)) else HitsUpTo(text, n - 1) + KeysAmong(Level(text, n))
    }

    /** What an unlimited expand search from `text` finds. */
    ghost function Hits(text: string): seq<string> {
      HitsUpTo(text, LongestIn(keys.Keys))
    }
  }

  ghost function LongestIn(s: set<string>): (n: nat)
    ensures forall k :: k in s ==> |k| <= n
  {
    if s == {} then 0
    else
      var k :| k in s;
      var rest := LongestIn(s - {k});
      if |k| <= rest then rest else |k|
  }

  /** How a hit is reported. */
  function MatchOf(prism: Prism, key: string): Match
    requires key in prism.keys
  {
    Match(prism.keys[key], |key|)
  }

  ghost function Truncated<T>(s: seq<T>, limit: nat): seq<T> {
    if limit == 0 || |s| <= limit then s else s[..limit]
  }
}
