/** Encoding phrases by rules: the codes of the characters, combined by a formula. */
module TableEncoders {
  import opened Commons
  import opened Spellings
  import opened Encoders

  // ----- where in a code -----

  predicate IsAnchor(anchor: string, ch: char) { ch in anchor }

  /** The next place after `k` that is no tail anchor, or the end. */
  function StepFore(code: string, anchor: string, k: int): (r: int)
    requires k >= 0
    ensures r > k && (r < |code| ==> !IsAnchor(anchor, code[r]))
    ensures forall i :: k < i < r && i < |code| ==> IsAnchor(anchor, code[i])
    ensures r <= |code| || r == k + 1
    decreases if k < |code| then |code| - k else 0
  {
    if k + 1 < |code| && IsAnchor(anchor, code[k + 1]) then StepFore(code, anchor, k + 1) else k + 1
  }

  /** The place before `k` that is no tail anchor, or a negative number. */
  function StepBack(code: string, anchor: string, k: int): (r: int)
    requires k <= |code|
    ensures r < k && (0 <= r ==> !IsAnchor(anchor, code[r]))
    ensures forall i :: r < i < k && 0 <= i ==> IsAnchor(anchor, code[i])
    ensures r >= -1 || r == k - 1
    decreases if k > 0 then k else 0
  {
    if k - 1 >= 0 && IsAnchor(anchor, code[k - 1]) then StepBack(code, anchor, k - 1) else k - 1
  }

  function Fore(code: string, anchor: string, k: int, m: nat): (r: int)
    requires k >= 0
    ensures r >= k
    decreases m
  {
    if m == 0 then k else Fore(code, anchor, StepFore(code, anchor, k), m - 1)
  }

  function Back(code: string, anchor: string, k: int, m: nat): (r: int)
    requires k <= |code|
    ensures r <= k
    decreases m
  {
    if m == 0 then k else Back(code, anchor, StepBack(code, anchor, k), m - 1)
  }

  function FindFirstOf(code: string, anchor: string, from: nat): (r: nat)
    ensures r < |code| ==> from <= r && IsAnchor(anchor, code[r])
    ensures forall i :: from <= i < r && i < |code| ==> !IsAnchor(anchor, code[i])
    ensures r >= |code| ==> r == (if from < |code| then |code| else from)
    decreases if from < |code| then |code| - from else 0
  {
    if from >= |code| then from
    else if IsAnchor(anchor, code[from]) then from else FindFirstOf(code, anchor, from + 1)
  }

  /** The place of the last character before the first tail anchor beyond `start`. */
  function TailOf(code: string, anchor: string, start: nat): int {
    var tail := FindFirstOf(code, anchor, start + 1);
    if tail < |code| then tail - 1 else |code| - 1
  }

  /** The place of the character with a virtual index. */
  function CodeIndex(code: string, anchor: string, index: int, start: nat): int {
    if index < 0 then Back(code, anchor, TailOf(code, anchor, start), -index - 1) else Fore(code, anchor, 0, index)
  }

  method CalculateCodeIndex(code: string, anchor: string, index: int, start: nat) returns (k: int)
    ensures k == CodeIndex(code, anchor, index, start)
  {
    if index < 0 {
      k := |code| - 1;
      var tail := FindFirstOf(code, anchor, start + 1);
      if tail < |code| {
        k := tail - 1;
      }
      k := CountBack(code, anchor, k, index);
    } else {
      k := CountFore(code, anchor, index);
    }
  }

  method CountBack(code: string, anchor: string, k0: int, index0: int) returns (k: int)
    requires index0 < 0 && k0 <= |code|
    ensures k == Back(code, anchor, k0, -index0 - 1)
  {
    k := k0;
    var index := index0 + 1;
    while index < 0
      invariant index <= 0 && k <= |code|
      invariant Back(code, anchor, k, -index) == Back(code, anchor, k0, -index0 - 1)
      decreases -index
    {
      ghost var from := k;
      k := k - 1;
      while k >= 0 && IsAnchor(anchor, code[k])
        invariant k < from && StepBack(code, anchor, k + 1) == StepBack(code, anchor, from)
      {
        k := k - 1;
      }
      index := index + 1;
    }
  }

  method CountFore(code: string, anchor: string, index0: nat) returns (k: int)
    ensures k == Fore(code, anchor, 0, index0)
  {
    k := 0;
    var index := index0;
    while index > 0
      invariant k >= 0 && Fore(code, anchor, k, index) == Fore(code, anchor, 0, index0)
    {
      ghost var from := k;
      k := k + 1;
      while k < |code| && IsAnchor(anchor, code[k])
        invariant k > from && StepFore(code, anchor, k - 1) == StepFore(code, anchor, from)
      {
        k := k + 1;
      }
      index := index - 1;
    }
  }

  /** The encoding characters at the places `from` to `end`. */
  ghost function Encoding(code: string, anchor: string, from: int, end: int): nat
    decreases end - from
  {
    if from >= end then 0
    else Encoding(code, anchor, from, end - 1) + (if 0 <= end - 1 < |code| && !IsAnchor(anchor, code[end - 1]) then 1 else 0)
  }

  lemma {:induction false} EncodingSplit(code: string, anchor: string, from: int, mid: int, end: int)
    requires from <= mid <= end
    ensures Encoding(code, anchor, from, end) == Encoding(code, anchor, from, mid) + Encoding(code, anchor, mid, end)
    decreases end - mid
  {
    if mid < end { EncodingSplit(code, anchor, from, mid, end - 1); }
  }

  lemma {:induction false} NoEncoding(code: string, anchor: string, from: int, end: int)
    requires forall i :: from <= i < end && 0 <= i < |code| ==> IsAnchor(anchor, code[i])
    ensures Encoding(code, anchor, from, end) == 0
    decreases end - from
  {
    if from < end { NoEncoding(code, anchor, from, end - 1); }
  }

  /** Main result: counting from the start, the place found is the one with so many encoding
      characters between the first place and it, tail anchors not counted; if the code has
      no such character, the place is beyond its end. */
  lemma {:induction false} ForeCounts(code: string, anchor: string, k: int, m: nat)
    requires k >= 0
    ensures var r := Fore(code, anchor, k, m);
            && (r < |code| ==> Encoding(code, anchor, k + 1, r + 1) == m && (m > 0 ==> !IsAnchor(anchor, code[r])))
            && (r >= |code| && k < |code| ==> Encoding(code, anchor, k + 1, |code|) < m)
    decreases m
  {
    if m > 0 {
      var s := StepFore(code, anchor, k);
      ForeCounts(code, anchor, s, m - 1);
      NoEncoding(code, anchor, k + 1, s);
      var r := Fore(code, anchor, k, m);
      if r < |code| {
        EncodingSplit(code, anchor, k + 1, s, s + 1);
        EncodingSplit(code, anchor, k + 1, s + 1, r + 1);
      } else if s < |code| {
        EncodingSplit(code, anchor, k + 1, s, s + 1);
        EncodingSplit(code, anchor, k + 1, s + 1, |code|);
      } else if k < |code| {
        NoEncoding(code, anchor, k + 1, |code|);
      }
    }
  }

  /** The same, counting backwards. */
  lemma {:induction false} BackCounts(code: string, anchor: string, k: int, m: nat)
    requires k <= |code|
    ensures var r := Back(code, anchor, k, m);
            && (0 <= r ==> Encoding(code, anchor, r, k) == m && (m > 0 ==> !IsAnchor(anchor, code[r])))
            && (r < 0 && 0 <= k ==> Encoding(code, anchor, 0, k) < m)
    decreases m
  {
    if m > 0 {
      var s := StepBack(code, anchor, k);
      BackCounts(code, anchor, s, m - 1);
      NoEncoding(code, anchor, s + 1, k);
      var r := Back(code, anchor, k, m);
      if 0 <= r {
        EncodingSplit(code, anchor, s, s + 1, k);
        EncodingSplit(code, anchor, r, s, k);
      } else if 0 <= s {
        EncodingSplit(code, anchor, s, s + 1, k);
        EncodingSplit(code, anchor, 0, s, k);
      } else if 0 <= k {
        NoEncoding(code, anchor, 0, k);
      }
    }
  }

  // ----- encoding by rules -----

  /** Which character, and which place in its code; negative numbers count from the end. */
  datatype Coords = Coords(charIndex: int, codeIndex: int)

  datatype Rule = Rule(minWordLength: int, maxWordLength: int, coords: seq<Coords>)

  datatype Settings = Settings(rules: seq<Rule>, tailAnchor: string, excluded: set<string>)

  const START := Coords(0, 0)

  /** Where one pair of coordinates leads, if it adds a character. */
  function Locate(s: Settings, code: seq<string>, current: Coords, previous: Coords, encoded: Coords): (r: Option<Coords>)
    requires encoded.codeIndex >= 0
    ensures r.Some? ==> 0 <= r.value.charIndex < |code| && 0 <= r.value.codeIndex < |code[r.value.charIndex]|
  {
    var charIndex := if current.charIndex < 0 then current.charIndex + |code| else current.charIndex;
    if charIndex >= |code| || charIndex < 0 then None
    else if current.charIndex < 0 && charIndex < encoded.charIndex then None
    else
      var start := if charIndex == encoded.charIndex then encoded.codeIndex + 1 else 0;
      var codeIndex := CodeIndex(code[charIndex], s.tailAnchor, current.codeIndex, start);
      if codeIndex >= |code[charIndex]| || codeIndex < 0 then None
      else if (current.charIndex < 0 || current.codeIndex < 0) && charIndex == encoded.charIndex
              && codeIndex <= encoded.codeIndex && current != previous then None
      else Some(Coords(charIndex, codeIndex))
  }

  /** The characters that the coordinates from `i` on add. */
  function EncodeFrom(s: Settings, code: seq<string>, coords: seq<Coords>, i: nat, previous: Coords, encoded: Coords): string
    requires i <= |coords| && encoded.codeIndex >= 0
    decreases |coords| - i
  {
    if i == |coords| then ""
    else
      match Locate(s, code, coords[i], previous, encoded)
      case None => EncodeFrom(s, code, coords, i + 1, previous, encoded)
      case Some(c) => [code[c.charIndex][c.codeIndex]] + EncodeFrom(s, code, coords, i + 1, coords[i], c)
  }

  predicate Applies(r: Rule, code: seq<string>) {
    r.minWordLength <= |code| <= r.maxWordLength
  }

  /** The encoding by the first rule that applies and gives any. */
  function EncodeBy(s: Settings, code: seq<string>, i: nat): Option<string>
    requires i <= |s.rules|
    decreases |s.rules| - i
  {
    if i == |s.rules| then None
    else
      var result := EncodeFrom(s, code, s.rules[i].coords, 0, START, START);
      if Applies(s.rules[i], code) && result != "" then Some(result) else EncodeBy(s, code, i + 1)
  }

  method EncodeRule(s: Settings, code: seq<string>, coords: seq<Coords>) returns (result: string)
    ensures result == EncodeFrom(s, code, coords, 0, START, START)
  {
    result := "";
    var previous := START;
    var encoded := START;
    for i := 0 to |coords|
      invariant encoded.codeIndex >= 0
      invariant result + EncodeFrom(s, code, coords, i, previous, encoded) == EncodeFrom(s, code, coords, 0, START, START)
    {
      hide Locate, CodeIndex;
      ghost var before, rest := result, EncodeFrom(s, code, coords, i, previous, encoded);
      var c := LocateNext(s, code, coords[i], previous, encoded);
      if c.Some? {
        var ch := code[c.value.charIndex][c.value.codeIndex];
        Associate(result, [ch], EncodeFrom(s, code, coords, i + 1, coords[i], c.value));
        result := result + [ch];
        previous := coords[i];
        encoded := c.value;
      }
    }
    assert result + "" == result;
  }

  method LocateNext(s: Settings, code: seq<string>, current: Coords, previous: Coords, encoded: Coords) returns (r: Option<Coords>)
    requires encoded.codeIndex >= 0
    ensures r == Locate(s, code, current, previous, encoded)
    ensures r.Some? ==> 0 <= r.value.charIndex < |code| && 0 <= r.value.codeIndex < |code[r.value.charIndex]|
  {
    var c := current;
    if c.charIndex < 0 {
      c := c.(charIndex := c.charIndex + |code|);
    }
    if c.charIndex >= |code| {
      return None;
    }
    if c.charIndex < 0 {
      return None;
    }
    if current.charIndex < 0 && c.charIndex < encoded.charIndex {
      return None;
    }
    var startIndex := 0;
    if c.charIndex == encoded.charIndex {
      startIndex := encoded.codeIndex + 1;
    }
    var k := CalculateCodeIndex(code[c.charIndex], s.tailAnchor, c.codeIndex, startIndex);
    c := c.(codeIndex := k);
    if c.codeIndex >= |code[c.charIndex]| {
      return None;
    }
    if c.codeIndex < 0 {
      return None;
    }
    if (current.charIndex < 0 || current.codeIndex < 0) && c.charIndex == encoded.charIndex && c.codeIndex <= encoded.codeIndex
       && (current.charIndex != previous.charIndex || current.codeIndex != previous.codeIndex) {
      return None;
    }
    r := Some(c);
  }

  method Encode(s: Settings, code: seq<string>) returns (result: Option<string>)
    ensures result == EncodeBy(s, code, 0)
  {
    for i := 0 to |s.rules|
      invariant EncodeBy(s, code, i) == EncodeBy(s, code, 0)
    {
      if Applies(s.rules[i], code) {
        var encoded := EncodeRule(s, code, s.rules[i].coords);
        if encoded != "" {
          return Some(encoded);
        }
      }
    }
    result := None;
  }

  // ----- character by character -----

  /** The length of a character in UTF-8, by its first byte. */
  function CharLength(lead: char): (n: nat)
    ensures 1 <= n <= 4
  {
    var b := lead as int;
    if b < 0x80 then 1 else if b / 0x20 == 0x6 then 2 else if b / 0x10 == 0xE then 3 else if b / 0x8 == 0x1E then 4 else 1
  }

  /** From `pos` on the phrase is a sequence of whole characters. */
  ghost predicate Whole(phrase: string, pos: nat)
    decreases |phrase| - pos
  {
    pos == |phrase| || (pos < |phrase| && pos + CharLength(phrase[pos]) <= |phrase| && Whole(phrase, pos + CharLength(phrase[pos])))
  }

  function Allowed(s: Settings, codes: seq<string>): seq<string> {
    if |codes| == 0 then []
    else Allowed(s, codes[..|codes| - 1]) + (if codes[|codes| - 1] in s.excluded then [] else [codes[|codes| - 1]])
  }

  /** The dictionary of the single characters, without excluded codes. */
  ghost function Characters(s: Settings, dict: Dictionary): Dictionary {
    map w | w in dict && |w| > 0 && CharLength(w[0]) == |w| :: Allowed(s, dict[w])
  }

  /** The entries of those ways that some rule encodes. */
  ghost function EncodedEntries(s: Settings, dict: Dictionary, phrase: string, value: string, pos: nat, chosen: seq<string>, ways: seq<Way>)
    : seq<NewEntry>
  {
    if |ways| == 0 then []
    else
      var encoded := EncodeBy(s, chosen + CodesOf(dict, phrase, pos, ways[|ways| - 1]), 0);
      EncodedEntries(s, dict, phrase, value, pos, chosen, ways[..|ways| - 1])
      + (if encoded.Some? then [NewEntry(phrase, encoded.value, value)] else [])
  }

  lemma {:induction false} EncodedConcat(s: Settings, dict: Dictionary, phrase: string, value: string, pos: nat, chosen: seq<string>,
                                         a: seq<Way>, b: seq<Way>)
    ensures EncodedEntries(s, dict, phrase, value, pos, chosen, a + b)
            == EncodedEntries(s, dict, phrase, value, pos, chosen, a) + EncodedEntries(s, dict, phrase, value, pos, chosen, b)
  {
    hide EncodeBy, CodesOf;
    if |b| == 0 {
      assert a + b == a;
    } else {
      assert (a + b)[..|a + b| - 1] == a + b[..|b| - 1];
      EncodedConcat(s, dict, phrase, value, pos, chosen, a, b[..|b| - 1]);
    }
  }

  lemma {:induction false} EncodedAhead(s: Settings, dict: Dictionary, phrase: string, value: string, pos: nat, chosen: seq<string>,
                                        p: Piece, ways: seq<Way>)
    ensures EncodedEntries(s, dict, phrase, value, pos, chosen, Ahead(p, ways))
            == EncodedEntries(s, dict, phrase, value, pos + p.len, chosen + [CodeOf(dict, phrase, pos, p)], ways)
  {
    hide EncodeBy, CodeOf;
    if |ways| > 0 {
      var init, last := ways[..|ways| - 1], ways[|ways| - 1];
      EncodedAhead(s, dict, phrase, value, pos, chosen, p, init);
      assert Ahead(p, ways)[..|ways| - 1] == Ahead(p, init);
      assert ([p] + last)[1..] == last;
      assert chosen + ([CodeOf(dict, phrase, pos, p)] + CodesOf(dict, phrase, pos + p.len, last))
          == (chosen + [CodeOf(dict, phrase, pos, p)]) + CodesOf(dict, phrase, pos + p.len, last);
    }
  }

  /** Of the words at a position only the one character there is in the dictionary. */
  lemma {:induction false} OnlyCharacters(s: Settings, dict: Dictionary, phrase: string, pos: nat, k: nat)
    requires pos < |phrase| && pos + k <= |phrase|
    ensures var d, len := Characters(s, dict), CharLength(phrase[pos]);
            WaysUpTo(d, phrase, pos, k)
            == if k < len then [] else WaysBy(d, phrase, pos, len, |CodesAt(d, phrase, pos, len)|)
  {
    var d, len := Characters(s, dict), CharLength(phrase[pos]);
    if k > 0 {
      hide WaysBy;
      OnlyCharacters(s, dict, phrase, pos, k - 1);
      if k != len {
        assert phrase[pos..pos + k][0] == phrase[pos];
        assert CodesAt(d, phrase, pos, k) == [];
        NoWaysBy(d, phrase, pos, k);
      }
    }
  }

  lemma NoWaysBy(dict: Dictionary, phrase: string, pos: nat, k: nat)
    requires 0 < k && pos + k <= |phrase|
    ensures WaysBy(dict, phrase, pos, k, 0) == []
  {
  }

  /** The ways have given their entries, and whether they gave any is known. */
  ghost predicate Gave(s: Settings, dict: Dictionary, phrase: string, value: string, pos: nat, chosen: seq<string>, ways: seq<Way>,
                       before: seq<NewEntry>, after: seq<NewEntry>, ret: bool) {
    var entries := EncodedEntries(s, dict, phrase, value, pos, chosen, ways);
    after == before + entries && (ret <==> entries != [])
  }

  lemma GaveNone(s: Settings, dict: Dictionary, phrase: string, value: string, pos: nat, chosen: seq<string>, before: seq<NewEntry>)
    ensures Gave(s, dict, phrase, value, pos, chosen, [], before, before, false)
  {
  }

  lemma GaveMore(s: Settings, dict: Dictionary, phrase: string, value: string, pos: nat, chosen: seq<string>, done: seq<Way>, more: seq<Way>,
                 before: seq<NewEntry>, middle: seq<NewEntry>, after: seq<NewEntry>, ret: bool, ok: bool)
    requires Gave(s, dict, phrase, value, pos, chosen, done, before, middle, ret)
    requires Gave(s, dict, phrase, value, pos, chosen, more, middle, after, ok)
    ensures Gave(s, dict, phrase, value, pos, chosen, done + more, before, after, ret || ok)
  {
    EncodedConcat(s, dict, phrase, value, pos, chosen, done, more);
    hide EncodedEntries;
    Associate(before, EncodedEntries(s, dict, phrase, value, pos, chosen, done), EncodedEntries(s, dict, phrase, value, pos, chosen, more));
  }

  lemma GaveAhead(s: Settings, dict: Dictionary, phrase: string, value: string, pos: nat, chosen: seq<string>, len: nat, n: nat,
                  before: seq<NewEntry>, after: seq<NewEntry>, ok: bool)
    requires 0 < len && pos + len <= |phrase| && n < |CodesAt(dict, phrase, pos, len)|
    requires Gave(s, dict, phrase, value, pos + len, chosen + [CodesAt(dict, phrase, pos, len)[n]], Ways(dict, phrase, pos + len),
                  before, after, ok)
    ensures Gave(s, dict, phrase, value, pos, chosen, Ahead(Piece(len, n), Ways(dict, phrase, pos + len)), before, after, ok)
  {
    hide Ways, EncodedEntries, CodesAt;
    EncodedAhead(s, dict, phrase, value, pos, chosen, Piece(len, n), Ways(dict, phrase, pos + len));
  }

  class TableEncoder {
    const collector: PhraseCollector
    const settings: Settings

    constructor (collector: PhraseCollector, settings: Settings)
      ensures this.collector == collector && this.settings == settings
    {
      this.collector, this.settings := collector, settings;
    }

    ghost function Dict(): Dictionary {
      Characters(settings, collector.dict)
    }

    /** Main result: one entry for every way to choose a code, not excluded, for each character
        that some rule encodes; success exactly if there is one. */
    method EncodePhrase(phrase: string, value: string) returns (ok: bool)
      requires Whole(phrase, 0)
      modifies collector
      ensures var entries := EncodedEntries(settings, Dict(), phrase, value, 0, [], Ways(Dict(), phrase, 0));
              && Once(Ways(Dict(), phrase, 0)) && (forall w :: w in Ways(Dict(), phrase, 0) <==> IsWay(Dict(), phrase, 0, w))
              && collector.created == old(collector.created) + entries && (ok <==> entries != [])
    {
      hide Ways, EncodedEntries, IsWay, TableEncoder.Dict;
      var code := new RawCode();
      WaysExactly(Dict(), phrase);
      ok := DfsEncode(phrase, value, 0, code);
    }

    method DfsEncode(phrase: string, value: string, startPos: nat, code: RawCode) returns (ret: bool)
      requires startPos <= |phrase| && Whole(phrase, startPos)
      modifies code, collector
      ensures code.parts == old(code.parts)
      ensures Gave(settings, Dict(), phrase, value, startPos, code.parts, Ways(Dict(), phrase, startPos),
                   old(collector.created), collector.created, ret)
      decreases |phrase| - startPos, 1
    {
      hide Characters, Gave, WaysBy, WaysUpTo;
      if startPos == |phrase| {
        ret := EncodeWhole(phrase, value, code);
        return;
      }
      OnlyCharacters(settings, collector.dict, phrase, startPos, |phrase| - startPos);
      ret := TryCharacter(phrase, value, startPos, CharLength(phrase[startPos]), code);
    }

    /** The code of the whole phrase is complete. */
    method EncodeWhole(phrase: string, value: string, code: RawCode) returns (ret: bool)
      modifies collector
      ensures Gave(settings, Dict(), phrase, value, |phrase|, code.parts, Ways(Dict(), phrase, |phrase|),
                   old(collector.created), collector.created, ret)
    {
      hide EncodeBy, TableEncoder.Dict, EncodedEntries, Ways;
      OneWay(settings, Dict(), phrase, value, code.parts);
      var encoded := Encode(settings, code.parts);
      ret := encoded.Some?;
      if encoded.Some? {
        collector.CreateEntry(phrase, encoded.value, value);
      }
    }

    /** Tries the codes of the character at `startPos`, but for the excluded ones. */
    method TryCharacter(phrase: string, value: string, startPos: nat, wordLen: nat, code: RawCode) returns (ret: bool)
      requires startPos < |phrase| && wordLen == CharLength(phrase[startPos])
      requires startPos + wordLen <= |phrase| && Whole(phrase, startPos + wordLen)
      modifies code, collector
      ensures code.parts == old(code.parts)
      ensures Gave(settings, Dict(), phrase, value, startPos, code.parts,
                   WaysBy(Dict(), phrase, startPos, wordLen, |CodesAt(Dict(), phrase, startPos, wordLen)|),
                   old(collector.created), collector.created, ret)
      decreases |phrase| - startPos, 0
    {
      hide Whole, Gave, TableEncoder.Dict, Allowed, CodesAt;
      ret := false;
      ghost var chosen := code.parts;
      var translations := Translations(collector.dict, phrase[startPos..startPos + wordLen]);
      CodesAreAllowed(phrase, startPos, wordLen, translations);
      GaveNone(settings, Dict(), phrase, value, startPos, chosen, collector.created);
      for n := 0 to |translations|
        invariant code.parts == chosen
        invariant Gave(settings, Dict(), phrase, value, startPos, chosen,
                       WaysBy(Dict(), phrase, startPos, wordLen, |Allowed(settings, translations[..n])|),
                       old(collector.created), collector.created, ret)
      {
        hide WaysBy;
        AllowedMore(settings, translations, n);
        if translations[n] !in settings.excluded {
          ghost var m, middle := |Allowed(settings, translations[..n])|, collector.created;
          code.Push(translations[n]);
          var ok := DfsEncode(phrase, value, startPos + wordLen, code);
          code.Pop();
          GaveAhead(settings, Dict(), phrase, value, startPos, chosen, wordLen, m, middle, collector.created, ok);
          GaveMore(settings, Dict(), phrase, value, startPos, chosen, WaysBy(Dict(), phrase, startPos, wordLen, m),
                   Ahead(Piece(wordLen, m), Ways(Dict(), phrase, startPos + wordLen)), old(collector.created), middle, collector.created, ret, ok);
          OneMoreCode(Dict(), phrase, startPos, wordLen, m);
          ret := ret || ok;
        }
      }
      assert translations[..|translations|] == translations;
    }

    lemma CodesAreAllowed(phrase: string, pos: nat, len: nat, translations: seq<string>)
      requires pos < |phrase| && len == CharLength(phrase[pos]) && pos + len <= |phrase|
      requires translations == Translations(collector.dict, phrase[pos..pos + len])
      ensures CodesAt(Dict(), phrase, pos, len) == Allowed(settings, translations)
      ensures Allowed(settings, translations[..0]) == [] && WaysBy(Dict(), phrase, pos, len, 0) == []
    {
      CharacterCodes(settings, collector.dict, phrase, pos, len);
      assert translations[..0] == [];
    }
  }

  lemma OneWay(s: Settings, dict: Dictionary, phrase: string, value: string, chosen: seq<string>)
    ensures EncodedEntries(s, dict, phrase, value, |phrase|, chosen, Ways(dict, phrase, |phrase|))
            == match EncodeBy(s, chosen, 0) case None => [] case Some(e) => [NewEntry(phrase, e, value)]
  {
    hide EncodeBy;
    assert chosen + [] == chosen;
    var ways: seq<Way> := [[]];
    assert Ways(dict, phrase, |phrase|) == ways && ways[..0] == [];
  }

  lemma CharacterCodes(s: Settings, dict: Dictionary, phrase: string, pos: nat, len: nat)
    requires pos < |phrase| && len == CharLength(phrase[pos]) && pos + len <= |phrase|
    ensures CodesAt(Characters(s, dict), phrase, pos, len) == Allowed(s, Translations(dict, phrase[pos..pos + len]))
  {
    assert phrase[pos..pos + len][0] == phrase[pos];
  }

  lemma {:induction false} AllowedMore(s: Settings, codes: seq<string>, n: nat)
    requires n < |codes|
    ensures Allowed(s, codes[..n + 1]) == Allowed(s, codes[..n]) + (if codes[n] in s.excluded then [] else [codes[n]])
    ensures Allowed(s, codes[..n + 1]) <= Allowed(s, codes)
    decreases |codes|
  {
    assert codes[..n + 1][..n] == codes[..n];
    if n + 1 == |codes| {
      assert codes[..n + 1] == codes;
    } else {
      var init := codes[..|codes| - 1];
      assert init[..n + 1] == codes[..n + 1] && init[..n] == codes[..n];
      AllowedMore(s, init, n);
    }
  }
}
