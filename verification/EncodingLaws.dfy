/** What the encoders make of a phrase, written out on words, letters and bytes. */
module EncodingLaws {
  import opened Commons
  import opened Spellings
  import opened Encoders
  import opened TableEncoders

  // ----- codes of several words -----

  /** Codes are separated by single spaces. */
  lemma {:induction false} JoinedTells(a: seq<string>, b: seq<string>)
    ensures |a| == 0 ==> Joined(a) == ""
    ensures |a| == 1 ==> Joined(a) == a[0]
    ensures a != [] && b != [] ==> Joined(a + b) == Joined(a) + " " + Joined(b)
  {
    if |a| == 1 && b != [] {
      assert (a + b)[1..] == b;
    } else if |a| > 1 {
      JoinedTells(a[1..], b);
      assert (a + b)[1..] == a[1..] + b;
      if b != [] { assert a[0] + " " + (Joined(a[1..]) + " " + Joined(b)) == a[0] + " " + Joined(a[1..]) + " " + Joined(b); }
    }
  }

  /** Where word number `k` of a way starts. */
  ghost function StartOf(way: Way, k: nat): nat
    requires k <= |way|
  {
    if k == 0 then 0 else StartOf(way, k - 1) + way[k - 1].len
  }

  lemma {:induction false} StartsOn(way: Way, k: nat)
    requires 0 < k <= |way|
    ensures StartOf(way, k) == way[0].len + StartOf(way[1..], k - 1)
  {
    if k > 1 { StartsOn(way, k - 1); }
  }

  /** The codes of a way are those chosen for the words it cuts the phrase into. */
  lemma {:induction false} CodesTell(dict: Dictionary, phrase: string, pos: nat, way: Way, k: nat)
    requires IsWay(dict, phrase, pos, way) && k < |way|
    ensures |CodesOf(dict, phrase, pos, way)| == |way|
    ensures way[k].len > 0 && pos + StartOf(way, k) + way[k].len <= |phrase|
    ensures var word := phrase[pos + StartOf(way, k)..pos + StartOf(way, k) + way[k].len];
            word in dict && way[k].nth < |dict[word]| && CodesOf(dict, phrase, pos, way)[k] == dict[word][way[k].nth]
    decreases |way|
  {
    CodesAreAsMany(dict, phrase, pos, way);
    if k > 0 {
      CodesTell(dict, phrase, pos + way[0].len, way[1..], k - 1);
      StartsOn(way, k);
      hide StartOf;
    }
  }

  lemma {:induction false} CodesAreAsMany(dict: Dictionary, phrase: string, pos: nat, way: Way)
    ensures |CodesOf(dict, phrase, pos, way)| == |way|
    decreases |way|
  {
    if |way| > 0 { CodesAreAsMany(dict, phrase, pos + way[0].len, way[1..]); }
  }

  // ----- the order of the ways -----

  /** Where the ways first part, `a` takes the longer word, or an earlier code of the same word. */
  ghost predicate Precedes(a: Way, b: Way) {
    && a != [] && b != []
    && (a[0].len > b[0].len
        || (a[0].len == b[0].len && (a[0].nth < b[0].nth || (a[0].nth == b[0].nth && Precedes(a[1..], b[1..])))))
  }

  ghost predicate InOrder(ways: seq<Way>) {
    forall i, j :: 0 <= i < j < |ways| ==> Precedes(ways[i], ways[j])
  }

  /** Main result: the ways are tried in order. */
  lemma {:induction false} WaysInOrder(dict: Dictionary, phrase: string, pos: nat)
    requires pos <= |phrase|
    ensures InOrder(Ways(dict, phrase, pos))
    decreases |phrase| - pos, 2, 0
  {
    if pos < |phrase| { UpToInOrder(dict, phrase, pos, |phrase| - pos); }
  }

  lemma {:induction false} UpToInOrder(dict: Dictionary, phrase: string, pos: nat, k: nat)
    requires pos + k <= |phrase|
    ensures InOrder(WaysUpTo(dict, phrase, pos, k))
    decreases |phrase| - pos, 1, k
  {
    if k > 0 {
      var n := |CodesAt(dict, phrase, pos, k)|;
      ByInOrder(dict, phrase, pos, k, n);
      UpToInOrder(dict, phrase, pos, k - 1);
      hide WaysBy, IsWay;
      forall v, w | v in WaysBy(dict, phrase, pos, k, n) && w in WaysUpTo(dict, phrase, pos, k - 1)
        ensures Precedes(v, w)
      {
        WaysByAre(dict, phrase, pos, k, n, v);
        WaysUpToAre(dict, phrase, pos, k - 1, w);
      }
      ConcatInOrder(WaysBy(dict, phrase, pos, k, n), WaysUpTo(dict, phrase, pos, k - 1));
    }
  }

  lemma {:induction false} ByInOrder(dict: Dictionary, phrase: string, pos: nat, k: nat, n: nat)
    requires 0 < k && pos + k <= |phrase| && n <= |CodesAt(dict, phrase, pos, k)|
    ensures InOrder(WaysBy(dict, phrase, pos, k, n))
    decreases |phrase| - pos, 0, n
  {
    if n > 0 {
      hide CodesAt, Ways, IsWay;
      var ways, p := Ways(dict, phrase, pos + k), Piece(k, n - 1);
      ByInOrder(dict, phrase, pos, k, n - 1);
      WaysInOrder(dict, phrase, pos + k);
      AheadInOrder(p, ways);
      hide Ahead;
      forall v, w | v in WaysBy(dict, phrase, pos, k, n - 1) && w in Ahead(p, ways)
        ensures Precedes(v, w)
      {
        WaysByAre(dict, phrase, pos, k, n - 1, v);
        AheadAre(p, ways, w);
      }
      ConcatInOrder(WaysBy(dict, phrase, pos, k, n - 1), Ahead(p, ways));
    }
  }

  lemma AheadInOrder(p: Piece, ways: seq<Way>)
    requires InOrder(ways)
    ensures InOrder(Ahead(p, ways))
  {
    forall i, j | 0 <= i < j < |ways|
      ensures Precedes(Ahead(p, ways)[i], Ahead(p, ways)[j])
    {
      assert ([p] + ways[i])[1..] == ways[i] && ([p] + ways[j])[1..] == ways[j];
    }
  }

  lemma ConcatInOrder(a: seq<Way>, b: seq<Way>)
    requires InOrder(a) && InOrder(b) && forall v, w :: v in a && w in b ==> Precedes(v, w)
    ensures InOrder(a + b)
  {
    hide Precedes;
  }

  // ----- characters and their codes -----

  /** The first byte of a character tells its length. */
  lemma LengthsTell(lead: char)
    ensures 0x00 <= lead as int <= 0x7F ==> CharLength(lead) == 1
    ensures 0xC0 <= lead as int <= 0xDF ==> CharLength(lead) == 2
    ensures 0xE0 <= lead as int <= 0xEF ==> CharLength(lead) == 3
    ensures 0xF0 <= lead as int <= 0xF7 ==> CharLength(lead) == 4
  {
  }

  /** The codes allowed are those that are not excluded, as often and in the same order. */
  lemma {:induction false} AllowedTells(s: Settings, codes: seq<string>, more: seq<string>)
    ensures Allowed(s, codes + more) == Allowed(s, codes) + Allowed(s, more)
    decreases |more|
  {
    if more == [] {
      assert codes + more == codes;
    } else {
      var init, last := more[..|more| - 1], more[|more| - 1];
      assert (codes + more)[..|codes + more| - 1] == codes + init;
      AllowedTells(s, codes, init);
    }
  }

  lemma {:induction false} AllowedExactly(s: Settings, codes: seq<string>, x: string)
    ensures multiset(Allowed(s, codes))[x] == if x in s.excluded then 0 else multiset(codes)[x]
  {
    if codes != [] {
      AllowedExactly(s, codes[..|codes| - 1], x);
      assert codes == codes[..|codes| - 1] + [codes[|codes| - 1]];
    }
  }

  /** The words a table encoder looks up are single characters, by their first bytes. */
  lemma CharactersTell(s: Settings, dict: Dictionary, w: string)
    ensures w in Characters(s, dict) <==> w in dict && w != "" && |w| == CharLength(w[0])
    ensures w in Characters(s, dict) ==> Characters(s, dict)[w] == Allowed(s, dict[w])
  {
  }

  /** The last place before the first tail anchor beyond `start`, or the last place of all. */
  ghost predicate IsTail(code: string, anchor: string, start: nat, tail: int) {
    if exists i :: start < i < |code| && code[i] in anchor
    then start <= tail < |code| - 1 && code[tail + 1] in anchor && forall i :: start < i <= tail ==> code[i] !in anchor
    else tail == |code| - 1
  }

  lemma TailTells(code: string, anchor: string, start: nat)
    ensures IsTail(code, anchor, start, TailOf(code, anchor, start))
  {
    var first := FindFirstOf(code, anchor, start + 1);
    assert first < |code| ==> IsAnchor(anchor, code[first]);
    forall i | start < i < |code| && code[i] in anchor
      ensures first <= i
    {
      assert IsAnchor(anchor, code[i]);
    }
    forall i | start < i < first && i < |code|
      ensures code[i] !in anchor
    {
      assert !IsAnchor(anchor, code[i]);
    }
  }

  // ----- entries -----

  /** A script encoder's entries: for each way one, of its codes with spaces between. */
  lemma EntriesTell(dict: Dictionary, phrase: string, value: string, ways: seq<Way>, i: nat)
    requires i < |ways|
    ensures |Entries(dict, phrase, value, 0, [], ways)| == |ways|
    ensures Entries(dict, phrase, value, 0, [], ways)[i] == NewEntry(phrase, Joined(CodesOf(dict, phrase, 0, ways[i])), value)
  {
    hide Joined, CodesOf;
    assert [] + CodesOf(dict, phrase, 0, ways[i]) == CodesOf(dict, phrase, 0, ways[i]);
  }

  ghost predicate IsEntryOf(s: Settings, dict: Dictionary, phrase: string, value: string, way: Way, e: NewEntry) {
    e.phrase == phrase && e.value == value && EncodeBy(s, CodesOf(dict, phrase, 0, way), 0) == Some(e.codeStr)
  }

  /** A table encoder's entries: for each way that some rule encodes one, of the encoding. */
  lemma {:induction false} EncodedTell(s: Settings, dict: Dictionary, phrase: string, value: string, ways: seq<Way>, e: NewEntry)
    ensures e in EncodedEntries(s, dict, phrase, value, 0, [], ways)
            <==> exists i :: 0 <= i < |ways| && IsEntryOf(s, dict, phrase, value, ways[i], e)
  {
    hide EncodeBy, CodesOf;
    if |ways| > 0 {
      var init, last := ways[..|ways| - 1], ways[|ways| - 1];
      EncodedTell(s, dict, phrase, value, init, e);
      assert [] + CodesOf(dict, phrase, 0, last) == CodesOf(dict, phrase, 0, last);
      if i :| 0 <= i < |init| && IsEntryOf(s, dict, phrase, value, init[i], e) { assert ways[i] == init[i]; }
    }
  }
}
