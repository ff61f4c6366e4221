/** What a table encoder's rules give: the letters of a selection of places, by the first rule that
    selects any. Nothing here speaks of how places are counted out or rules gone through. */
module RuleEncodings {
  import opened Commons
  import opened TableEncoders

  // ----- one place -----

  /** Place `k` has the virtual index `index` in a code. An index from 0 on is told by the encoding
      characters behind the first character up to `k`. A negative one is told by those from `k` to
      the last place before the first tail anchor beyond `start`. */
  ghost predicate HasIndex(code: string, anchor: string, index: int, start: nat, k: int) {
    && 0 <= k < |code|
    && if index >= 0 then
         && Encoding(code, anchor, 1, k + 1) == index
         && (if index == 0 then k == 0 else !IsAnchor(anchor, code[k]))
       else
         var tail := TailOf(code, anchor, start);
         && k <= tail && Encoding(code, anchor, k, tail) == -index - 1
         && (if index == -1 then k == tail else !IsAnchor(anchor, code[k]))
  }

  lemma EncodingHas(code: string, anchor: string, from: int, k: int, end: int)
    requires from <= k < end && 0 <= k < |code| && !IsAnchor(anchor, code[k])
    ensures Encoding(code, anchor, from, end) > Encoding(code, anchor, from, k)
    ensures Encoding(code, anchor, from, end) > Encoding(code, anchor, k + 1, end)
  {
    EncodingSplit(code, anchor, from, k, end);
    EncodingSplit(code, anchor, from, k + 1, end);
    EncodingSplit(code, anchor, k, k + 1, end);
  }

  lemma OneIndexed(code: string, anchor: string, index: int, start: nat, j: int, k: int)
    requires HasIndex(code, anchor, index, start, j) && HasIndex(code, anchor, index, start, k) && j <= k
    ensures j == k
  {
    if j < k {
      if index > 0 {
        EncodingHas(code, anchor, 1, k, k + 1);
        EncodingSplit(code, anchor, 1, j + 1, k);
      } else if index < -1 {
        var tail := TailOf(code, anchor, start);
        EncodingSplit(code, anchor, j, k, tail);
        EncodingHas(code, anchor, j, j, k);
      }
    }
  }

  lemma TailIsInside(code: string, anchor: string, start: nat)
    ensures -1 <= TailOf(code, anchor, start) < |code| && (code != "" ==> TailOf(code, anchor, start) >= 0)
  {
  }

  /** The place counted out, if it is in the code, has the index; if it is not, no place has. */
  lemma CountedHasIndex(code: string, anchor: string, index: int, start: nat)
    ensures var r := CodeIndex(code, anchor, index, start); 0 <= r < |code| ==> HasIndex(code, anchor, index, start, r)
  {
    if index >= 0 {
      ForeCounts(code, anchor, 0, index);
    } else {
      TailIsInside(code, anchor, start);
      BackCounts(code, anchor, TailOf(code, anchor, start), -index - 1);
    }
  }

  lemma NoneBeyond(code: string, anchor: string, index: int, start: nat, k: int)
    requires HasIndex(code, anchor, index, start, k)
    ensures 0 <= CodeIndex(code, anchor, index, start) < |code|
  {
    if index >= 0 {
      ForeCounts(code, anchor, 0, index);
      EncodingSplit(code, anchor, 1, k + 1, |code|);
    } else {
      TailIsInside(code, anchor, start);
      var tail := TailOf(code, anchor, start);
      BackCounts(code, anchor, tail, -index - 1);
      EncodingSplit(code, anchor, 0, k, tail);
    }
  }

  lemma IndexExactly(code: string, anchor: string, index: int, start: nat, k: int)
    ensures 0 <= k < |code| && CodeIndex(code, anchor, index, start) == k <==> HasIndex(code, anchor, index, start, k)
  {
    var r := CodeIndex(code, anchor, index, start);
    CountedHasIndex(code, anchor, index, start);
    if HasIndex(code, anchor, index, start, k) {
      NoneBeyond(code, anchor, index, start, k);
      if r <= k { OneIndexed(code, anchor, index, start, r, k); } else { OneIndexed(code, anchor, index, start, k, r); }
    }
  }

  // ----- one pair of coordinates -----

  /** Coordinates that count from the end, but not the same ones again, lead behind what was
      taken last. */
  predicate Follows(current: Coords, previous: Coords, encoded: Coords, p: Coords) {
    && (current.charIndex < 0 ==> p.charIndex >= encoded.charIndex)
    && ((current.charIndex < 0 || current.codeIndex < 0) && p.charIndex == encoded.charIndex && current != previous
        ==> p.codeIndex > encoded.codeIndex)
  }

  /** The coordinates take the letter at `p`, where `encoded` was taken last, for `previous`. */
  ghost predicate Takes(s: Settings, code: seq<string>, current: Coords, previous: Coords, encoded: Coords, p: Coords) {
    && 0 <= p.charIndex < |code|
    && p.charIndex == (if current.charIndex < 0 then current.charIndex + |code| else current.charIndex)
    && HasIndex(code[p.charIndex], s.tailAnchor, current.codeIndex,
                if p.charIndex == encoded.charIndex && encoded.codeIndex >= 0 then encoded.codeIndex + 1 else 0, p.codeIndex)
    && Follows(current, previous, encoded, p)
  }

  lemma LocateExactly(s: Settings, code: seq<string>, current: Coords, previous: Coords, encoded: Coords, p: Coords)
    requires encoded.codeIndex >= 0
    ensures Locate(s, code, current, previous, encoded) == Some(p) <==> Takes(s, code, current, previous, encoded, p)
  {
    hide HasIndex, CodeIndex;
    if 0 <= p.charIndex < |code| {
      var start := if p.charIndex == encoded.charIndex then encoded.codeIndex + 1 else 0;
      IndexExactly(code[p.charIndex], s.tailAnchor, current.codeIndex, start, p.codeIndex);
    }
  }

  // ----- one rule -----

  /** Coordinate number `i` takes the letter at `at`. */
  datatype Pick = Pick(i: nat, at: Coords)

  /** The coordinates used last before pick `k`. */
  function Previous(coords: seq<Coords>, picks: seq<Pick>, k: nat, previous: Coords): Coords
    requires k <= |picks| && (k > 0 ==> picks[k - 1].i < |coords|)
  {
    if k == 0 then previous else coords[picks[k - 1].i]
  }

  /** The place taken last before pick `k`. */
  function Last(picks: seq<Pick>, k: nat, encoded: Coords): Coords
    requires k <= |picks|
  {
    if k == 0 then encoded else picks[k - 1].at
  }

  /** The picks are of coordinates from `i` on, in order. */
  ghost predicate InOrder(coords: seq<Coords>, i: nat, picks: seq<Pick>) {
    && (forall k :: 0 <= k < |picks| ==> i <= picks[k].i < |coords|)
    && (forall j, k :: 0 <= j < k < |picks| ==> picks[j].i < picks[k].i)
  }

  /** Coordinate `j` comes behind the first `k` picks and before the others. */
  predicate Between(picks: seq<Pick>, k: nat, j: nat) {
    k <= |picks| && (k > 0 ==> picks[k - 1].i < j) && (k < |picks| ==> j < picks[k].i)
  }

  /** Pick `k` takes its letter. */
  ghost predicate PickTakes(s: Settings, code: seq<string>, coords: seq<Coords>, previous: Coords, encoded: Coords,
                            picks: seq<Pick>, k: nat) {
    && k < |picks| && picks[k].i < |coords| && (k > 0 ==> picks[k - 1].i < |coords|)
    && Takes(s, code, coords[picks[k].i], Previous(coords, picks, k, previous), Last(picks, k, encoded), picks[k].at)
  }

  /** Coordinate `j`, met behind `k` picks, could not take any letter. */
  ghost predicate TakesNone(s: Settings, code: seq<string>, coords: seq<Coords>, previous: Coords, encoded: Coords,
                            picks: seq<Pick>, k: nat, j: nat) {
    && k <= |picks| && j < |coords| && (k > 0 ==> picks[k - 1].i < |coords|)
    && forall p :: !Takes(s, code, coords[j], Previous(coords, picks, k, previous), Last(picks, k, encoded), p)
  }

  /** The picks are the selection that the coordinates from `i` on make: each pick takes its letter
      in view of the one before, and a coordinate passed over could not take any. */
  ghost predicate Selects(s: Settings, code: seq<string>, coords: seq<Coords>, i: nat, previous: Coords, encoded: Coords, picks: seq<Pick>) {
    && InOrder(coords, i, picks)
    && (forall k: nat :: k < |picks| ==> PickTakes(s, code, coords, previous, encoded, picks, k))
    && (forall k: nat, j: nat :: i <= j < |coords| && Between(picks, k, j)
          ==> TakesNone(s, code, coords, previous, encoded, picks, k, j))
  }

  lemma PicksNeedRoom(coords: seq<Coords>, i: nat, picks: seq<Pick>)
    ensures InOrder(coords, i, picks) && picks != [] ==> i < |coords|
  {
    if InOrder(coords, i, picks) && picks != [] {
      assert i <= picks[0].i;
    }
  }

  lemma NothingToSelect(s: Settings, code: seq<string>, coords: seq<Coords>, previous: Coords, encoded: Coords, picks: seq<Pick>)
    ensures Selects(s, code, coords, |coords|, previous, encoded, picks) <==> picks == []
  {
    PicksNeedRoom(coords, |coords|, picks);
  }

  /** Passing over a coordinate that can take nothing. */
  lemma SelectsOn(s: Settings, code: seq<string>, coords: seq<Coords>, i: nat, previous: Coords, encoded: Coords, picks: seq<Pick>)
    requires i < |coords| && forall p :: !Takes(s, code, coords[i], previous, encoded, p)
    ensures Selects(s, code, coords, i, previous, encoded, picks) <==> Selects(s, code, coords, i + 1, previous, encoded, picks)
  {
    hide Takes;
    if Selects(s, code, coords, i, previous, encoded, picks) && picks != [] {
      assert PickTakes(s, code, coords, previous, encoded, picks, 0);
    }
  }

  /** What comes behind the first pick is met in view of it. */
  lemma Shift(coords: seq<Coords>, i: nat, previous: Coords, encoded: Coords, c: Coords, rest: seq<Pick>, k: nat)
    requires i < |coords| && k <= |rest| && (k > 0 ==> rest[k - 1].i < |coords|)
    ensures Previous(coords, [Pick(i, c)] + rest, k + 1, previous) == Previous(coords, rest, k, coords[i])
    ensures Last([Pick(i, c)] + rest, k + 1, encoded) == Last(rest, k, c)
    ensures k < |rest| ==> ([Pick(i, c)] + rest)[k + 1] == rest[k]
  {
  }

  lemma ShiftPick(s: Settings, code: seq<string>, coords: seq<Coords>, i: nat, previous: Coords, encoded: Coords, c: Coords,
                  rest: seq<Pick>, k: nat)
    requires i < |coords| && k < |rest| && forall m :: 0 <= m < |rest| ==> rest[m].i < |coords|
    ensures PickTakes(s, code, coords, previous, encoded, [Pick(i, c)] + rest, k + 1) == PickTakes(s, code, coords, coords[i], c, rest, k)
  {
    hide Takes, Previous, Last;
    Shift(coords, i, previous, encoded, c, rest, k);
  }

  lemma ShiftNone(s: Settings, code: seq<string>, coords: seq<Coords>, i: nat, previous: Coords, encoded: Coords, c: Coords,
                  rest: seq<Pick>, k: nat, j: nat)
    requires i < j < |coords| && k <= |rest| && forall m :: 0 <= m < |rest| ==> rest[m].i < |coords|
    ensures TakesNone(s, code, coords, previous, encoded, [Pick(i, c)] + rest, k + 1, j)
            == TakesNone(s, code, coords, coords[i], c, rest, k, j)
    ensures Between([Pick(i, c)] + rest, k + 1, j) == Between(rest, k, j)
  {
    hide Takes, Previous, Last;
    Shift(coords, i, previous, encoded, c, rest, k);
  }

  lemma SelectsBehind(s: Settings, code: seq<string>, coords: seq<Coords>, i: nat, previous: Coords, encoded: Coords, c: Coords, rest: seq<Pick>)
    requires i < |coords| && Takes(s, code, coords[i], previous, encoded, c)
    requires Selects(s, code, coords, i, previous, encoded, [Pick(i, c)] + rest)
    ensures Selects(s, code, coords, i + 1, coords[i], c, rest)
  {
    hide Takes, PickTakes, TakesNone, Between;
    var picks := [Pick(i, c)] + rest;
    forall k: nat | k < |rest| ensures i < rest[k].i < |coords| {
      assert picks[0].i < picks[k + 1].i;
    }
    forall j, k | 0 <= j < k < |rest| ensures rest[j].i < rest[k].i {
      assert picks[j + 1].i < picks[k + 1].i;
    }
    forall k: nat | k < |rest| ensures PickTakes(s, code, coords, coords[i], c, rest, k) {
      ShiftPick(s, code, coords, i, previous, encoded, c, rest, k);
    }
    BetweenIsWithin(rest);
    forall k: nat, j: nat | i + 1 <= j < |coords| && Between(rest, k, j) ensures TakesNone(s, code, coords, coords[i], c, rest, k, j) {
      ShiftNone(s, code, coords, i, previous, encoded, c, rest, k, j);
    }
  }

  lemma BetweenIsWithin(picks: seq<Pick>)
    ensures forall k: nat, j: nat :: Between(picks, k, j) ==> k <= |picks|
  {
  }

  lemma SelectsWith(s: Settings, code: seq<string>, coords: seq<Coords>, i: nat, previous: Coords, encoded: Coords, c: Coords, rest: seq<Pick>)
    requires i < |coords| && Takes(s, code, coords[i], previous, encoded, c)
    requires Selects(s, code, coords, i + 1, coords[i], c, rest)
    ensures Selects(s, code, coords, i, previous, encoded, [Pick(i, c)] + rest)
  {
    hide Takes;
    var picks := [Pick(i, c)] + rest;
    forall k: nat | k < |picks| ensures PickTakes(s, code, coords, previous, encoded, picks, k) {
      hide TakesNone, Between;
      if k > 0 { ShiftPick(s, code, coords, i, previous, encoded, c, rest, k - 1); }
    }
    forall k: nat, j: nat | i <= j < |coords| && Between(picks, k, j)
      ensures TakesNone(s, code, coords, previous, encoded, picks, k, j)
    {
      hide PickTakes, TakesNone;
      assert k > 0;
      assert k > 1 ==> picks[k - 1] == rest[k - 2];
      ShiftNone(s, code, coords, i, previous, encoded, c, rest, k - 1, j);
    }
  }

  /** The picks made by going through the coordinates. */
  ghost function Picked(s: Settings, code: seq<string>, coords: seq<Coords>, i: nat, previous: Coords, encoded: Coords): seq<Pick>
    requires i <= |coords| && encoded.codeIndex >= 0
    decreases |coords| - i
  {
    if i == |coords| then []
    else
      match Locate(s, code, coords[i], previous, encoded)
      case None => Picked(s, code, coords, i + 1, previous, encoded)
      case Some(c) => [Pick(i, c)] + Picked(s, code, coords, i + 1, coords[i], c)
  }

  /** Of all sequences of picks exactly one is the selection. */
  lemma {:induction false} SelectedIsPicked(s: Settings, code: seq<string>, coords: seq<Coords>, i: nat, previous: Coords, encoded: Coords,
                                            picks: seq<Pick>)
    requires i <= |coords| && encoded.codeIndex >= 0
    ensures Selects(s, code, coords, i, previous, encoded, picks) <==> picks == Picked(s, code, coords, i, previous, encoded)
    decreases |coords| - i
  {
    hide Locate, Takes, Selects;
    if i == |coords| {
      NothingToSelect(s, code, coords, previous, encoded, picks);
    } else {
      forall p ensures Locate(s, code, coords[i], previous, encoded) == Some(p) <==> Takes(s, code, coords[i], previous, encoded, p) {
        LocateExactly(s, code, coords[i], previous, encoded, p);
      }
      match Locate(s, code, coords[i], previous, encoded)
      case None =>
        SelectsOn(s, code, coords, i, previous, encoded, picks);
        SelectedIsPicked(s, code, coords, i + 1, previous, encoded, picks);
      case Some(c) =>
        var rest := Picked(s, code, coords, i + 1, coords[i], c);
        SelectedIsPicked(s, code, coords, i + 1, coords[i], c, rest);
        SelectsWith(s, code, coords, i, previous, encoded, c, rest);
        if Selects(s, code, coords, i, previous, encoded, picks) {
          FirstPick(s, code, coords, i, previous, encoded, c, picks);
          assert picks == [Pick(i, c)] + picks[1..];
          SelectsBehind(s, code, coords, i, previous, encoded, c, picks[1..]);
          SelectedIsPicked(s, code, coords, i + 1, coords[i], c, picks[1..]);
        }
    }
  }

  lemma FirstPick(s: Settings, code: seq<string>, coords: seq<Coords>, i: nat, previous: Coords, encoded: Coords, c: Coords, picks: seq<Pick>)
    requires i < |coords| && Selects(s, code, coords, i, previous, encoded, picks)
    requires forall p :: p == c <==> Takes(s, code, coords[i], previous, encoded, p)
    ensures picks != [] && picks[0] == Pick(i, c)
  {
    hide Takes;
    assert Takes(s, code, coords[i], Previous(coords, picks, 0, previous), Last(picks, 0, encoded), c);
    assert !TakesNone(s, code, coords, previous, encoded, picks, 0, i);
    assert !Between(picks, 0, i);
    assert PickTakes(s, code, coords, previous, encoded, picks, 0);
  }

  function LetterAt(code: seq<string>, p: Coords): char {
    if 0 <= p.charIndex < |code| && 0 <= p.codeIndex < |code[p.charIndex]| then code[p.charIndex][p.codeIndex] else ' '
  }

  /** The text has the letters at the places picked. */
  ghost predicate Spells(code: seq<string>, picks: seq<Pick>, text: string) {
    |text| == |picks| && forall k :: 0 <= k < |picks| ==> text[k] == LetterAt(code, picks[k].at)
  }

  lemma {:induction false} PickedSpells(s: Settings, code: seq<string>, coords: seq<Coords>, i: nat, previous: Coords, encoded: Coords)
    requires i <= |coords| && encoded.codeIndex >= 0
    ensures Spells(code, Picked(s, code, coords, i, previous, encoded), EncodeFrom(s, code, coords, i, previous, encoded))
    decreases |coords| - i
  {
    hide Locate;
    if i < |coords| {
      match Locate(s, code, coords[i], previous, encoded)
      case None => PickedSpells(s, code, coords, i + 1, previous, encoded);
      case Some(c) => PickedSpells(s, code, coords, i + 1, coords[i], c);
    }
  }

  /** The text is what the coordinates of a rule select. */
  ghost predicate IsEncoding(s: Settings, code: seq<string>, coords: seq<Coords>, text: string) {
    exists picks :: Selects(s, code, coords, 0, Coords(0, 0), Coords(0, 0), picks) && Spells(code, picks, text)
  }

  /** A rule has exactly one encoding of a code: the letters of the one selection. */
  lemma RuleExactly(s: Settings, code: seq<string>, coords: seq<Coords>, text: string)
    ensures IsEncoding(s, code, coords, text) <==> text == EncodeFrom(s, code, coords, 0, START, START)
  {
    hide Selects, Picked, EncodeFrom;
    var picks, result := Picked(s, code, coords, 0, START, START), EncodeFrom(s, code, coords, 0, START, START);
    PickedSpells(s, code, coords, 0, START, START);
    SelectedIsPicked(s, code, coords, 0, START, START, picks);
    if IsEncoding(s, code, coords, text) {
      var some :| Selects(s, code, coords, 0, START, START, some) && Spells(code, some, text);
      SelectedIsPicked(s, code, coords, 0, START, START, some);
      assert text == result;
    }
  }

  // ----- all rules -----

  /** A rule is for words of this length, and gives an encoding that is not empty. */
  ghost predicate Gives(s: Settings, code: seq<string>, rule: Rule, text: string) {
    rule.minWordLength <= |code| <= rule.maxWordLength && text != "" && IsEncoding(s, code, rule.coords, text)
  }

  ghost predicate GivesNone(s: Settings, code: seq<string>, rule: Rule) {
    forall text :: !Gives(s, code, rule, text)
  }

  /** Rule `r` is the first that gives anything, and gives the text. */
  ghost predicate FirstGives(s: Settings, code: seq<string>, from: nat, r: nat, text: string) {
    && from <= r < |s.rules| && Gives(s, code, s.rules[r], text)
    && forall q :: from <= q < r ==> GivesNone(s, code, s.rules[q])
  }

  lemma GivesExactly(s: Settings, code: seq<string>, rule: Rule, text: string)
    ensures Gives(s, code, rule, text)
            <==> Applies(rule, code) && text != "" && text == EncodeFrom(s, code, rule.coords, 0, START, START)
  {
    hide IsEncoding, EncodeFrom;
    RuleExactly(s, code, rule.coords, text);
  }

  lemma LaterGives(s: Settings, code: seq<string>, i: nat, next: nat, text: string)
    requires next == i + 1 && i < |s.rules| && GivesNone(s, code, s.rules[i])
    ensures (exists r: nat :: FirstGives(s, code, i, r, text)) <==> (exists r: nat :: FirstGives(s, code, next, r, text))
  {
    hide Gives;
    if exists r: nat :: FirstGives(s, code, i, r, text) {
      var r: nat :| FirstGives(s, code, i, r, text);
      assert FirstGives(s, code, next, r, text);
    }
    if exists r: nat :: FirstGives(s, code, next, r, text) {
      var r: nat :| FirstGives(s, code, next, r, text);
      assert FirstGives(s, code, i, r, text);
    }
  }

  lemma {:induction false} FirstFrom(s: Settings, code: seq<string>, i: nat, text: string)
    requires i <= |s.rules|
    ensures EncodeBy(s, code, i) == Some(text) <==> exists r: nat :: FirstGives(s, code, i, r, text)
    ensures EncodeBy(s, code, i) == None ==> forall q :: i <= q < |s.rules| ==> GivesNone(s, code, s.rules[q])
    decreases |s.rules| - i
  {
    hide Gives, EncodeFrom;
    if i < |s.rules| {
      var rule := s.rules[i];
      var result := EncodeFrom(s, code, rule.coords, 0, START, START);
      forall t ensures Gives(s, code, rule, t) <==> Applies(rule, code) && t != "" && t == result { GivesExactly(s, code, rule, t); }
      FirstFrom(s, code, i + 1, text);
      if Applies(rule, code) && result != "" {
        assert Gives(s, code, rule, result);
        assert FirstGives(s, code, i, i, result);
        assert !GivesNone(s, code, rule);
      } else {
        assert GivesNone(s, code, rule);
        LaterGives(s, code, i, i + 1, text);
      }
    }
  }

  /** Main result: a text is the encoding exactly if the first rule that gives anything gives it;
      there is none exactly if no rule gives anything. */
  lemma EncodedExactly(s: Settings, code: seq<string>)
    ensures forall text :: EncodeBy(s, code, 0) == Some(text) <==> exists r: nat :: FirstGives(s, code, 0, r, text)
    ensures EncodeBy(s, code, 0) == None <==> forall r :: 0 <= r < |s.rules| ==> GivesNone(s, code, s.rules[r])
  {
    hide GivesNone, Gives, EncodeBy;
    forall text ensures EncodeBy(s, code, 0) == Some(text) <==> exists r: nat :: FirstGives(s, code, 0, r, text) {
      FirstFrom(s, code, 0, text);
    }
    FirstFrom(s, code, 0, "");
    if EncodeBy(s, code, 0).Some? {
      var r: nat :| FirstGives(s, code, 0, r, EncodeBy(s, code, 0).value);
      GivesIsGiven(s, code, s.rules[r], EncodeBy(s, code, 0).value);
    }
  }

  lemma GivesIsGiven(s: Settings, code: seq<string>, rule: Rule, text: string)
    requires Gives(s, code, rule, text)
    ensures !GivesNone(s, code, rule)
  {
  }
}
