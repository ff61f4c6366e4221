/** Showing each text only once: by merging candidates, or by dropping repeats. */
module Uniquifiers {
  import opened Commons
  import opened Spellings
  import opened Candidates
  import opened Menus

  // ----- merging -----

  /** The candidates that one listed candidate stands for. */
  function Members(c: Candidate): seq<Candidate> {
    match c
    case Plain(_, _, _, _, _) => [c]
    case Uniquified(_, _, _, items) => items
  }

  function AsUniquified(c: Candidate): Candidate {
    if c.Uniquified? then c else Uniquified(c.start, c.end, c.quality, [c])
  }

  function Append(c: Candidate, item: Candidate): Candidate
    requires c.Uniquified?
  {
    Uniquified(c.start, c.end, if c.quality < item.quality then item.quality else c.quality, c.items + [item])
  }

  /** A merged candidate has a first item to show, and the quality of its best one. */
  ghost predicate Sound(c: Candidate) {
    c.Uniquified? ==>
      && |c.items| > 0
      && (forall i :: i in c.items ==> i.Plain? && i.Text() == c.Text() && i.quality <= c.quality)
      && (exists i :: i in c.items && i.quality == c.quality)
  }

  ghost predicate DistinctTexts(list: seq<Candidate>) {
    forall i, j :: 0 <= i < j < |list| ==> list[i].Text() != list[j].Text()
  }

  /** The first candidate of the list with a text, or the end. */
  function Place(list: seq<Candidate>, text: string): (j: nat)
    ensures j <= |list|
    ensures j < |list| ==> list[j].Text() == text
    ensures forall i :: 0 <= i < j ==> list[i].Text() != text
  {
    if |list| == 0 || list[0].Text() == text then 0 else 1 + Place(list[1..], text)
  }

  function Merged(recruited: seq<Candidate>, c: Candidate): seq<Candidate> {
    var j := Place(recruited, c.Text());
    if j == |recruited| then recruited else recruited[j := Append(AsUniquified(recruited[j]), c)]
  }

  function MergedAll(recruited: seq<Candidate>, cs: seq<Candidate>): seq<Candidate>
    decreases |cs|
  {
    if |cs| == 0 then recruited else MergedAll(Merged(recruited, cs[0]), cs[1..])
  }

  /** The candidates whose text is not in the list yet. */
  function New(recruited: seq<Candidate>, cs: seq<Candidate>): seq<Candidate>
    decreases |cs|
  {
    if |cs| == 0 then []
    else
      (if Place(recruited, cs[0].Text()) == |recruited| then [cs[0]] else []) + New(Merged(recruited, cs[0]), cs[1..])
  }

  /** Merges the candidates into the list that have a text it shows already. */
  method Apply(recruited: seq<Candidate>, candidates: seq<Candidate>) returns (r: seq<Candidate>, left: seq<Candidate>)
    ensures r == MergedAll(recruited, candidates) && left == New(recruited, candidates)
  {
    r, left := recruited, candidates;
    var i := 0;
    while i < |left|
      invariant i <= |left|
      invariant MergedAll(r, left[i..]) == MergedAll(recruited, candidates)
      invariant left[..i] + New(r, left[i..]) == New(recruited, candidates)
      decreases |left| - i
    {
      hide MergedAll, New, Merged, Append, AsUniquified, Place;
      MergeOne(r, left, i);
      var j := FindPlace(r, left[i].Text());
      if j < |r| {
        r := r[j := Append(AsUniquified(r[j]), left[i])];
        left := left[..i] + left[i + 1..];
      } else {
        i := i + 1;
      }
    }
    assert left[..i] + [] == left;
  }

  lemma MergeHead(r: seq<Candidate>, cs: seq<Candidate>)
    requires |cs| > 0
    ensures var j := Place(r, cs[0].Text());
            && (j == |r| ==> MergedAll(r, cs) == MergedAll(r, cs[1..]) && New(r, cs) == [cs[0]] + New(r, cs[1..]))
            && (j < |r| ==>
                  var m := r[j := Append(AsUniquified(r[j]), cs[0])];
                  MergedAll(r, cs) == MergedAll(m, cs[1..]) && New(r, cs) == New(m, cs[1..]))
  {
    hide Append, AsUniquified;
  }

  lemma MergeOne(r: seq<Candidate>, left: seq<Candidate>, i: nat)
    requires i < |left|
    ensures var j := Place(r, left[i].Text());
            var less := left[..i] + left[i + 1..];
            && (j == |r| ==> MergedAll(r, left[i..]) == MergedAll(r, left[i + 1..]))
            && (j == |r| ==> left[..i] + New(r, left[i..]) == left[..i + 1] + New(r, left[i + 1..]))
            && (j < |r| ==>
                  var m := r[j := Append(AsUniquified(r[j]), left[i])];
                  && MergedAll(r, left[i..]) == MergedAll(m, less[i..])
                  && less[..i] == left[..i] && New(r, left[i..]) == New(m, less[i..]))
  {
    hide *;
    Around(left, i);
    MergeHead(r, left[i..]);
    Associate(left[..i], [left[i]], New(r, left[i + 1..]));
  }

  lemma Around(left: seq<Candidate>, i: nat)
    requires i < |left|
    ensures left[i..] != [] && left[i..][0] == left[i] && left[i..][1..] == left[i + 1..] && left[..i + 1] == left[..i] + [left[i]]
    ensures var less := left[..i] + left[i + 1..]; less[i..] == left[i + 1..] && less[..i] == left[..i]
  {
  }

  method FindPlace(list: seq<Candidate>, text: string) returns (j: nat)
    ensures j == Place(list, text)
  {
    j := 0;
    while j < |list| && list[j].Text() != text
      invariant j <= |list| && forall i :: 0 <= i < j ==> list[i].Text() != text
    {
      j := j + 1;
    }
    PlaceIs(list, text, j);
  }

  lemma PlaceIs(list: seq<Candidate>, text: string, j: nat)
    requires j <= |list| && (j < |list| ==> list[j].Text() == text)
    requires forall i :: 0 <= i < j ==> list[i].Text() != text
    ensures j == Place(list, text)
  {
  }

  // ----- what merging keeps -----

  ghost predicate ListIsSound(list: seq<Candidate>) {
    DistinctTexts(list) && forall c :: c in list ==> Sound(c)
  }

  ghost function AllMembers(list: seq<Candidate>): multiset<Candidate> {
    if |list| == 0 then multiset{} else multiset(Members(list[0])) + AllMembers(list[1..])
  }

  lemma AppendIsSound(c: Candidate, item: Candidate)
    requires Sound(c) && item.Plain? && item.Text() == c.Text()
    ensures var u := Append(AsUniquified(c), item); Sound(u) && u.Text() == c.Text() && Members(u) == Members(c) + [item]
  {
    var a := AsUniquified(c);
    var u := Append(a, item);
    assert a.Text() == c.Text();
    assert u.items[0] == a.items[0];
    var best := if a.quality < item.quality then item else (var i :| i in a.items && i.quality == a.quality; i);
    assert best in u.items;
  }

  lemma {:induction false} MembersUpdate(list: seq<Candidate>, j: nat, u: Candidate, item: Candidate)
    requires j < |list| && Members(u) == Members(list[j]) + [item]
    ensures AllMembers(list[j := u]) == AllMembers(list) + multiset{item}
  {
    if j > 0 {
      assert list[j := u][1..] == list[1..][j - 1 := u];
      MembersUpdate(list[1..], j - 1, u, item);
    } else {
      assert list[0 := u][1..] == list[1..];
    }
  }

  lemma {:induction false} MembersAppend(list: seq<Candidate>, c: Candidate)
    ensures AllMembers(list + [c]) == AllMembers(list) + multiset(Members(c))
  {
    if |list| == 0 {
      assert list + [c] == [c];
    } else {
      assert (list + [c])[1..] == list[1..] + [c];
      MembersAppend(list[1..], c);
    }
  }

  /** The list after one more candidate. */
  function Listed(recruited: seq<Candidate>, c: Candidate): seq<Candidate> {
    Merged(recruited, c) + New(recruited, [c])
  }

  lemma AddedIsSound(recruited: seq<Candidate>, c: Candidate)
    requires ListIsSound(recruited) && c.Plain? && Place(recruited, c.Text()) == |recruited|
    ensures ListIsSound(recruited + [c])
    ensures AllMembers(recruited + [c]) == AllMembers(recruited) + multiset{c}
  {
    MembersAppend(recruited, c);
  }

  lemma MergedIsSound(recruited: seq<Candidate>, c: Candidate, j: nat)
    requires ListIsSound(recruited) && c.Plain? && j < |recruited| && recruited[j].Text() == c.Text()
    ensures var list := recruited[j := Append(AsUniquified(recruited[j]), c)];
            ListIsSound(list) && AllMembers(list) == AllMembers(recruited) + multiset{c}
  {
    assert recruited[j] in recruited;
    AppendIsSound(recruited[j], c);
    hide Sound, Append, AsUniquified;
    MembersUpdate(recruited, j, Append(AsUniquified(recruited[j]), c), c);
  }

  /** Main result: with the uniquifier as the filter, a recruited candidate is either listed or
      merged into the one with its text; texts stay distinct, a merged candidate has the best
      quality of its members, and no candidate is lost or doubled. */
  lemma ListedIsSound(recruited: seq<Candidate>, c: Candidate)
    requires ListIsSound(recruited) && c.Plain?
    ensures ListIsSound(Listed(recruited, c))
    ensures AllMembers(Listed(recruited, c)) == AllMembers(recruited) + multiset{c}
  {
    var j := Place(recruited, c.Text());
    assert [c][1..] == [];
    MergeHead(recruited, [c]);
    hide ListIsSound, AllMembers, Append, AsUniquified, Place;
    if j == |recruited| {
      AddedIsSound(recruited, c);
      assert New(recruited, []) == [];
      assert Listed(recruited, c) == recruited + [c];
    } else {
      MergedIsSound(recruited, c, j);
      assert New(Merged(recruited, c), []) == [];
      assert Listed(recruited, c) == Merged(recruited, c);
    }
  }

  /** A candidate with a listed text joins the first that shows it, behind the items that one stands
      for; the place stays, and the quality is the larger one. Any other changes nothing. */
  lemma MergedTells(recruited: seq<Candidate>, c: Candidate, j: nat)
    requires j <= |recruited| && forall i :: 0 <= i < j ==> recruited[i].Text() != c.Text()
    ensures j == |recruited| ==> Merged(recruited, c) == recruited && New(recruited, [c]) == [c]
    ensures j < |recruited| && recruited[j].Text() == c.Text() ==>
              New(recruited, [c]) == [] && JoinsAt(recruited, c, j, Merged(recruited, c))
  {
    assert [c][1..] == [];
    if j < |recruited| { AppendTells(recruited[j], c); }
    hide Append, AsUniquified, HasJoined;
    assert New(Merged(recruited, c), []) == [];
    if j == |recruited| || recruited[j].Text() == c.Text() { PlaceIs(recruited, c.Text(), j); }
    hide Place;
  }

  ghost predicate JoinsAt(recruited: seq<Candidate>, c: Candidate, j: nat, after: seq<Candidate>)
    requires j < |recruited|
  {
    && |after| == |recruited| && (forall i :: 0 <= i < |recruited| && i != j ==> after[i] == recruited[i])
    && HasJoined(recruited[j], c, after[j])
  }

  ghost predicate HasJoined(was: Candidate, c: Candidate, u: Candidate) {
    && u.Uniquified? && u.start == was.start && u.end == was.end
    && u.items == (if was.Uniquified? then was.items else [was]) + [c]
    && u.quality >= was.quality && u.quality >= c.quality && (u.quality == was.quality || u.quality == c.quality)
  }

  lemma AppendTells(a: Candidate, c: Candidate)
    ensures HasJoined(a, c, Append(AsUniquified(a), c))
  {
  }

  lemma {:induction false} PlaceSame(a: seq<Candidate>, b: seq<Candidate>, text: string)
    requires Texts(a) == Texts(b)
    ensures Place(a, text) == Place(b, text)
  {
    var j := Place(a, text);
    assert forall i :: 0 <= i < |a| ==> a[i].Text() == Texts(a)[i];
    assert forall i :: 0 <= i < |b| ==> b[i].Text() == Texts(b)[i];
    PlaceIs(b, text, j);
  }

  /** Of several candidates, those are left whose text is not listed, in order. */
  lemma {:induction false} NewTells(recruited: seq<Candidate>, a: seq<Candidate>, b: seq<Candidate>)
    ensures New(recruited, a + b) == New(recruited, a) + New(recruited, b)
    decreases |a|
  {
    hide *;
    if a == [] {
      NewNone(recruited, b);
    } else {
      var c, rest := a[0], a[1..];
      NewTells(Merged(recruited, c), rest, b);
      NewOneMore(recruited, c, rest, b);
      Headed(a, b);
    }
  }

  lemma Headed(a: seq<Candidate>, b: seq<Candidate>)
    requires a != []
    ensures [a[0]] + a[1..] == a && [a[0]] + (a[1..] + b) == a + b
  {
  }

  lemma NewNone(recruited: seq<Candidate>, b: seq<Candidate>)
    ensures New(recruited, [] + b) == New(recruited, []) + New(recruited, b)
  {
    assert [] + b == b;
    assert New(recruited, []) == [];
    hide New;
  }

  lemma NewOneMore(recruited: seq<Candidate>, c: Candidate, a: seq<Candidate>, b: seq<Candidate>)
    requires var after := Merged(recruited, c); New(after, a + b) == New(after, a) + New(after, b)
    ensures New(recruited, [c] + (a + b)) == New(recruited, [c] + a) + New(recruited, b)
  {
    var after := Merged(recruited, c);
    assert Texts(after) == Texts(recruited);
    hide *;
    NewSame(recruited, after, b);
    NewHead(recruited, c, a);
    NewHead(recruited, c, a + b);
    Associate(New(recruited, [c]), New(after, a), New(after, b));
  }

  lemma NewHead(recruited: seq<Candidate>, c: Candidate, rest: seq<Candidate>)
    ensures New(recruited, [c] + rest) == New(recruited, [c]) + New(Merged(recruited, c), rest)
  {
    hide Merged, Place;
    assert [c][1..] == [] && ([c] + rest)[1..] == rest && ([c] + rest)[0] == c;
  }

  lemma {:induction false} NewSame(r: seq<Candidate>, q: seq<Candidate>, cs: seq<Candidate>)
    requires Texts(r) == Texts(q)
    ensures New(r, cs) == New(q, cs)
    decreases |cs|
  {
    if cs != [] {
      PlaceSame(r, q, cs[0].Text());
      assert Texts(Merged(r, cs[0])) == Texts(r) && Texts(Merged(q, cs[0])) == Texts(q);
      NewSame(Merged(r, cs[0]), Merged(q, cs[0]), cs[1..]);
    }
  }

  // ----- a menu that merges -----

  const UNIQUIFIER: CandidateFilter := (recruited, next) => (MergedAll(recruited, next), New(recruited, next))

  lemma FilteredIsListed(recruited: seq<Candidate>, c: Candidate)
    ensures Filtered(Some(UNIQUIFIER), recruited, [c]) == Listed(recruited, c)
  {
    assert [c][1..] == [];
    assert MergedAll(Merged(recruited, c), []) == Merged(recruited, c);
  }

  ghost predicate AllPlain(ts: seq<Translation>) {
    forall t, c :: t in ts && c in t ==> c.Plain?
  }

  lemma RecruitUnique(s: State, k: nat)
    requires ListIsSound(s.candidates) && AllPlain(s.translations) && k < |s.translations|
    ensures var r := Recruit(Some(UNIQUIFIER), s, k);
            && ListIsSound(r.candidates)
            && AllMembers(r.candidates) + LeftMembers(r.translations) == AllMembers(s.candidates) + LeftMembers(s.translations)
  {
    hide ListIsSound, AllMembers, Listed, LeftMembers;
    var ts := s.translations;
    if |ts[k]| == 0 {
      LeftMembersSplit(ts, k);
    } else {
      assert ts[k] in ts && ts[k][0] in ts[k];
      FilteredIsListed(s.candidates, ts[k][0]);
      ListedIsSound(s.candidates, ts[k][0]);
      LeftMembersStep(ts, k);
    }
  }

  lemma RecruitPlain(s: State, k: nat)
    requires AllPlain(s.translations) && k < |s.translations|
    ensures AllPlain(Recruit(Some(UNIQUIFIER), s, k).translations)
  {
    var ts := s.translations;
    assert ts[k] in ts;
    if |ts[k]| > 0 { assert forall c :: c in ts[k][1..] ==> c in ts[k]; }
  }

  /** Main result: a menu that merges lists every text once, and everything recruited is in the
      list, as itself or as a member of a merged candidate. */
  lemma {:induction false} UniqueMenu(compare: Comparator, s: State, n: nat)
    requires ListIsSound(s.candidates) && AllPlain(s.translations)
    ensures var r := Prepared(compare, Some(UNIQUIFIER), s, n);
            && ListIsSound(r.candidates)
            && AllMembers(r.candidates) + LeftMembers(r.translations) == AllMembers(s.candidates) + LeftMembers(s.translations)
    decreases Left(s.translations)
  {
    hide ListIsSound, AllMembers, LeftMembers, AllPlain, Recruit;
    var k := Winner(compare, s, 0);
    if !(|s.candidates| >= n || k == |s.translations|) {
      RecruitUses(Some(UNIQUIFIER), s, k);
      RecruitUnique(s, k);
      RecruitPlain(s, k);
      UniqueMenu(compare, Recruit(Some(UNIQUIFIER), s, k), n);
    }
  }

  // ----- its pages -----

  lemma {:induction false} MergingKeepsTexts(recruited: seq<Candidate>, cs: seq<Candidate>)
    ensures Texts(MergedAll(recruited, cs)) == Texts(recruited)
    decreases |cs|
  {
    if |cs| > 0 {
      MergingKeepsTexts(Merged(recruited, cs[0]), cs[1..]);
      assert Texts(Merged(recruited, cs[0])) == Texts(recruited);
    }
  }

  /** Merging changes what a listed candidate holds, and not what it shows. */
  lemma UniquifierIsStable()
    ensures Stable(Some(UNIQUIFIER))
  {
    forall c, n
      ensures Texts(UNIQUIFIER(c, n).0) == Texts(c)
    {
      MergingKeepsTexts(c, n);
    }
  }

  lemma {:induction false} UniqueEverything(compare: Comparator, s: State)
    requires ListIsSound(s.candidates) && AllPlain(s.translations)
    ensures ListIsSound(Everything(compare, Some(UNIQUIFIER), s).candidates)
    decreases Left(s.translations)
  {
    hide ListIsSound, AllPlain, Recruit, AllMembers, LeftMembers;
    var k := Winner(compare, s, 0);
    if k < |s.translations| {
      RecruitUses(Some(UNIQUIFIER), s, k);
      RecruitUnique(s, k);
      RecruitPlain(s, k);
      UniqueEverything(compare, Recruit(Some(UNIQUIFIER), s, k));
    }
  }

  /** One page of a menu that merges. */
  method UniquePage(menu: Menu, pageSize: nat, pageNo: nat) returns (page: Option<Page>)
    requires menu.filter == Some(UNIQUIFIER) && ListIsSound(menu.candidates) && AllPlain(menu.translations)
    modifies menu
    ensures menu.All() == old(menu.All()) && ListIsSound(menu.All()) && ListIsSound(menu.candidates)
    ensures page.None? <==> pageSize > 0 && pageSize * pageNo >= |menu.All()|
    ensures page.Some? ==> Texts(page.value.candidates) == PageOf(Texts(menu.All()), pageSize, pageNo)
  {
    hide Stable, ListIsSound, AllPlain, Everything, Prepared, AllMembers, LeftMembers, PageOf, Texts, UNIQUIFIER;
    UniquifierIsStable();
    UniqueEverything(menu.compare, menu.Contents());
    UniqueMenu(menu.compare, menu.Contents(), pageSize * pageNo + pageSize);
    hide Menu.All, Appends;
    page := menu.CreatePage(pageSize, pageNo);
  }

  /** Main result: the pages of a menu that merges show no text twice, on one page or on two. */
  lemma UniquePages(all: seq<Candidate>, pageSize: nat, n: nat)
    requires ListIsSound(all)
    ensures Once(Pages(Texts(all), pageSize, n))
  {
    PagesPartition(Texts(all), pageSize, n);
  }

  // ----- dropping repeats -----

  /** The candidates whose text has not been seen, nor comes earlier in the list. */
  function FirstOccurrences(list: seq<Candidate>, seen: set<string>): seq<Candidate> {
    if |list| == 0 then []
    else if list[0].Text() in seen then FirstOccurrences(list[1..], seen)
    else [list[0]] + FirstOccurrences(list[1..], seen + {list[0].Text()})
  }

  class UniqueFilter {
    var translation: Translation
    var candidateSet: set<string>
    var exhausted: bool

    ghost predicate Valid()
      reads this
    {
      && (exhausted <==> translation == [])
      && (translation != [] ==> translation[0].Text() !in candidateSet)
    }

    /** What the filter will still give. */
    ghost function Upcoming(): seq<Candidate>
      reads this
    {
      FirstOccurrences(translation, candidateSet)
    }

    constructor (translation: Translation)
      ensures Valid() && Upcoming() == FirstOccurrences(translation, {})
    {
      this.translation, candidateSet, exhausted := translation, {}, |translation| == 0;
    }

    method Peek() returns (c: Option<Candidate>)
      requires Valid()
      ensures c == if Upcoming() == [] then None else Some(Upcoming()[0])
    {
      if exhausted {
        return None;
      }
      c := Some(translation[0]);
    }

    method Next() returns (more: bool)
      requires Valid()
      modifies this
      ensures Valid() && more == (Upcoming() != [])
      ensures Upcoming() == if old(Upcoming()) == [] then [] else old(Upcoming())[1..]
    {
      if exhausted {
        return false;
      }
      candidateSet := candidateSet + {translation[0].Text()};
      translation := translation[1..];
      while |translation| > 0 && translation[0].Text() in candidateSet
        invariant Upcoming() == old(Upcoming())[1..] && !exhausted
        decreases |translation|
      {
        assert candidateSet + {translation[0].Text()} == candidateSet;
        candidateSet := candidateSet + {translation[0].Text()};
        translation := translation[1..];
      }
      if |translation| == 0 {
        exhausted := true;
        return false;
      }
      more := true;
    }
  }

  /** Some candidate before `i` has the text of the one at `i`. */
  ghost predicate Repeats(list: seq<Candidate>, i: nat)
    requires i < |list|
  {
    exists h :: 0 <= h < i && list[h].Text() == list[i].Text()
  }

  /** The candidates that repeat none before them, in order. */
  ghost function NotRepeated(list: seq<Candidate>, n: nat): seq<Candidate>
    requires n <= |list|
  {
    if n == 0 then [] else NotRepeated(list, n - 1) + (if Repeats(list, n - 1) then [] else [list[n - 1]])
  }

  ghost predicate SeenBefore(list: seq<Candidate>, n: nat, seen: set<string>)
    requires n <= |list|
  {
    forall t :: t in seen <==> exists h :: 0 <= h < n && list[h].Text() == t
  }

  lemma {:induction false} FirstOccurrencesFrom(list: seq<Candidate>, n: nat, seen: set<string>)
    requires n <= |list| && SeenBefore(list, n, seen)
    ensures NotRepeated(list, n) + FirstOccurrences(list[n..], seen) == NotRepeated(list, |list|)
    decreases |list| - n
  {
    if n < |list| {
      var t := list[n].Text();
      assert list[n..][1..] == list[n + 1..] && list[n..][0] == list[n];
      assert t in seen <==> Repeats(list, n);
      SeenOneMore(list, n, seen);
      FirstOccurrencesFrom(list, n + 1, seen + {t});
      if t in seen { assert seen + {t} == seen; }
    }
  }

  lemma SeenOneMore(list: seq<Candidate>, n: nat, seen: set<string>)
    requires n < |list| && SeenBefore(list, n, seen)
    ensures SeenBefore(list, n + 1, seen + {list[n].Text()})
  {
    forall t
      ensures t in seen + {list[n].Text()} <==> exists h :: 0 <= h < n + 1 && list[h].Text() == t
    {
      if t == list[n].Text() { assert list[n].Text() == t; }
    }
  }

  /** Main result: the filter gives exactly the candidates that repeat no text of an earlier
      one, in their order. */
  lemma FilterGivesFirsts(list: seq<Candidate>)
    ensures FirstOccurrences(list, {}) == NotRepeated(list, |list|)
  {
    FirstOccurrencesFrom(list, 0, {});
    assert list[0..] == list;
  }
}
