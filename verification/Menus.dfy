/** The menu: candidates recruited from several translations, only as many as are asked for. */
module Menus {
  import opened Commons
  import opened Spellings
  import opened Candidates

  /** How a translation compares to its neighbor, given what has been recruited so far. */
  type Comparator = (Translation, Option<Translation>, seq<Candidate>) -> int

  /** What a filter makes of the recruited and of the next candidates. */
  type CandidateFilter = (seq<Candidate>, seq<Candidate>) -> (seq<Candidate>, seq<Candidate>)

  datatype State = State(translations: seq<Translation>, candidates: seq<Candidate>)

  datatype Page = Page(pageSize: nat, pageNo: nat, isLastPage: bool, candidates: seq<Candidate>)

  function Neighbor(ts: seq<Translation>, k: nat): Option<Translation> {
    if k + 1 < |ts| then Some(ts[k + 1]) else None
  }

  /** The first translation from `k` on that would rather go than leave it to the next one. */
  function Winner(compare: Comparator, s: State, k: nat): (r: nat)
    requires k <= |s.translations|
    ensures k <= r <= |s.translations|
    decreases |s.translations| - k
  {
    if k == |s.translations| || compare(s.translations[k], Neighbor(s.translations, k), s.candidates) <= 0 then k
    else Winner(compare, s, k + 1)
  }

  function Without<T>(list: seq<T>, k: nat): seq<T>
    requires k < |list|
  {
    list[..k] + list[k + 1..]
  }

  lemma WithoutLater<T>(list: seq<T>, k: nat)
    requires 0 < k < |list|
    ensures Without(list, k)[0] == list[0] && Without(list, k)[1..] == Without(list[1..], k - 1)
  {
  }

  function Filtered(filter: Option<CandidateFilter>, candidates: seq<Candidate>, next: seq<Candidate>): seq<Candidate> {
    match filter
    case None => candidates + next
    case Some(f) => f(candidates, next).0 + f(candidates, next).1
  }

  /** One round: the winner gives its next candidate, and goes when it has no more. */
  function Recruit(filter: Option<CandidateFilter>, s: State, k: nat): State
    requires k < |s.translations|
  {
    var t := s.translations[k];
    if |t| == 0 then s.(translations := Without(s.translations, k))
    else
      State(if |t| == 1 then Without(s.translations, k) else s.translations[k := t[1..]],
            Filtered(filter, s.candidates, [t[0]]))
  }

  function Left(ts: seq<Translation>): nat {
    if |ts| == 0 then 0 else |ts[0]| + 1 + Left(ts[1..])
  }

  lemma {:induction false} LeftSplit(ts: seq<Translation>, k: nat)
    requires k < |ts|
    ensures Left(ts) == Left(Without(ts, k)) + |ts[k]| + 1
  {
    if k > 0 {
      LeftSplit(ts[1..], k - 1);
      assert Without(ts, k)[1..] == Without(ts[1..], k - 1);
    } else {
      assert Without(ts, 0) == ts[1..];
    }
  }

  lemma RecruitUses(filter: Option<CandidateFilter>, s: State, k: nat)
    requires k < |s.translations|
    ensures Left(Recruit(filter, s, k).translations) < Left(s.translations)
  {
    hide Filtered;
    var ts := s.translations;
    LeftSplit(ts, k);
    if |ts[k]| > 1 {
      var us := ts[k := ts[k][1..]];
      LeftSplit(us, k);
      assert Without(us, k) == Without(ts, k);
    }
  }

  /** Rounds until there are `n` candidates, or no translation wins. */
  function Prepared(compare: Comparator, filter: Option<CandidateFilter>, s: State, n: nat): State
    decreases Left(s.translations)
  {
    var k := Winner(compare, s, 0);
    if |s.candidates| >= n || k == |s.translations| then s
    else
      RecruitUses(filter, s, k);
      Prepared(compare, filter, Recruit(filter, s, k), n)
  }

  /** No more candidates can be had. */
  predicate Stuck(compare: Comparator, s: State) {
    Winner(compare, s, 0) == |s.translations|
  }

  lemma {:induction false} PreparedEnough(compare: Comparator, filter: Option<CandidateFilter>, s: State, n: nat)
    ensures var t := Prepared(compare, filter, s, n); |t.candidates| >= n || Stuck(compare, t)
    decreases Left(s.translations)
  {
    var k := Winner(compare, s, 0);
    if !(|s.candidates| >= n || k == |s.translations|) {
      RecruitUses(filter, s, k);
      PreparedEnough(compare, filter, Recruit(filter, s, k), n);
    }
  }

  /** Only as many are recruited as are asked for. */
  lemma {:induction false} PreparedNoMore(compare: Comparator, s: State, n: nat)
    ensures |s.candidates| >= n ==> Prepared(compare, None, s, n) == s
    ensures |s.candidates| <= n ==> |Prepared(compare, None, s, n).candidates| <= n
    decreases Left(s.translations)
  {
    var k := Winner(compare, s, 0);
    if !(|s.candidates| >= n || k == |s.translations|) {
      RecruitUses(None, s, k);
      PreparedNoMore(compare, Recruit(None, s, k), n);
    }
  }

  /** The winner is the first translation that does not come behind its neighbor. */
  lemma {:induction false} WinnerExactly(compare: Comparator, s: State, i: nat, k: nat)
    requires i <= k < |s.translations|
    ensures Winner(compare, s, i) == k
            <==> compare(s.translations[k], Neighbor(s.translations, k), s.candidates) <= 0
                 && forall j :: i <= j < k ==> compare(s.translations[j], Some(s.translations[j + 1]), s.candidates) > 0
    decreases k - i
  {
    if i < k { WinnerExactly(compare, s, i + 1, k); }
  }

  /** Main result: preparing can be resumed. Asking for `m` candidates and then for `n` is
      asking for the larger number at once, whatever the filter does. */
  lemma {:induction false} Resumable(compare: Comparator, filter: Option<CandidateFilter>, s: State, m: nat, n: nat)
    ensures Prepared(compare, filter, Prepared(compare, filter, s, m), n) == Prepared(compare, filter, s, if m < n then n else m)
    decreases Left(s.translations)
  {
    var k := Winner(compare, s, 0);
    if !(|s.candidates| >= m || k == |s.translations|) {
      RecruitUses(filter, s, k);
      Resumable(compare, filter, Recruit(filter, s, k), m, n);
    }
  }

  // ----- conservation -----

  /** What the translations still have to give. */
  ghost function LeftMembers(ts: seq<Translation>): multiset<Candidate> {
    if |ts| == 0 then multiset{} else multiset(ts[0]) + LeftMembers(ts[1..])
  }

  lemma {:induction false} LeftMembersSplit(ts: seq<Translation>, k: nat)
    requires k < |ts|
    ensures LeftMembers(ts) == multiset(ts[k]) + LeftMembers(Without(ts, k))
  {
    if k > 0 {
      LeftMembersSplit(ts[1..], k - 1);
      assert Without(ts, k)[1..] == Without(ts[1..], k - 1);
    } else {
      assert Without(ts, 0) == ts[1..];
    }
  }

  lemma LeftMembersStep(ts: seq<Translation>, k: nat)
    requires k < |ts| && |ts[k]| > 0
    ensures LeftMembers(ts) == multiset{ts[k][0]} + LeftMembers(if |ts[k]| == 1 then Without(ts, k) else ts[k := ts[k][1..]])
  {
    LeftMembersSplit(ts, k);
    var us := ts[k := ts[k][1..]];
    LeftMembersSplit(us, k);
    assert Without(us, k) == Without(ts, k);
    assert ts[k] == [ts[k][0]] + ts[k][1..];
  }

  lemma RecruitConserves(s: State, k: nat)
    requires k < |s.translations|
    ensures var r := Recruit(None, s, k);
            multiset(r.candidates) + LeftMembers(r.translations) == multiset(s.candidates) + LeftMembers(s.translations)
  {
    hide LeftMembers;
    if |s.translations[k]| == 0 { LeftMembersSplit(s.translations, k); } else { LeftMembersStep(s.translations, k); }
  }

  /** Main result: without a filter, no candidate is lost or doubled. */
  lemma {:induction false} PreparedConserves(compare: Comparator, s: State, n: nat)
    ensures var r := Prepared(compare, None, s, n);
            multiset(r.candidates) + LeftMembers(r.translations) == multiset(s.candidates) + LeftMembers(s.translations)
    decreases Left(s.translations)
  {
    hide LeftMembers, Recruit;
    var k := Winner(compare, s, 0);
    if !(|s.candidates| >= n || k == |s.translations|) {
      RecruitUses(None, s, k);
      RecruitConserves(s, k);
      PreparedConserves(compare, Recruit(None, s, k), n);
    }
  }

  // ----- where candidates come from -----

  /** A candidate with the number of the translation that gave it. */
  datatype Labelled = Labelled(id: nat, item: Candidate)

  /** What has been taken from the translations, in order, and the numbers of those still there. */
  datatype Trace = Trace(taken: seq<Labelled>, ids: seq<nat>)

  /** The numbers left when translation `k` has given its next candidate. */
  ghost function IdsLeft(ids: seq<nat>, k: nat, t: Translation): seq<nat>
    requires k < |ids|
  {
    if |t| <= 1 then Without(ids, k) else ids
  }

  ghost function Taking(id: nat, t: Translation): seq<Labelled> {
    if |t| == 0 then [] else [Labelled(id, t[0])]
  }

  /** What preparing takes, when the translations are numbered `ids`. */
  ghost function Traced(compare: Comparator, filter: Option<CandidateFilter>, s: State, ids: seq<nat>, n: nat): Trace
    requires |ids| == |s.translations|
    decreases Left(s.translations)
  {
    var k := Winner(compare, s, 0);
    if |s.candidates| >= n || k == |s.translations| then Trace([], ids)
    else
      RecruitUses(filter, s, k);
      var t := s.translations[k];
      var later := Traced(compare, filter, Recruit(filter, s, k), IdsLeft(ids, k, t), n);
      later.(taken := Taking(ids[k], t) + later.taken)
  }

  /** What was taken from one translation. */
  ghost function TakenFrom(taken: seq<Labelled>, id: nat): seq<Candidate> {
    if |taken| == 0 then []
    else (if taken[0].id == id then [taken[0].item] else []) + TakenFrom(taken[1..], id)
  }

  /** What the translation with a number still has; nothing if it is not there. */
  ghost function RestOf(ts: seq<Translation>, ids: seq<nat>, id: nat): Translation
    requires |ids| == |ts|
  {
    if |ids| == 0 then [] else if ids[0] == id then ts[0] else RestOf(ts[1..], ids[1..], id)
  }

  lemma {:induction false} RestOfAbsent(ts: seq<Translation>, ids: seq<nat>, id: nat)
    requires |ids| == |ts| && id !in ids
    ensures RestOf(ts, ids, id) == []
  {
    if |ids| > 0 { RestOfAbsent(ts[1..], ids[1..], id); }
  }

  lemma RestOfFirst(ts: seq<Translation>, ids: seq<nat>, id: nat)
    requires |ids| == |ts| > 0
    ensures RestOf(ts, ids, id) == if ids[0] == id then ts[0] else RestOf(ts[1..], ids[1..], id)
  {
  }

  lemma {:induction false} RestOfSplit(ts: seq<Translation>, ids: seq<nat>, k: nat, id: nat)
    requires |ids| == |ts| && Once(ids) && k < |ids|
    ensures RestOf(ts, ids, id) == if id == ids[k] then ts[k] else RestOf(Without(ts, k), Without(ids, k), id)
    ensures id == ids[k] ==> RestOf(Without(ts, k), Without(ids, k), id) == []
  {
    if k > 0 {
      assert Once(ids[1..]) && ids[0] != ids[k];
      hide RestOf, Once, Without;
      RestOfSplit(ts[1..], ids[1..], k - 1, id);
      WithoutLater(ts, k);
      WithoutLater(ids, k);
      RestOfFirst(ts, ids, id);
      RestOfFirst(Without(ts, k), Without(ids, k), id);
    } else {
      assert Without(ts, 0) == ts[1..] && ids[..0] + ids[1..] == ids[1..];
      if id == ids[0] { RestOfAbsent(ts[1..], ids[1..], id); }
    }
  }

  lemma RecruitTakes(filter: Option<CandidateFilter>, s: State, ids: seq<nat>, k: nat, id: nat)
    requires |ids| == |s.translations| && Once(ids) && k < |ids|
    ensures var t, r := s.translations[k], Recruit(filter, s, k).translations;
            var left := IdsLeft(ids, k, t);
            && |left| == |r| && Once(left)
            && RestOf(s.translations, ids, id) == TakenFrom(Taking(ids[k], t), id) + RestOf(r, left, id)
  {
    hide Filtered, RestOf;
    var ts, t := s.translations, s.translations[k];
    RestOfSplit(ts, ids, k, id);
    if |t| > 1 {
      RestOfSplit(ts[k := t[1..]], ids, k, id);
      assert Without(ts[k := t[1..]], k) == Without(ts, k);
    }
    assert |t| > 0 ==> t == [t[0]] + t[1..];
  }

  /** Main result: whatever the filter does, what was taken from each translation and what it has
      left are its candidates, in its own order. */
  lemma {:induction false} PreparedKeeps(compare: Comparator, filter: Option<CandidateFilter>, s: State, ids: seq<nat>, n: nat, id: nat)
    requires |ids| == |s.translations| && Once(ids)
    ensures var r, trace := Prepared(compare, filter, s, n), Traced(compare, filter, s, ids, n);
            && |trace.ids| == |r.translations|
            && RestOf(s.translations, ids, id) == TakenFrom(trace.taken, id) + RestOf(r.translations, trace.ids, id)
    decreases Left(s.translations)
  {
    hide RestOf, Recruit;
    var k := Winner(compare, s, 0);
    if !(|s.candidates| >= n || k == |s.translations|) {
      RecruitUses(filter, s, k);
      RecruitTakes(filter, s, ids, k, id);
      var t := s.translations[k];
      var r, left := Recruit(filter, s, k), IdsLeft(ids, k, t);
      PreparedKeeps(compare, filter, r, left, n, id);
      var later := Traced(compare, filter, r, left, n);
      TakenConcat(Taking(ids[k], t), later.taken, id);
      hide IdsLeft, Taking, TakenFrom, Prepared, Left;
      var p := Prepared(compare, filter, r, n);
      Associate(TakenFrom(Taking(ids[k], t), id), TakenFrom(later.taken, id), RestOf(p.translations, later.ids, id));
    }
  }

  lemma {:induction false} TakenConcat(a: seq<Labelled>, b: seq<Labelled>, id: nat)
    ensures TakenFrom(a + b, id) == TakenFrom(a, id) + TakenFrom(b, id)
  {
    if |a| == 0 {
      assert a + b == b;
    } else {
      assert (a + b)[1..] == a[1..] + b;
      TakenConcat(a[1..], b, id);
      Associate(if a[0].id == id then [a[0].item] else [], TakenFrom(a[1..], id), TakenFrom(b, id));
    }
  }

  ghost function ItemsOf(taken: seq<Labelled>): seq<Candidate> {
    if |taken| == 0 then [] else [taken[0].item] + ItemsOf(taken[1..])
  }

  /** Without a filter, what is taken is listed. */
  lemma {:induction false} PreparedLists(compare: Comparator, s: State, ids: seq<nat>, n: nat)
    requires |ids| == |s.translations|
    ensures Prepared(compare, None, s, n).candidates == s.candidates + ItemsOf(Traced(compare, None, s, ids, n).taken)
    decreases Left(s.translations)
  {
    var k := Winner(compare, s, 0);
    if !(|s.candidates| >= n || k == |s.translations|) {
      RecruitUses(None, s, k);
      var t := s.translations[k];
      var left := IdsLeft(ids, k, t);
      PreparedLists(compare, Recruit(None, s, k), left, n);
      var later := Traced(compare, None, Recruit(None, s, k), left, n);
      if |t| > 0 {
        assert ([Labelled(ids[k], t[0])] + later.taken)[1..] == later.taken;
        Associate(s.candidates, [t[0]], ItemsOf(later.taken));
      }
      assert [] + later.taken == later.taken;
    }
  }

  // ----- everything there is -----

  /** Rounds until no translation wins. */
  ghost function Everything(compare: Comparator, filter: Option<CandidateFilter>, s: State): State
    decreases Left(s.translations)
  {
    var k := Winner(compare, s, 0);
    if k == |s.translations| then s
    else
      RecruitUses(filter, s, k);
      Everything(compare, filter, Recruit(filter, s, k))
  }

  ghost function Texts(list: seq<Candidate>): seq<string> {
    seq(|list|, i requires 0 <= i < |list| => list[i].Text())
  }

  /** The filter may change what has been recruited, but neither how many there are nor what they
      show. */
  ghost predicate Stable(filter: Option<CandidateFilter>) {
    filter.Some? ==> forall c, n :: Texts(filter.value(c, n).0) == Texts(c)
  }

  /** The filter leaves alone what has been recruited. */
  ghost predicate Appends(filter: Option<CandidateFilter>) {
    filter.Some? ==> forall c, n :: filter.value(c, n).0 == c
  }

  lemma RecruitAppends(filter: Option<CandidateFilter>, s: State, k: nat)
    requires k < |s.translations|
    ensures Stable(filter) ==> Texts(s.candidates) <= Texts(Recruit(filter, s, k).candidates)
    ensures Appends(filter) ==> s.candidates <= Recruit(filter, s, k).candidates
  {
    var t := s.translations[k];
    if |t| > 0 {
      TextsConcat(s.candidates, [t[0]]);
      if filter.Some? {
        var (recruited, next) := filter.value(s.candidates, [t[0]]);
        TextsConcat(recruited, next);
      }
    }
  }

  lemma TextsConcat(a: seq<Candidate>, b: seq<Candidate>)
    ensures Texts(a + b) == Texts(a) + Texts(b)
  {
  }

  lemma {:induction false} EverythingExtends(compare: Comparator, filter: Option<CandidateFilter>, s: State)
    ensures Stable(filter) ==> Texts(s.candidates) <= Texts(Everything(compare, filter, s).candidates)
    ensures Appends(filter) ==> s.candidates <= Everything(compare, filter, s).candidates
    decreases Left(s.translations)
  {
    hide Stable, Appends, Recruit;
    var k := Winner(compare, s, 0);
    if k < |s.translations| {
      RecruitUses(filter, s, k);
      RecruitAppends(filter, s, k);
      EverythingExtends(compare, filter, Recruit(filter, s, k));
    }
  }

  /** Preparing does not change what there is in all. */
  lemma {:induction false} PreparedOnTheWay(compare: Comparator, filter: Option<CandidateFilter>, s: State, n: nat)
    ensures Everything(compare, filter, Prepared(compare, filter, s, n)) == Everything(compare, filter, s)
    decreases Left(s.translations)
  {
    var k := Winner(compare, s, 0);
    if !(|s.candidates| >= n || k == |s.translations|) {
      RecruitUses(filter, s, k);
      PreparedOnTheWay(compare, filter, Recruit(filter, s, k), n);
    }
  }

  /** What there is once `n` candidates have been asked for, in terms of everything. */
  lemma PreparedPart(compare: Comparator, filter: Option<CandidateFilter>, s: State, n: nat)
    ensures var r, all := Prepared(compare, filter, s, n).candidates, Everything(compare, filter, s).candidates;
            && IsPart(filter, r, all) && (|r| < n ==> r == all)
  {
    PreparedOnTheWay(compare, filter, s, n);
    PreparedEnough(compare, filter, s, n);
    EverythingExtends(compare, filter, Prepared(compare, filter, s, n));
    hide Stable, Appends;
  }

  /** The list so far shows the beginning of what the whole list will show; if the filter leaves it
      alone, it is the beginning of the whole list. */
  ghost predicate IsPart(filter: Option<CandidateFilter>, part: seq<Candidate>, all: seq<Candidate>) {
    && (Stable(filter) ==> Texts(part) <= Texts(all))
    && (Appends(filter) ==> part <= all)
  }

  // ----- the menu -----

  class Menu {
    const compare: Comparator
    const filter: Option<CandidateFilter>
    var translations: seq<Translation>
    var candidates: seq<Candidate>

    constructor (compare: Comparator, filter: Option<CandidateFilter>)
      ensures this.compare == compare && this.filter == filter && Contents() == State([], [])
    {
      this.compare, this.filter, translations, candidates := compare, filter, [], [];
    }

    function Contents(): State
      reads this
    {
      State(translations, candidates)
    }

    /** Everything the menu will ever list. */
    ghost function All(): seq<Candidate>
      reads this
    {
      Everything(compare, filter, Contents()).candidates
    }

    method AddTranslation(t: Translation)
      modifies this`translations
      ensures translations == old(translations) + [t]
    {
      translations := translations + [t];
    }

    method Prepare(candidateCount: nat) returns (count: nat)
      modifies this
      ensures Contents() == Prepared(compare, filter, old(Contents()), candidateCount) && count == |candidates|
    {
      count := |candidates|;
      if count >= candidateCount {
        return;
      }
      while count < candidateCount && |translations| > 0
        invariant Prepared(compare, filter, Contents(), candidateCount) == Prepared(compare, filter, old(Contents()), candidateCount)
        invariant count == |candidates|
        decreases Left(translations)
      {
        var k := SelectWinner();
        if k >= |translations| {
          break;
        }
        RecruitUses(filter, Contents(), k);
        RecruitNext(k);
        count := |candidates|;
      }
    }

    method SelectWinner() returns (k: nat)
      ensures k == Winner(compare, Contents(), 0)
    {
      k := 0;
      while k < |translations|
        invariant k <= |translations| && Winner(compare, Contents(), k) == Winner(compare, Contents(), 0)
      {
        var next := None;
        if k + 1 < |translations| {
          next := Some(translations[k + 1]);
        }
        if compare(translations[k], next, candidates) <= 0 {
          break;
        }
        k := k + 1;
      }
    }

    method RecruitNext(k: nat)
      requires k < |translations|
      modifies this
      ensures Contents() == Recruit(filter, old(Contents()), k)
    {
      if |translations[k]| == 0 {
        translations := translations[..k] + translations[k + 1..];
        return;
      }
      var nextCandidates := [translations[k][0]];
      if filter.Some? {
        var (recruited, next) := filter.value(candidates, nextCandidates);
        candidates, nextCandidates := recruited, next;
      }
      candidates := candidates + nextCandidates;
      translations := translations[k := translations[k][1..]];
      if |translations[k]| == 0 {
        translations := translations[..k] + translations[k + 1..];
      }
    }

    /** Prepares more candidates. */
    method PrepareMore(candidateCount: nat) returns (count: nat)
      modifies this
      ensures All() == old(All()) && IsPart(filter, candidates, All()) && count == |candidates|
      ensures count < candidateCount ==> candidates == All()
      ensures Contents() == Prepared(compare, filter, old(Contents()), candidateCount)
    {
      PreparedPart(compare, filter, Contents(), candidateCount);
      PreparedOnTheWay(compare, filter, Contents(), candidateCount);
      hide Prepared, Everything, IsPart;
      count := Prepare(candidateCount);
    }

    /** Nothing is recruited when there are enough candidates, or no translations. */
    lemma NothingToPrepare(candidateCount: nat)
      ensures |candidates| >= candidateCount || translations == [] ==>
                Contents() == Prepared(compare, filter, Contents(), candidateCount)
    {
    }

    lemma ListedSoFar()
      ensures IsPart(filter, candidates, All())
      ensures translations == [] ==> candidates == All()
    {
      EverythingExtends(compare, filter, Contents());
    }

    /** One page of the list. A page that begins beyond the end of the list is not made. */
    method CreatePage(pageSize: nat, pageNo: nat) returns (page: Option<Page>)
      requires Stable(filter)
      modifies this
      ensures All() == old(All())
      ensures Contents() == Prepared(compare, filter, old(Contents()), pageSize * pageNo + pageSize)
      ensures page.None? <==> pageSize > 0 && pageSize * pageNo >= |All()|
      ensures page.Some? ==> page.value.candidates == PageOf(candidates, pageSize, pageNo)
      ensures page.Some? ==> Texts(page.value.candidates) == PageOf(Texts(All()), pageSize, pageNo)
      ensures page.Some? && Appends(filter) ==> page.value.candidates == PageOf(All(), pageSize, pageNo)
      ensures page.Some? ==> page.value.pageSize == pageSize && page.value.pageNo == pageNo
      ensures page.Some? ==>
                (page.value.isLastPage <==> |translations| == 0 && pageSize * pageNo + pageSize >= |candidates|)
      ensures page.Some? && page.value.isLastPage ==> pageSize * pageNo + pageSize >= |All()|
    {
      hide Appends, Stable, All, Prepared, IsPart;
      var startPos := pageSize * pageNo;
      var endPos := startPos + pageSize;
      ListedSoFar();
      NothingToPrepare(endPos);
      if endPos > |candidates| {
        if |translations| == 0 {
          endPos := |candidates|;
        } else {
          endPos := PrepareMore(endPos);
        }
        if startPos >= endPos {
          PartIsShorter(filter, candidates, All());
          return None;
        }
        endPos := if startPos + pageSize < endPos then startPos + pageSize else endPos;
      }
      ListedSoFar();
      SliceOfPart(filter, All(), candidates, startPos, pageSize);
      var isLastPage := |translations| == 0 && endPos == |candidates|;
      page := Some(Page(pageSize, pageNo, isLastPage, candidates[startPos..endPos]));
    }

    method GetCandidateAt(index: nat) returns (c: Option<Candidate>)
      requires Stable(filter)
      modifies this
      ensures All() == old(All())
      ensures Contents() == Prepared(compare, filter, old(Contents()), index + 1)
      ensures c.Some? <==> index < |All()|
      ensures c.Some? ==> index < |candidates| && c.value == candidates[index] && c.value.Text() == All()[index].Text()
      ensures c.Some? && Appends(filter) ==> c.value == All()[index]
    {
      hide Appends, Stable, All, Prepared, IsPart;
      ListedSoFar();
      NothingToPrepare(index + 1);
      if index >= |candidates| {
        var count := PrepareMore(index + 1);
        if index >= count {
          return None;
        }
      }
      PartAt(filter, candidates, All(), index);
      c := Some(candidates[index]);
    }
  }

  // ----- pages -----

  function Min(a: nat, b: nat): nat { if a < b then a else b }

  /** The `size` elements from `start` on, as far as there are any. */
  function Slice<T>(all: seq<T>, start: nat, size: nat): seq<T> {
    all[Min(start, |all|)..Min(start + size, |all|)]
  }

  function PageOf<T>(all: seq<T>, pageSize: nat, pageNo: nat): seq<T> {
    Slice(all, pageSize * pageNo, pageSize)
  }

  lemma PartIsShorter(filter: Option<CandidateFilter>, part: seq<Candidate>, all: seq<Candidate>)
    requires Stable(filter) && IsPart(filter, part, all)
    ensures |part| <= |all|
  {
    assert |Texts(part)| == |part| && |Texts(all)| == |all|;
  }

  lemma PartAt(filter: Option<CandidateFilter>, part: seq<Candidate>, all: seq<Candidate>, i: nat)
    requires Stable(filter) && IsPart(filter, part, all) && i < |part|
    ensures i < |all| && part[i].Text() == all[i].Text() && (Appends(filter) ==> part[i] == all[i])
  {
    PartIsShorter(filter, part, all);
    assert Texts(part)[i] == part[i].Text() && Texts(all)[i] == all[i].Text();
  }

  /** A slice within a beginning is a slice of the whole. */
  lemma SliceOfBeginning<T>(part: seq<T>, all: seq<T>, start: nat, size: nat)
    requires part <= all && start <= |part| && (start + size <= |part| || |part| == |all|)
    ensures Slice(part, start, size) == Slice(all, start, size)
  {
  }

  lemma TextsOfSlice(list: seq<Candidate>, start: nat, size: nat)
    ensures Texts(Slice(list, start, size)) == Slice(Texts(list), start, size)
  {
  }

  lemma SliceOfPart(filter: Option<CandidateFilter>, all: seq<Candidate>, part: seq<Candidate>, start: nat, size: nat)
    requires Stable(filter) && IsPart(filter, part, all)
    requires start <= |part| && (start + size <= |part| || part == all)
    ensures |part| <= |all|
    ensures part[start..Min(start + size, |part|)] == Slice(part, start, size)
    ensures Texts(Slice(part, start, size)) == Slice(Texts(all), start, size)
    ensures Appends(filter) ==> Slice(part, start, size) == Slice(all, start, size)
  {
    PartIsShorter(filter, part, all);
    hide Stable, Appends;
    assert |Texts(part)| == |part| && |Texts(all)| == |all|;
    hide Texts, Slice;
    TextsOfSlice(part, start, size);
    SliceOfBeginning(Texts(part), Texts(all), start, size);
    if Appends(filter) { SliceOfBeginning(part, all, start, size); }
    PageIsSlice(part, start, size);
  }

  lemma PageIsSlice<T>(part: seq<T>, start: nat, size: nat)
    requires start <= |part|
    ensures part[start..Min(start + size, |part|)] == Slice(part, start, size)
  {
  }

  ghost function Pages<T>(all: seq<T>, pageSize: nat, n: nat): seq<T> {
    if n == 0 then [] else Pages(all, pageSize, n - 1) + PageOf(all, pageSize, n - 1)
  }

  /** Main result: successive pages list everything once and in order. */
  lemma {:induction false} PagesPartition<T>(all: seq<T>, pageSize: nat, n: nat)
    ensures Pages(all, pageSize, n) == all[..Min(pageSize * n, |all|)]
  {
    if n > 0 {
      PagesPartition(all, pageSize, n - 1);
      assert pageSize * n == pageSize * (n - 1) + pageSize;
    }
  }
}
