/** When the candidates of a menu come in order: translations only compare themselves to their
    neighbors, so translations that are in order are not enough. */
module MenuOrders {
  import opened Commons
  import opened Candidates
  import opened Menus

  ghost predicate InOrder(list: seq<Candidate>) {
    forall i, j :: 0 <= i < j < |list| ==> NotAfter(list[i], list[j])
  }

  ghost predicate AllBefore(a: seq<Candidate>, b: seq<Candidate>) {
    forall x, y :: x in a && y in b ==> NotAfter(x, y)
  }

  ghost predicate After(x: Candidate, c: Candidate) { !NotAfter(x, c) }

  const BY_HEAD: Comparator := (ours, other, candidates) => Compare(ours, other)

  /** A translation that still has something to give, in order. */
  ghost predicate Giving(t: Translation) { |t| > 0 && InOrder(t) }

  ghost predicate AllGiving(ts: seq<Translation>) {
    forall k :: 0 <= k < |ts| ==> Giving(ts[k])
  }

  /** Nothing is left that should have come earlier. */
  ghost predicate OrderedState(s: State) {
    && AllGiving(s.translations) && InOrder(s.candidates)
    && forall k :: 0 <= k < |s.translations| ==> AllBefore(s.candidates, s.translations[k])
  }

  /** Some candidate comes behind `c` and before `x`. */
  ghost predicate HasBetween(t: Translation, c: Candidate, x: Candidate) {
    exists y :: y in t && After(y, c) && After(x, y)
  }

  /** `x` of translation `i` does not keep `c` of translation `l` waiting by way of `j`. */
  ghost predicate Yields(ts: seq<Translation>, i: nat, j: nat, l: nat, x: Candidate, y: Candidate, c: Candidate) {
    i < j < l < |ts| && x in ts[i] && y in ts[j] && c in ts[l] && After(x, c) && After(y, c) ==> HasBetween(ts[j], c, x)
  }

  /** Of any two translations before that of a candidate `c` which both have something behind `c`,
      the later one has something nearer to `c` than all that the earlier one has. */
  ghost predicate Aligned(ts: seq<Translation>) {
    forall i: nat, j: nat, l: nat, x, y, c :: Yields(ts, i, j, l, x, y, c)
  }

  lemma TwoAreAligned(ts: seq<Translation>)
    requires |ts| <= 2
    ensures Aligned(ts)
  {
  }

  // ----- one round -----

  lemma HeadFirst(t: Translation, x: Candidate)
    requires Giving(t) && NotAfter(x, t[0])
    ensures forall y :: y in t ==> NotAfter(x, y)
  {
    forall y | y in t
      ensures NotAfter(x, y)
    {
      var i :| 0 <= i < |t| && t[i] == y;
      if i > 0 { assert NotAfter(t[0], t[i]); }
    }
  }

  /** The winner is the first whose next candidate may come before that of its neighbor: the heads
      descend up to it. */
  lemma {:induction false} WinnerFrom(s: State, from: nat)
    requires AllGiving(s.translations) && from < |s.translations|
    ensures var ts, k := s.translations, Winner(BY_HEAD, s, from);
            && k < |ts| && (k + 1 < |ts| ==> NotAfter(ts[k][0], ts[k + 1][0]))
            && forall i, j :: from <= i < j <= k ==> After(ts[i][0], ts[j][0])
    decreases |s.translations| - from
  {
    var ts := s.translations;
    assert Giving(ts[from]);
    if from + 1 < |ts| {
      assert Giving(ts[from + 1]);
      ComparesHeads(ts[from], ts[from + 1]);
      if !NotAfter(ts[from][0], ts[from + 1][0]) { WinnerFrom(s, from + 1); }
    }
  }

  ghost predicate LeastHead(ts: seq<Translation>, k: nat) {
    AllGiving(ts) && k < |ts| && forall l :: 0 <= l < |ts| ==> NotAfter(ts[k][0], ts[l][0])
  }

  lemma {:induction false} LeastHeadUpTo(ts: seq<Translation>, n: nat) returns (l: nat)
    requires AllGiving(ts) && 0 < n <= |ts|
    ensures l < n && forall k :: 0 <= k < n ==> NotAfter(ts[l][0], ts[k][0])
  {
    assert forall k :: 0 <= k < |ts| ==> Giving(ts[k]);
    if n == 1 {
      l := 0;
    } else {
      l := LeastHeadUpTo(ts, n - 1);
      if !NotAfter(ts[l][0], ts[n - 1][0]) { l := n - 1; }
    }
  }

  /** If translations are aligned, the winner's next candidate is a first one. */
  lemma WinnerIsFirst(s: State)
    requires AllGiving(s.translations) && Aligned(s.translations) && |s.translations| > 0
    ensures LeastHead(s.translations, Winner(BY_HEAD, s, 0))
  {
    var ts := s.translations;
    var k := Winner(BY_HEAD, s, 0);
    var l := LeastHeadUpTo(ts, |ts|);
    WinnerFrom(s, 0);
    assert forall h :: 0 <= h < |ts| ==> Giving(ts[h]);
    if After(ts[k][0], ts[l][0]) {
      assert k + 1 < l;
      assert Yields(ts, k, k + 1, l, ts[k][0], ts[k + 1][0], ts[l][0]);
      HeadFirst(ts[k + 1], ts[k][0]);
    }
  }

  /** The translations after a round: where each is then, and what it has left. */
  ghost predicate Gave(before: seq<Translation>, k: nat, after: seq<Translation>) {
    && k < |before| && |before[k]| > 0
    && after == if |before[k]| == 1 then Without(before, k) else before[k := before[k][1..]]
  }

  function Shifted(before: seq<Translation>, k: nat, i: nat): nat
    requires k < |before|
  {
    if |before[k]| == 1 && i > k then i - 1 else i
  }

  /** Every other translation stays as it is, and keeps its place among the others. */
  lemma GaveAt(before: seq<Translation>, k: nat, after: seq<Translation>, i: nat)
    requires Gave(before, k, after) && i < |before| && (i == k ==> |before[k]| > 1)
    ensures Shifted(before, k, i) < |after|
    ensures after[Shifted(before, k, i)] == if i == k then before[k][1..] else before[i]
  {
  }

  lemma CameFrom(before: seq<Translation>, k: nat, after: seq<Translation>, i: nat) returns (h: nat)
    requires Gave(before, k, after) && i < |after|
    ensures h < |before| && Shifted(before, k, h) == i && (h == k ==> |before[k]| > 1)
    ensures after[i] == if h == k then before[k][1..] else before[h]
  {
    h := if |before[k]| == 1 && i >= k then i + 1 else i;
  }

  /** What remains of aligned translations is aligned. */
  lemma StaysAligned(before: seq<Translation>, k: nat, after: seq<Translation>)
    requires Gave(before, k, after) && LeastHead(before, k) && Aligned(before)
    ensures Aligned(after)
  {
    var m := before[k][0];
    forall i: nat, j: nat, l: nat, x, y, c
      ensures Yields(after, i, j, l, x, y, c)
    {
      if i < j < l < |after| && x in after[i] && y in after[j] && c in after[l] && After(x, c) && After(y, c) {
        var a := CameFrom(before, k, after, i);
        var b := CameFrom(before, k, after, j);
        var d := CameFrom(before, k, after, l);
        assert Yields(before, a, b, d, x, y, c);
        var z :| z in before[b] && After(z, c) && After(x, z);
        FirstOfAll(before, k, d, c);
        assert z in after[j];
      }
    }
  }

  lemma FirstOfAll(ts: seq<Translation>, k: nat, l: nat, c: Candidate)
    requires LeastHead(ts, k) && l < |ts| && c in ts[l]
    ensures NotAfter(ts[k][0], c)
  {
    assert Giving(ts[l]);
    HeadFirst(ts[l], ts[k][0]);
  }

  /** If what remains is aligned, and the candidate given is a first one, all was aligned. */
  lemma WasAligned(s: State, k: nat, after: seq<Translation>)
    requires AllGiving(s.translations) && |s.translations| > 0 && k == Winner(BY_HEAD, s, 0)
    requires Gave(s.translations, k, after) && LeastHead(s.translations, k) && Aligned(after)
    ensures Aligned(s.translations)
  {
    var ts := s.translations;
    var m := ts[k][0];
    forall i: nat, j: nat, l: nat, x, y, c
      ensures Yields(ts, i, j, l, x, y, c)
    {
      if i < j < l < |ts| && x in ts[i] && y in ts[j] && c in ts[l] && After(x, c) && After(y, c) {
        FirstOfAll(ts, k, l, c);
        if l == k && c == m {
          GivenInTurn(s, i, j, x);
        } else {
          StillThere(ts, k, after, i, x);
          StillThere(ts, k, after, j, y);
          StillThere(ts, k, after, l, c);
          assert Yields(after, Shifted(ts, k, i), Shifted(ts, k, j), Shifted(ts, k, l), x, y, c);
          GaveAt(ts, k, after, j);
        }
      }
    }
  }

  lemma StillThere(before: seq<Translation>, k: nat, after: seq<Translation>, i: nat, x: Candidate)
    requires Gave(before, k, after) && i < |before| && x in before[i] && (i == k ==> x != before[k][0])
    ensures i == k ==> |before[k]| > 1
    ensures Shifted(before, k, i) < |after| && x in after[Shifted(before, k, i)]
  {
    if i == k { assert before[k] == [before[k][0]] + before[k][1..]; }
    GaveAt(before, k, after, i);
  }

  lemma GivenInTurn(s: State, i: nat, j: nat, x: Candidate)
    requires var k := Winner(BY_HEAD, s, 0); AllGiving(s.translations) && i < j < k < |s.translations| && x in s.translations[i]
    ensures var k := Winner(BY_HEAD, s, 0); HasBetween(s.translations[j], s.translations[k][0], x)
  {
    var ts, k := s.translations, Winner(BY_HEAD, s, 0);
    WinnerFrom(s, 0);
    assert Giving(ts[i]) && Giving(ts[j]) && Giving(ts[k]);
    var y := ts[j][0];
    HeadFirst(ts[i], ts[i][0]);
    assert y in ts[j] && After(y, ts[k][0]) && After(x, y);
  }

  // ----- a whole run -----

  lemma RecruitGives(s: State, k: nat)
    requires AllGiving(s.translations) && k < |s.translations|
    ensures var r := Recruit(None, s, k);
            && Gave(s.translations, k, r.translations) && AllGiving(r.translations)
            && r.candidates == s.candidates + [s.translations[k][0]]
  {
    var ts, r := s.translations, Recruit(None, s, k);
    assert Giving(ts[k]);
    forall i | 0 <= i < |r.translations|
      ensures Giving(r.translations[i])
    {
      var h := CameFrom(ts, k, r.translations, i);
      assert Giving(ts[h]);
    }
  }

  lemma RecruitOrdered(s: State, k: nat)
    requires OrderedState(s) && LeastHead(s.translations, k)
    ensures OrderedState(Recruit(None, s, k))
  {
    var ts, r := s.translations, Recruit(None, s, k);
    RecruitGives(s, k);
    assert ts[k][0] in ts[k];
    forall i | 0 <= i < |r.translations|
      ensures AllBefore(r.candidates, r.translations[i])
    {
      var h := CameFrom(ts, k, r.translations, i);
      forall y | y in r.translations[i]
        ensures y in ts[h] && NotAfter(ts[k][0], y)
      {
        FirstOfAll(ts, k, h, y);
      }
    }
  }

  /** Aligned translations come out in order, and stay aligned. */
  lemma {:induction false} PreparedOrdered(s: State, n: nat)
    requires OrderedState(s) && Aligned(s.translations)
    ensures var r := Prepared(BY_HEAD, None, s, n); OrderedState(r) && Aligned(r.translations)
    decreases Left(s.translations)
  {
    hide OrderedState, Aligned, AllGiving, Gave, LeastHead, Recruit;
    var k := Winner(BY_HEAD, s, 0);
    if !(|s.candidates| >= n || k == |s.translations|) {
      RecruitUses(None, s, k);
      OrderedGives(s);
      WinnerIsFirst(s);
      RecruitGives(s, k);
      RecruitOrdered(s, k);
      StaysAligned(s.translations, k, Recruit(None, s, k).translations);
      PreparedOrdered(Recruit(None, s, k), n);
    }
  }

  lemma OrderedGives(s: State)
    requires OrderedState(s)
    ensures AllGiving(s.translations) && InOrder(s.candidates)
  {
  }

  ghost predicate ListsAll(list: seq<Candidate>, before: nat, ts: seq<Translation>) {
    before <= |list| && forall k, x :: 0 <= k < |ts| && x in ts[k] ==> x in list[before..]
  }

  /** All that there is is listed in the end. */
  lemma {:induction false} EverythingLists(s: State)
    requires AllGiving(s.translations)
    ensures var all := Everything(BY_HEAD, None, s).candidates;
            s.candidates <= all && ListsAll(all, |s.candidates|, s.translations)
    decreases Left(s.translations)
  {
    if |s.translations| > 0 {
      var k := Winner(BY_HEAD, s, 0);
      WinnerFrom(s, 0);
      RecruitUses(None, s, k);
      RecruitGives(s, k);
      var r := Recruit(None, s, k);
      EverythingLists(r);
      hide Recruit, Winner, AllGiving, ListsAll, Gave;
      ListsOneMore(s, k, r, Everything(BY_HEAD, None, r).candidates);
    } else {
      assert Winner(BY_HEAD, s, 0) == 0;
    }
  }

  lemma ListsOneMore(s: State, k: nat, r: State, all: seq<Candidate>)
    requires Gave(s.translations, k, r.translations) && r.candidates == s.candidates + [s.translations[k][0]]
    requires r.candidates <= all && ListsAll(all, |r.candidates|, r.translations)
    ensures s.candidates <= all && ListsAll(all, |s.candidates|, s.translations) && all[|s.candidates|] == s.translations[k][0]
  {
    var n := |s.candidates|;
    assert all[n] == r.candidates[n];
    assert all[n..] == [all[n]] + all[|r.candidates|..];
    forall i, x | 0 <= i < |s.translations| && x in s.translations[i]
      ensures x in all[n..]
    {
      if i != k || x != s.translations[k][0] { StillThere(s.translations, k, r.translations, i, x); }
    }
  }

  /** What comes first in an ordered list of everything is a first one. */
  lemma FirstIsLeast(s: State, k: nat, all: seq<Candidate>)
    requires AllGiving(s.translations) && k < |s.translations| && InOrder(all) && ListsAll(all, |s.candidates|, s.translations)
    requires |s.candidates| < |all| && all[|s.candidates|] == s.translations[k][0]
    ensures LeastHead(s.translations, k)
  {
    var ts, n := s.translations, |s.candidates|;
    forall l | 0 <= l < |ts|
      ensures NotAfter(ts[k][0], ts[l][0])
    {
      assert Giving(ts[l]) && ts[l][0] in ts[l];
      assert ts[l][0] in all[n..];
      var p :| 0 <= p < |all[n..]| && all[n..][p] == ts[l][0];
      assert all[n + p] == ts[l][0];
    }
  }

  /** Main result: what translations in order give, all in all, is in order if and only if they are
      aligned. */
  lemma {:induction false} OrderedExactly(s: State)
    requires OrderedState(s)
    ensures InOrder(Everything(BY_HEAD, None, s).candidates) <==> Aligned(s.translations)
    decreases Left(s.translations)
  {
    if |s.translations| == 0 {
      TwoAreAligned(s.translations);
    } else {
      var k := Winner(BY_HEAD, s, 0);
      OrderedGives(s);
      WinnerFrom(s, 0);
      RecruitUses(None, s, k);
      RecruitGives(s, k);
      EverythingLists(s);
      var r := Recruit(None, s, k);
      EverythingLists(r);
      var all := Everything(BY_HEAD, None, s).candidates;
      assert all == Everything(BY_HEAD, None, r).candidates;
      hide Recruit, Winner, Everything, AllGiving, OrderedState, Aligned, Gave, LeastHead, ListsAll, InOrder;
      assert all[|s.candidates|] == s.translations[k][0];
      if InOrder(all) { FirstIsLeast(s, k, all); }
      if Aligned(s.translations) { WinnerIsFirst(s); }
      if LeastHead(s.translations, k) {
        RecruitOrdered(s, k);
        OrderedExactly(r);
        if Aligned(s.translations) { StaysAligned(s.translations, k, r.translations); }
        if Aligned(r.translations) { WasAligned(s, k, r.translations); }
      }
    }
  }

  /** Three translations need not be: here the third has the first candidate, and the first does not
      leave it to the second. */
  lemma ThreeOutOfOrder(a: Candidate, b: Candidate, c: Candidate)
    requires After(b, a) && After(c, b)
    ensures var s := State([[b], [c], [a]], []); OrderedState(s) && !InOrder(Everything(BY_HEAD, None, s).candidates)
  {
    var ts := [[b], [c], [a]];
    assert b in ts[0] && c in ts[1] && a in ts[2];
    assert !HasBetween(ts[1], a, b);
    assert !Yields(ts, 0, 1, 2, b, c, a);
    OrderedExactly(State(ts, []));
  }
}
