/** Applying a spelling algebra to a script. */
module Projections {
  import opened Commons
  import opened Spellings
  import opened SpellingAlgebra

  class Script {
    var spellings: ScriptMap

    constructor ()
      ensures spellings == map[]
    {
      spellings := map[];
    }

    /** A syllable spells itself, normally; adding it again changes nothing. */
    method AddSyllable(syllable: string) returns (added: bool)
      modifies this
      ensures added <==> syllable !in old(spellings)
      ensures spellings
              == if added then old(spellings)[syllable := [Spelling(syllable, Properties(NORMAL, 0, 1.0, ""))]] else old(spellings)
    {
      if syllable in spellings {
        return false;
      }
      spellings := spellings[syllable := [Spelling(syllable, DEFAULT_PROPERTIES)]];
      added := true;
    }

    method Merge(s: string, sp: Properties, v: Listing)
      modifies this
      ensures spellings == MergeInto(old(spellings), s, sp, v)
    {
      var before := spellings;
      var m := Entries(spellings, s);
      for i := 0 to |v|
        invariant m == MergeAll(Entries(old(spellings), s), sp, v[..i])
      {
        assert v[..i + 1][..i] == v[..i];
        var x := v[i];
        var yy := x.properties;
        if sp.kind > yy.kind {
          yy := yy.(kind := sp.kind);
        }
        yy := yy.(credibility := Times(yy.credibility, sp.credibility));
        if sp.tips != "" {
          yy := yy.(tips := sp.tips);
        }
        var e := Find(m, x.str);
        if e == |m| {
          m := m + [Spelling(x.str, yy)];
        } else {
          var zz := m[e].properties;
          if yy.kind < zz.kind {
            zz := zz.(kind := yy.kind);
          }
          if yy.credibility > zz.credibility {
            zz := zz.(credibility := yy.credibility);
          }
          zz := zz.(tips := "");
          m := m[e := Spelling(m[e].str, zz)];
        }
      }
      assert v[..|v|] == v;
      spellings := before[s := m];
    }
  }

  /** Some spelling of the script makes the formula fail. */
  ghost predicate FailsOn(c: Calculation, script: ScriptMap) {
    exists s :: s in script && c.apply(s).Failed?
  }

  ghost predicate RewritesOn(c: Calculation, script: ScriptMap) {
    exists s :: s in script && c.apply(s).Rewritten?
  }

  /** Some chain of the first `r` rounds leads to `s`. */
  ghost predicate Arrives(origin: ScriptMap, calcs: seq<Calculation>, r: nat, s: string)
    requires r <= |calcs|
  {
    exists x, ch :: Leads(origin, calcs[..r], x, s, ch)
  }

  /** Round `r` fails on a spelling that the rounds before it lead to. */
  ghost predicate FailsIn(origin: ScriptMap, calcs: seq<Calculation>, r: nat) {
    r < |calcs| && exists s :: Arrives(origin, calcs, r, s) && calcs[r].apply(s).Failed?
  }

  ghost predicate RewritesIn(origin: ScriptMap, calcs: seq<Calculation>, r: nat) {
    r < |calcs| && exists s :: Arrives(origin, calcs, r, s) && calcs[r].apply(s).Rewritten?
  }

  /** The first `n` rounds succeed, and `modified` tells whether one of them rewrites anything. */
  ghost predicate Succeed(origin: ScriptMap, calcs: seq<Calculation>, n: nat, modified: bool) {
    && (forall r: nat :: r < n ==> !FailsIn(origin, calcs, r))
    && (modified <==> exists r: nat :: r < n && RewritesIn(origin, calcs, r))
  }

  /** The rounds before `rounds` succeed, and that one, if there is one, fails. */
  ghost predicate RunsTo(origin: ScriptMap, calcs: seq<Calculation>, rounds: nat, modified: bool) {
    if rounds == |calcs| then Succeed(origin, calcs, rounds, modified)
    else !modified && FailsIn(origin, calcs, rounds) && forall r: nat :: r < rounds ==> !FailsIn(origin, calcs, r)
  }

  lemma ArrivesIsListed(origin: ScriptMap, calcs: seq<Calculation>, r: nat, script: ScriptMap, s: string)
    requires r <= |calcs| && NoneEmpty(origin) && SumsUp(origin, calcs[..r], script)
    ensures s in script <==> Arrives(origin, calcs, r, s)
  {
    if s in script {
      assert Has(script[s], script[s][0].str);
      assert Listed(script, s, script[s][0].str);
    }
    if Arrives(origin, calcs, r, s) {
      var x, ch :| Leads(origin, calcs[..r], x, s, ch);
      assert Listed(script, s, x);
    }
  }

  /** What a round meets is what the rounds before it lead to. */
  lemma RoundMeets(origin: ScriptMap, calcs: seq<Calculation>, r: nat, script: ScriptMap)
    requires r < |calcs| && NoneEmpty(origin) && SumsUp(origin, calcs[..r], script)
    ensures FailsOn(calcs[r], script) <==> FailsIn(origin, calcs, r)
    ensures RewritesOn(calcs[r], script) <==> RewritesIn(origin, calcs, r)
  {
    hide SumsUp, Arrives;
    forall s
      ensures s in script <==> Arrives(origin, calcs, r, s)
    {
      ArrivesIsListed(origin, calcs, r, script, s);
    }
  }

  /** One more round. */
  lemma RunsOn(origin: ScriptMap, calcs: seq<Calculation>, r: nat, script: ScriptMap, modified: bool, ok: bool, applied: bool)
    requires r < |calcs| && NoneEmpty(origin) && SumsUp(origin, calcs[..r], script) && Succeed(origin, calcs, r, modified)
    requires ok <==> !FailsOn(calcs[r], script)
    requires ok ==> (applied <==> RewritesOn(calcs[r], script))
    ensures ok ==> Succeed(origin, calcs, r + 1, modified || applied)
    ensures !ok ==> RunsTo(origin, calcs, r, false)
  {
    RoundMeets(origin, calcs, r, script);
    hide SumsUp, FailsIn, RewritesIn, FailsOn, RewritesOn;
    if ok {
      forall k: nat | k < r + 1
        ensures !FailsIn(origin, calcs, k) && (k < r || RewritesIn(origin, calcs, k) == applied)
      {
        if k == r { }
      }
    }
  }

  lemma NothingRuns(calcs: seq<Calculation>)
    ensures RunsTo(map[], calcs, |calcs|, false)
  {
    forall r: nat, s | r <= |calcs|
      ensures !Arrives(map[], calcs, r, s)
    {
      forall ch
        ensures !IsChain(map[], calcs[..r], ch)
      {
        NoChains(calcs[..r], ch);
      }
    }
  }

  datatype Projection = Projection(calculations: seq<Calculation>)
  {
    /** Runs the formulas round by round until one fails. `rounds` of them are completed. */
    method Apply(value: Script) returns (modified: bool, ghost rounds: nat)
      requires ListsOnce(value.spellings)
      requires forall c :: c in calculations ==> Sound(c)
      modifies value
      ensures rounds <= |calculations| && SumsUp(old(value.spellings), calculations[..rounds], value.spellings)
      ensures rounds == |calculations| && !modified ==> value.spellings == old(value.spellings)
      ensures old(NoneEmpty(value.spellings)) ==> RunsTo(old(value.spellings), calculations, rounds, modified)
    {
      rounds := 0;
      modified := false;
      SeedsSumUp(value.spellings);
      if value.spellings == map[] {
        rounds := |calculations|;
        EmptySumsUp(calculations);
        NothingRuns(calculations);
        assert calculations[..rounds] == calculations;
        return;
      }
      hide SumsUp, Sound, FailsOn, RewritesOn, FailsIn, RewritesIn, NoneEmpty;
      for i := 0 to |calculations|
        invariant rounds == i && SumsUp(old(value.spellings), calculations[..i], value.spellings)
        invariant !modified ==> value.spellings == old(value.spellings)
        invariant old(NoneEmpty(value.spellings)) ==> Succeed(old(value.spellings), calculations, i, modified)
      {
        hide Succeed, RunsTo;
        ghost var script := value.spellings;
        var temp := new Script();
        var ok, applied := ApplyRound(calculations[i], value, temp, old(value.spellings), calculations[..i]);
        if old(NoneEmpty(value.spellings)) {
          RunsOn(old(value.spellings), calculations, i, script, modified, ok, applied);
        }
        if !ok {
          return false, rounds;
        }
        assert calculations[..i + 1] == calculations[..i] + [calculations[i]];
        if applied {
          modified := true;
        }
        value.spellings := temp.spellings;
        rounds := rounds + 1;
      }
    }

    /** One round, from `value` into the empty `temp`. */
    method ApplyRound(c: Calculation, value: Script, temp: Script, ghost origin: ScriptMap, ghost calcs: seq<Calculation>)
      returns (ok: bool, applied: bool)
      requires value != temp && temp.spellings == map[]
      requires Sound(c) && SumsUp(origin, calcs, value.spellings)
      modifies temp
      ensures ok ==> SumsUp(origin, calcs + [c], temp.spellings)
      ensures ok && !applied ==> temp.spellings == value.spellings
      ensures ok <==> !FailsOn(c, value.spellings)
      ensures ok ==> (applied <==> RewritesOn(c, value.spellings))
    {
      hide *;
      ghost var script := value.spellings;
      ghost var flows: set<Flow> := {};
      ok, applied := true, false;
      RoundStarts(origin, calcs, script, c);
      var rest := value.spellings.Keys;
      while |rest| > 0
        invariant rest <= script.Keys && value.spellings == script
        invariant Result(script, flows, temp.spellings) && FlowsOutside(script, c, rest, flows)
        invariant !applied ==> SameOutside(script, rest, temp.spellings)
        invariant Passed(c, script, rest, applied)
      {
        NonEmpty(rest);
        var s :| s in rest;
        var rewritten;
        ok, rewritten, flows := ApplyTo(c, s, value.spellings[s], temp, script, rest, flows);
        if !ok {
          Fails(c, script, s);
          return;
        }
        PassesOne(c, script, rest, applied, s);
        rest := rest - {s};
        applied := applied || rewritten;
      }
      PassedAll(c, script, applied);
      RoundEnds(origin, calcs, script, c, flows, temp.spellings);
    }

    /** What one round does with one spelling. */
    method ApplyTo(c: Calculation, s: string, v: Listing, temp: Script,
                   ghost script: ScriptMap, ghost rest: set<string>, ghost flows0: set<Flow>)
      returns (ok: bool, applied: bool, ghost flows: set<Flow>)
      requires ListsOnce(script) && s in rest && s in script && v == script[s]
      requires Result(script, flows0, temp.spellings) && FlowsOutside(script, c, rest, flows0)
      modifies temp
      ensures ok ==> Result(script, flows, temp.spellings) && FlowsOutside(script, c, rest - {s}, flows)
      ensures ok && !applied ==> (old(SameOutside(script, rest, temp.spellings)) ==> SameOutside(script, rest - {s}, temp.spellings))
      ensures ok <==> !c.apply(s).Failed?
      ensures ok ==> (applied <==> c.apply(s).Rewritten?)
    {
      hide Result, ListsOnce, MergeInto, SameOutside;
      ok, applied, flows := true, false, flows0;
      match c.apply(s) {
        case Failed =>
          ok := false;
        case Rewritten(str, sp) =>
          applied := true;
          if !c.deletion {
            flows := MergeOneFlow(Flow(s, s, DEFAULT_PROPERTIES), v, temp, script, flows);
          }
          if c.addition && str != "" {
            flows := MergeOneFlow(Flow(s, str, sp), v, temp, script, flows);
          }
        case Untouched =>
          if SameOutside(script, rest, temp.spellings) { KeepSame(script, rest, temp.spellings, s); }
          flows := MergeOneFlow(Flow(s, s, DEFAULT_PROPERTIES), v, temp, script, flows);
      }
    }

    method MergeOneFlow(flow: Flow, v: Listing, temp: Script, ghost script: ScriptMap, ghost flows0: set<Flow>)
      returns (ghost flows: set<Flow>)
      requires ListsOnce(script) && flow.from in script && v == script[flow.from]
      requires Result(script, flows0, temp.spellings)
      modifies temp
      ensures temp.spellings == MergeInto(old(temp.spellings), flow.to, flow.props, v)
      ensures flows == flows0 + {flow} && Result(script, flows, temp.spellings)
    {
      hide Result, ListsOnce, MergeInto;
      MergeFlow(script, flows0, flow, temp.spellings);
      flows := flows0 + {flow};
      temp.Merge(flow.to, flow.props, v);
    }
  }

  /** The spellings outside `rest` make nothing fail, and `applied` tells whether one is rewritten. */
  ghost predicate Passed(c: Calculation, script: ScriptMap, rest: set<string>, applied: bool) {
    && (forall s :: s in script && s !in rest ==> !c.apply(s).Failed?)
    && (applied <==> exists s :: s in script && s !in rest && c.apply(s).Rewritten?)
  }

  lemma PassesOne(c: Calculation, script: ScriptMap, rest: set<string>, applied: bool, s: string)
    requires Passed(c, script, rest, applied) && s in rest && s in script && !c.apply(s).Failed?
    ensures Passed(c, script, rest - {s}, applied || c.apply(s).Rewritten?)
  {
    assert forall t :: t in script ==> (t !in rest - {s} <==> t !in rest || t == s);
  }

  lemma PassedAll(c: Calculation, script: ScriptMap, applied: bool)
    requires Passed(c, script, {}, applied)
    ensures !FailsOn(c, script) && (applied <==> RewritesOn(c, script))
  {
  }

  lemma RoundStarts(origin: ScriptMap, calcs: seq<Calculation>, script: ScriptMap, c: Calculation)
    requires SumsUp(origin, calcs, script)
    ensures ListsOnce(script) && Result(script, {}, map[])
    ensures FlowsOutside(script, c, script.Keys, {}) && SameOutside(script, script.Keys, map[])
    ensures Passed(c, script, script.Keys, false)
  {
    NoFlows(script);
  }

  lemma RoundEnds(origin: ScriptMap, calcs: seq<Calculation>, script: ScriptMap, c: Calculation, flows: set<Flow>, next: ScriptMap)
    requires SumsUp(origin, calcs, script) && Sound(c)
    requires Result(script, flows, next) && FlowsOutside(script, c, {}, flows)
    ensures SumsUp(origin, calcs + [c], next)
    ensures SameOutside(script, {}, next) ==> next == script
  {
    hide SumsUp, Sound, Result, Flows;
    assert AllFlows(script, c, flows);
    RoundSumsUp(origin, calcs, c, script, flows, next);
  }

  lemma Fails(c: Calculation, script: ScriptMap, s: string)
    requires s in script && c.apply(s).Failed?
    ensures FailsOn(c, script)
  {
  }

  lemma NonEmpty(rest: set<string>)
    requires |rest| > 0
    ensures exists s :: s in rest
  {
    assert (forall s :: s !in rest) ==> rest == {};
  }

  /** All flows that start at a spelling outside `rest`. */
  ghost predicate FlowsOutside(script: ScriptMap, c: Calculation, rest: set<string>, flows: set<Flow>) {
    forall f :: f in flows <==> f.from in script && f.from !in rest && Flows(c, f)
  }

  ghost predicate SameOutside(script: ScriptMap, rest: set<string>, next: ScriptMap) {
    && (forall s :: s in next <==> s in script && s !in rest)
    && (forall s :: s in next ==> next[s] == script[s])
  }

  lemma {:induction false} MergeIntoNothing(v: Listing)
    requires Distinct(v)
    ensures MergeAll([], DEFAULT_PROPERTIES, v) == v
  {
    if |v| > 0 {
      var init, x := v[..|v| - 1], v[|v| - 1];
      MergeIntoNothing(init);
      LastListed(v, x.str);
      assert Times(x.properties.credibility, 1.0) == x.properties.credibility;
      assert Reached(x, DEFAULT_PROPERTIES) == x;
    }
  }

  lemma KeepSame(script: ScriptMap, rest: set<string>, next: ScriptMap, s: string)
    requires ListsOnce(script) && s in script && s in rest && SameOutside(script, rest, next)
    ensures SameOutside(script, rest - {s}, MergeInto(next, s, DEFAULT_PROPERTIES, script[s]))
  {
    MergeIntoNothing(script[s]);
  }

  lemma {:induction false} EmptySumsUp(calcs: seq<Calculation>)
    ensures SumsUp(map[], calcs, map[])
  {
    forall ch
      ensures !IsChain(map[], calcs, ch)
    {
      NoChains(calcs, ch);
    }
  }

  lemma {:induction false} NoChains(calcs: seq<Calculation>, ch: Chain)
    ensures !IsChain(map[], calcs, ch)
  {
    if ch.Link? && |calcs| > 0 { NoChains(calcs[..|calcs| - 1], ch.prev); }
  }

  // ----- consequences -----

  ghost predicate OnlyAdds(c: Calculation) {
    !c.deletion && forall t: string :: !c.apply(t).Failed?
  }

  /** With formulas that only ever add, every original spelling stays listed, no worse than
      it was. */
  lemma {:induction false} OriginalsStay(origin: ScriptMap, calcs: seq<Calculation>, script: ScriptMap, s: string, x: string)
    requires SumsUp(origin, calcs, script) && Listed(origin, s, x)
    requires forall c :: c in calcs ==> OnlyAdds(c)
    ensures Listed(script, s, x)
    ensures GradeIn(script[s], x).kind <= GradeIn(origin[s], x).kind
    ensures GradeIn(script[s], x).credibility >= GradeIn(origin[s], x).credibility
  {
    var ch := StayingChain(origin, calcs, s, x);
    assert Leads(origin, calcs, x, s, ch);
  }

  lemma {:induction false} StayingChain(origin: ScriptMap, calcs: seq<Calculation>, s: string, x: string) returns (ch: Chain)
    requires Listed(origin, s, x)
    requires forall c :: c in calcs ==> OnlyAdds(c)
    ensures Leads(origin, calcs, x, s, ch) && ch.Worth() == GradeIn(origin[s], x)
  {
    if |calcs| == 0 {
      ch := Seed(s, x, GradeIn(origin[s], x));
    } else {
      var init, c := calcs[..|calcs| - 1], calcs[|calcs| - 1];
      assert c in calcs;
      var prev := StayingChain(origin, init, s, x);
      ch := Link(prev, Flow(s, s, DEFAULT_PROPERTIES));
      assert Times(prev.Worth().credibility, 1.0) == prev.Worth().credibility;
    }
  }
}
