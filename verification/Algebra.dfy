/** The spelling algebra: rounds of rewriting over a map from spellings to the syllables
    they stand for. */
module SpellingAlgebra {
  import opened Commons
  import opened Spellings

  /** What a formula makes of one spelling. */
  datatype Outcome = Untouched | Rewritten(str: string, properties: Properties) | Failed

  datatype Calculation = Calculation(apply: string -> Outcome, addition: bool, deletion: bool)

  type Listing = seq<Spelling>

  type ScriptMap = map<string, Listing>

  // ----- grades -----

  /** How good a spelling of a syllable is: its type and its credibility. */
  datatype Grade = Grade(kind: SpellingType, credibility: real)

  /** The grade after one more step. */
  function Step(g: Grade, sp: Properties): Grade {
    Grade(Worse(g.kind, sp.kind), Times(g.credibility, sp.credibility))
  }

  /** The better type and the higher credibility, each by itself. */
  function Better(a: Grade, b: Grade): Grade {
    Grade(if b.kind < a.kind then b.kind else a.kind,
          if b.credibility > a.credibility then b.credibility else a.credibility)
  }

  function GradeOf(s: Spelling): Grade {
    Grade(s.properties.kind, s.properties.credibility)
  }

  // ----- listings -----

  /** Where `str` is listed first, or the length of the listing. */
  function Find(m: Listing, str: string): (n: nat)
    ensures n <= |m| && (n < |m| ==> m[n].str == str)
    ensures forall i :: 0 <= i < n ==> m[i].str != str
  {
    if |m| == 0 || m[0].str == str then 0 else 1 + Find(m[1..], str)
  }

  predicate Has(m: Listing, str: string) {
    Find(m, str) < |m|
  }

  function GradeIn(m: Listing, str: string): Grade
    requires Has(m, str)
  {
    GradeOf(m[Find(m, str)])
  }

  ghost predicate Distinct(m: Listing) {
    forall i, j :: 0 <= i < j < |m| ==> m[i].str != m[j].str
  }

  /** `x` as reached by a step with `sp`. */
  function Reached(x: Spelling, sp: Properties): Spelling {
    var p := x.properties;
    Spelling(x.str, Properties(Worse(p.kind, sp.kind), p.endPos, Times(p.credibility, sp.credibility),
                               if sp.tips != "" then sp.tips else p.tips))
  }

  function MergeOne(m: Listing, sp: Properties, x: Spelling): Listing {
    var y := Reached(x, sp);
    var e := Find(m, x.str);
    if e == |m| then m + [y]
    else
      var z := m[e].properties;
      var best := Better(GradeOf(m[e]), GradeOf(y));
      m[e := Spelling(m[e].str, Properties(best.kind, z.endPos, best.credibility, ""))]
  }

  function MergeAll(m: Listing, sp: Properties, v: Listing): Listing {
    if |v| == 0 then m else MergeOne(MergeAll(m, sp, v[..|v| - 1]), sp, v[|v| - 1])
  }

  lemma FindUnique(m: Listing, i: nat)
    requires Distinct(m) && i < |m|
    ensures Find(m, m[i].str) == i
  {
  }

  lemma MergeOneSpec(m: Listing, sp: Properties, x: Spelling)
    requires Distinct(m)
    ensures var m' := MergeOne(m, sp, x);
            && Distinct(m')
            && Has(m', x.str)
            && GradeIn(m', x.str) == (if Has(m, x.str) then Better(GradeIn(m, x.str), Step(GradeOf(x), sp)) else Step(GradeOf(x), sp))
            && forall y :: y != x.str ==> Has(m', y) == Has(m, y) && (Has(m, y) ==> GradeIn(m', y) == GradeIn(m, y))
  {
    var m' := MergeOne(m, sp, x);
    var e := Find(m, x.str);
    assert m'[e].str == x.str;
    FindUnique(m', e);
    forall y | y != x.str
      ensures Has(m', y) == Has(m, y) && (Has(m, y) ==> GradeIn(m', y) == GradeIn(m, y))
    {
      var i := Find(m, y);
      if i < |m| { assert m'[i] == m[i]; FindUnique(m', i); }
      var j := Find(m', y);
      if j < |m'| { assert j < |m| && m[j] == m'[j]; }
    }
  }

  /** Merging takes the better type and the higher credibility of what was listed and what
      the step brings, syllable by syllable. */
  lemma {:induction false} MergeAllSpec(m: Listing, sp: Properties, v: Listing, y: string)
    requires Distinct(m) && Distinct(v)
    ensures var m' := MergeAll(m, sp, v);
            && Distinct(m')
            && (Has(m', y) <==> Has(m, y) || Has(v, y))
            && (Has(m, y) && !Has(v, y) ==> GradeIn(m', y) == GradeIn(m, y))
            && (Has(m, y) && Has(v, y) ==> GradeIn(m', y) == Better(GradeIn(m, y), Step(GradeIn(v, y), sp)))
            && (!Has(m, y) && Has(v, y) ==> GradeIn(m', y) == Step(GradeIn(v, y), sp))
  {
    if |v| > 0 {
      var init, x := v[..|v| - 1], v[|v| - 1];
      MergeAllSpec(m, sp, init, y);
      MergeOneSpec(MergeAll(m, sp, init), sp, x);
      LastListed(v, y);
    }
  }

  function TipsIn(m: Listing, str: string): string
    requires Has(m, str)
  {
    m[Find(m, str)].properties.tips
  }

  lemma MergeOneTips(m: Listing, sp: Properties, x: Spelling, y: string)
    requires Distinct(m)
    ensures var m' := MergeOne(m, sp, x);
            && (y == x.str ==> Has(m', y) && TipsIn(m', y) == if Has(m, y) then "" else if sp.tips != "" then sp.tips else x.properties.tips)
            && (y != x.str && Has(m, y) ==> Has(m', y) && TipsIn(m', y) == TipsIn(m, y))
  {
    var m' := MergeOne(m, sp, x);
    MergeOneSpec(m, sp, x);
    var e := Find(m, x.str);
    assert m'[e].str == x.str;
    FindUnique(m', e);
    if y != x.str && Has(m, y) { FindUnique(m', Find(m, y)); }
  }

  /** A syllable that is new takes the tips of the step, or its own if the step has none; one that was
      listed already loses its tips. */
  lemma {:induction false} MergeAllTips(m: Listing, sp: Properties, v: Listing, y: string)
    requires Distinct(m) && Distinct(v)
    ensures var m' := MergeAll(m, sp, v);
            && (Has(m, y) && !Has(v, y) ==> Has(m', y) && TipsIn(m', y) == TipsIn(m, y))
            && (Has(m, y) && Has(v, y) ==> Has(m', y) && TipsIn(m', y) == "")
            && (!Has(m, y) && Has(v, y) ==> Has(m', y) && TipsIn(m', y) == if sp.tips != "" then sp.tips else TipsIn(v, y))
  {
    if |v| > 0 {
      var init, x := v[..|v| - 1], v[|v| - 1];
      MergeAllTips(m, sp, init, y);
      MergeAllSpec(m, sp, init, y);
      MergeAllSpec(m, sp, init, x.str);
      MergeOneTips(MergeAll(m, sp, init), sp, x, y);
      LastListed(v, y);
      LastTips(v, y);
      hide MergeAll, MergeOne, TipsIn, Has, Distinct;
    }
  }

  lemma LastTips(v: Listing, y: string)
    requires |v| > 0 && Distinct(v)
    ensures var init, x := v[..|v| - 1], v[|v| - 1];
            Has(v, y) ==> if y == x.str then TipsIn(v, y) == x.properties.tips else Has(init, y) && TipsIn(v, y) == TipsIn(init, y)
  {
    var init, x := v[..|v| - 1], v[|v| - 1];
    FindUnique(v, |v| - 1);
    var j := Find(v, y);
    if j < |v| - 1 { assert init[j] == v[j]; FindUnique(init, j); }
  }

  lemma LastListed(v: Listing, y: string)
    requires |v| > 0 && Distinct(v)
    ensures var init, x := v[..|v| - 1], v[|v| - 1];
            && (Has(v, y) <==> Has(init, y) || y == x.str)
            && (y == x.str ==> !Has(init, y) && GradeIn(v, y) == GradeOf(x))
            && (Has(init, y) ==> GradeIn(v, y) == GradeIn(init, y))
  {
    var init, x := v[..|v| - 1], v[|v| - 1];
    FindUnique(v, |v| - 1);
    var i := Find(init, y);
    if i < |init| { assert v[i] == init[i]; FindUnique(v, i); }
    var j := Find(v, y);
    if j < |v| - 1 { assert init[j] == v[j]; FindUnique(init, j); }
  }

  // ----- one round -----

  /** A spelling becomes, or stays, a spelling in one round. */
  datatype Flow = Flow(from: string, to: string, props: Properties)

  /** What a formula does with a spelling: an untouched one stays; a rewritten one stays
      unless the formula deletes it, and gives the new one if the formula adds it. */
  ghost predicate Flows(c: Calculation, f: Flow) {
    match c.apply(f.from)
    case Untouched => f.to == f.from && f.props == Properties(NORMAL, 0, 1.0, "")
    case Rewritten(str, sp) =>
      || (!c.deletion && f.to == f.from && f.props == Properties(NORMAL, 0, 1.0, ""))
      || (c.addition && str != "" && f.to == str && f.props == sp)
    case Failed => false
  }

  function Entries(script: ScriptMap, s: string): Listing {
    if s in script then script[s] else []
  }

  function MergeInto(script: ScriptMap, s: string, sp: Properties, v: Listing): ScriptMap {
    script[s := MergeAll(Entries(script, s), sp, v)]
  }

  ghost predicate ListsOnce(script: ScriptMap) {
    forall s :: s in script ==> Distinct(script[s])
  }

  ghost predicate Carries(script: ScriptMap, f: Flow, x: string) {
    f.from in script && Has(script[f.from], x)
  }

  ghost function Carried(script: ScriptMap, f: Flow, x: string): Grade
    requires Carries(script, f, x)
  {
    Step(GradeIn(script[f.from], x), f.props)
  }

  /** `g` has the best type and the highest credibility of the grades carried to `to`. */
  ghost predicate BestCarried(script: ScriptMap, flows: set<Flow>, to: string, x: string, g: Grade) {
    && (forall f :: f in flows && f.to == to && Carries(script, f, x) ==>
          g.kind <= Carried(script, f, x).kind && g.credibility >= Carried(script, f, x).credibility)
    && (exists f :: f in flows && f.to == to && Carries(script, f, x) && Carried(script, f, x).kind == g.kind)
    && (exists f :: f in flows && f.to == to && Carries(script, f, x) && Carried(script, f, x).credibility == g.credibility)
  }

  ghost predicate IsCarried(script: ScriptMap, flows: set<Flow>, to: string, x: string) {
    exists f :: f in flows && f.to == to && Carries(script, f, x)
  }

  /** `next` is what the flows make of `script`. */
  ghost predicate Result(script: ScriptMap, flows: set<Flow>, next: ScriptMap) {
    && ListsOnce(next)
    && (forall s :: s in next <==> exists f :: f in flows && f.to == s)
    && (forall s, x :: s in next ==> (Has(next[s], x) <==> IsCarried(script, flows, s, x)))
    && (forall s, x :: s in next && Has(next[s], x) ==> BestCarried(script, flows, s, x, GradeIn(next[s], x)))
  }

  lemma NoFlows(script: ScriptMap)
    ensures Result(script, {}, map[])
  {
  }

  lemma CarriedElsewhere(script: ScriptMap, flows: set<Flow>, f: Flow, to: string, x: string)
    requires f.to != to || !Carries(script, f, x)
    ensures IsCarried(script, flows + {f}, to, x) <==> IsCarried(script, flows, to, x)
    ensures forall g :: BestCarried(script, flows + {f}, to, x, g) <==> BestCarried(script, flows, to, x, g)
  {
  }

  lemma CarriedAgain(script: ScriptMap, flows: set<Flow>, f: Flow, x: string, g: Grade)
    requires Carries(script, f, x) && BestCarried(script, flows, f.to, x, g)
    ensures BestCarried(script, flows + {f}, f.to, x, Better(g, Carried(script, f, x)))
  {
    var h := Carried(script, f, x);
    var k :| k in flows && k.to == f.to && Carries(script, k, x) && Carried(script, k, x).kind == g.kind;
    var c :| c in flows && c.to == f.to && Carries(script, c, x) && Carried(script, c, x).credibility == g.credibility;
    assert f in flows + {f} && k in flows + {f} && c in flows + {f};
  }

  lemma CarriedFirst(script: ScriptMap, flows: set<Flow>, f: Flow, x: string)
    requires Carries(script, f, x) && !IsCarried(script, flows, f.to, x)
    ensures BestCarried(script, flows + {f}, f.to, x, Carried(script, f, x))
  {
    assert f in flows + {f};
  }

  /** One merge accounts for one more flow. */
  lemma MergeFlow(script: ScriptMap, flows: set<Flow>, f: Flow, next: ScriptMap)
    requires ListsOnce(script) && f.from in script && Result(script, flows, next)
    ensures Result(script, flows + {f}, MergeInto(next, f.to, f.props, script[f.from]))
  {
    var next' := MergeInto(next, f.to, f.props, script[f.from]);
    MergeAllSpec(Entries(next, f.to), f.props, script[f.from], "");
    forall s
      ensures s in next' <==> exists g :: g in flows + {f} && g.to == s
    {
      if s == f.to { assert f in flows + {f}; }
    }
    forall s, x | s in next'
      ensures Has(next'[s], x) <==> IsCarried(script, flows + {f}, s, x)
      ensures Has(next'[s], x) ==> BestCarried(script, flows + {f}, s, x, GradeIn(next'[s], x))
    {
      MergeFlowAt(script, flows, f, next, s, x);
    }
  }

  lemma MergeFlowAt(script: ScriptMap, flows: set<Flow>, f: Flow, next: ScriptMap, s: string, x: string)
    requires ListsOnce(script) && f.from in script && Result(script, flows, next)
    requires s in MergeInto(next, f.to, f.props, script[f.from])
    ensures var m := MergeInto(next, f.to, f.props, script[f.from])[s];
            && (Has(m, x) <==> IsCarried(script, flows + {f}, s, x))
            && (Has(m, x) ==> BestCarried(script, flows + {f}, s, x, GradeIn(m, x)))
  {
    if s != f.to {
      CarriedElsewhere(script, flows, f, s, x);
    } else {
      MergeAllSpec(Entries(next, s), f.props, script[f.from], x);
      assert Has(Entries(next, s), x) <==> IsCarried(script, flows, s, x);
      if !Carries(script, f, x) {
        CarriedElsewhere(script, flows, f, s, x);
      } else if Has(Entries(next, s), x) {
        CarriedAgain(script, flows, f, x, GradeIn(next[s], x));
        assert IsCarried(script, flows + {f}, s, x);
      } else {
        CarriedFirst(script, flows, f, x);
        assert f in flows + {f};
      }
    }
  }

  // ----- chains of rounds -----

  /** A way for a syllable to get from an original spelling to one it is listed under: one
      flow per round. */
  datatype Chain = Seed(at: string, syllable: string, grade: Grade) | Link(prev: Chain, flow: Flow)
  {
    function End(): string { match this case Seed(at, _, _) => at case Link(_, f) => f.to }

    function Syllable(): string { match this case Seed(_, x, _) => x case Link(c, _) => c.Syllable() }

    /** The worst type on the chain, and the product of its credibilities. */
    function Worth(): Grade { match this case Seed(_, _, g) => g case Link(c, f) => Step(c.Worth(), f.props) }
  }

  ghost predicate IsChain(origin: ScriptMap, calcs: seq<Calculation>, ch: Chain) {
    match ch
    case Seed(at, x, g) => |calcs| == 0 && at in origin && Has(origin[at], x) && g == GradeIn(origin[at], x)
    case Link(prev, f) =>
      |calcs| > 0 && IsChain(origin, calcs[..|calcs| - 1], prev) && prev.End() == f.from && Flows(calcs[|calcs| - 1], f)
  }

  ghost predicate Leads(origin: ScriptMap, calcs: seq<Calculation>, x: string, s: string, ch: Chain) {
    IsChain(origin, calcs, ch) && ch.Syllable() == x && ch.End() == s
  }

  /** `g` has the best type and the highest credibility of all chains from `x` to `s`. */
  ghost predicate BestChain(origin: ScriptMap, calcs: seq<Calculation>, x: string, s: string, g: Grade) {
    && (forall ch :: Leads(origin, calcs, x, s, ch) ==> g.kind <= ch.Worth().kind && g.credibility >= ch.Worth().credibility)
    && (exists ch :: Leads(origin, calcs, x, s, ch) && ch.Worth().kind == g.kind)
    && (exists ch :: Leads(origin, calcs, x, s, ch) && ch.Worth().credibility == g.credibility)
  }

  ghost predicate Listed(script: ScriptMap, s: string, x: string) {
    s in script && Has(script[s], x)
  }

  /** No spelling is there for nothing. */
  ghost predicate NoneEmpty(script: ScriptMap) {
    forall s :: s in script ==> script[s] != []
  }

  /** `script` sums up all chains: spelling `s` lists syllable `x` once if some chain leads
      there and not otherwise, with the best of the chains' types and credibilities. */
  ghost predicate SumsUp(origin: ScriptMap, calcs: seq<Calculation>, script: ScriptMap) {
    && ListsOnce(script) && (NoneEmpty(origin) ==> NoneEmpty(script))
    && (forall s, x :: Listed(script, s, x) <==> exists ch :: Leads(origin, calcs, x, s, ch))
    && (forall s, x :: Listed(script, s, x) ==> BestChain(origin, calcs, x, s, GradeIn(script[s], x)))
  }

  /** Credibilities are factors, never negative. */
  ghost predicate Sound(c: Calculation) {
    forall s: string :: c.apply(s).Rewritten? ==> c.apply(s).properties.credibility >= 0.0
  }

  ghost predicate AllFlows(script: ScriptMap, c: Calculation, flows: set<Flow>) {
    forall f :: f in flows <==> f.from in script && Flows(c, f)
  }

  lemma SeedsSumUp(origin: ScriptMap)
    requires ListsOnce(origin)
    ensures SumsUp(origin, [], origin)
  {
    forall s, x
      ensures Listed(origin, s, x) <==> exists ch :: Leads(origin, [], x, s, ch)
      ensures Listed(origin, s, x) ==> BestChain(origin, [], x, s, GradeIn(origin[s], x))
    {
      if Listed(origin, s, x) {
        assert Leads(origin, [], x, s, Seed(s, x, GradeIn(origin[s], x)));
      }
    }
  }

  /** A chain of one more round ends where a flow of that round carries its syllable. */
  lemma ChainIsCarried(origin: ScriptMap, calcs: seq<Calculation>, c: Calculation, script: ScriptMap, flows: set<Flow>,
                       x: string, s: string, ch: Chain)
    requires SumsUp(origin, calcs, script) && Sound(c) && AllFlows(script, c, flows)
    requires Leads(origin, calcs + [c], x, s, ch)
    ensures ch.Link? && ch.flow in flows && ch.flow.to == s && Carries(script, ch.flow, x)
    ensures Carried(script, ch.flow, x).kind <= ch.Worth().kind
    ensures Carried(script, ch.flow, x).credibility >= ch.Worth().credibility
  {
    assert (calcs + [c])[..|calcs|] == calcs;
    var f := ch.flow;
    assert Leads(origin, calcs, x, f.from, ch.prev);
    assert Listed(script, f.from, x);
    TimesMonotone(GradeIn(script[f.from], x).credibility, ch.prev.Worth().credibility, f.props.credibility);
  }

  lemma CarriedIsChain(origin: ScriptMap, calcs: seq<Calculation>, c: Calculation, flows: set<Flow>, script: ScriptMap,
                       x: string, f: Flow, prev: Chain)
    requires AllFlows(script, c, flows) && f in flows && Leads(origin, calcs, x, f.from, prev)
    ensures Leads(origin, calcs + [c], x, f.to, Link(prev, f)) && Link(prev, f).Worth() == Step(prev.Worth(), f.props)
  {
    assert (calcs + [c])[..|calcs|] == calcs;
  }

  lemma BestCarriedIsBestChain(origin: ScriptMap, calcs: seq<Calculation>, c: Calculation, script: ScriptMap, flows: set<Flow>,
                               x: string, s: string, g: Grade)
    requires SumsUp(origin, calcs, script) && Sound(c) && AllFlows(script, c, flows)
    requires BestCarried(script, flows, s, x, g)
    ensures BestChain(origin, calcs + [c], x, s, g)
  {
    forall ch | Leads(origin, calcs + [c], x, s, ch)
      ensures g.kind <= ch.Worth().kind && g.credibility >= ch.Worth().credibility
    {
      ChainIsCarried(origin, calcs, c, script, flows, x, s, ch);
    }
    var k :| k in flows && k.to == s && Carries(script, k, x) && Carried(script, k, x).kind == g.kind;
    assert Listed(script, k.from, x);
    var prevK :| Leads(origin, calcs, x, k.from, prevK) && prevK.Worth().kind == GradeIn(script[k.from], x).kind;
    CarriedIsChain(origin, calcs, c, flows, script, x, k, prevK);
    var r :| r in flows && r.to == s && Carries(script, r, x) && Carried(script, r, x).credibility == g.credibility;
    assert Listed(script, r.from, x);
    var prevR :| Leads(origin, calcs, x, r.from, prevR) && prevR.Worth().credibility == GradeIn(script[r.from], x).credibility;
    CarriedIsChain(origin, calcs, c, flows, script, x, r, prevR);
  }

  lemma StaysNonEmpty(script: ScriptMap, flows: set<Flow>, next: ScriptMap)
    requires NoneEmpty(script) && Result(script, flows, next) && forall f :: f in flows ==> f.from in script
    ensures NoneEmpty(next)
  {
    forall s | s in next
      ensures next[s] != []
    {
      var f :| f in flows && f.to == s;
      var x := script[f.from][0].str;
      assert Carries(script, f, x) && IsCarried(script, flows, s, x);
      assert Has(next[s], x);
    }
  }

  /** One more round sums up the chains that are one flow longer. */
  lemma RoundSumsUp(origin: ScriptMap, calcs: seq<Calculation>, c: Calculation, script: ScriptMap, flows: set<Flow>, next: ScriptMap)
    requires SumsUp(origin, calcs, script) && Sound(c) && AllFlows(script, c, flows) && Result(script, flows, next)
    ensures SumsUp(origin, calcs + [c], next)
  {
    if NoneEmpty(script) { StaysNonEmpty(script, flows, next); }
    forall s, x
      ensures Listed(next, s, x) <==> exists ch :: Leads(origin, calcs + [c], x, s, ch)
      ensures Listed(next, s, x) ==> BestChain(origin, calcs + [c], x, s, GradeIn(next[s], x))
    {
      if Listed(next, s, x) {
        BestCarriedIsBestChain(origin, calcs, c, script, flows, x, s, GradeIn(next[s], x));
      }
      if ch :| Leads(origin, calcs + [c], x, s, ch) {
        ChainIsCarried(origin, calcs, c, script, flows, x, s, ch);
        assert IsCarried(script, flows, s, x);
      }
    }
  }
}
