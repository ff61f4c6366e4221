/** What a completion edge lists: told by the keys found for the rest of the input, not by how they
    are gone through. */
module Completions {
  import opened Spellings
  import opened Prisms
  import opened ExpandSearches
  import opened Lattices
  import opened Syllabification

  /** Descriptor `j` is for the syllable, and normal or fuzzy. */
  predicate Counts(ds: seq<Descriptor>, j: nat, id: int) {
    j < |ds| && ds[j].kind < ABBREVIATION && ds[j].syllableId == id
  }

  predicate CountsFirst(ds: seq<Descriptor>, j: nat, id: int) {
    Counts(ds, j, id) && forall h: nat :: h < j ==> !Counts(ds, h, id)
  }

  /** A completion is worth half of what it completes. */
  function Halved(d: Descriptor, endPos: nat): Properties {
    Properties(COMPLETION, endPos, d.credibility * 0.5, d.tips)
  }

  lemma {:induction false} AddedExactly(sy: Syllabifier, known: SpellingMap, ds: seq<Descriptor>, endPos: nat, id: int)
    ensures var r := sy.AddCompletions(known, ds, endPos);
            && (id in r <==> id in known || exists j: nat :: Counts(ds, j, id))
            && (id in known ==> r[id] == known[id])
            && (id !in known ==> forall j: nat :: CountsFirst(ds, j, id) ==> r[id] == Halved(ds[j], endPos))
  {
    if |ds| > 0 {
      var n := |ds| - 1;
      AddedExactly(sy, known, ds[..n], endPos, id);
      CountsOneMore(ds, id);
      assert ds[n].syllableId == id && ds[n].kind < ABBREVIATION <==> Counts(ds, n, id);
      hide Counts, CountsFirst;
    }
  }

  lemma CountsOneMore(ds: seq<Descriptor>, id: int)
    requires |ds| > 0
    ensures var n := |ds| - 1;
            && ((exists j: nat :: Counts(ds, j, id)) <==> Counts(ds, n, id) || exists j: nat :: Counts(ds[..n], j, id))
            && (forall j: nat :: CountsFirst(ds, j, id) ==>
                  if j < n then CountsFirst(ds[..n], j, id) else j == n && Counts(ds, n, id) && !exists h: nat :: Counts(ds[..n], h, id))
  {
    var n := |ds| - 1;
    assert forall j: nat :: Counts(ds[..n], j, id) <==> j < n && Counts(ds, j, id);
    if j: nat :| Counts(ds[..n], j, id) { assert Counts(ds, j, id); }
    if j: nat :| Counts(ds, j, id) && j != n { assert Counts(ds[..n], j, id); }
    forall j: nat | CountsFirst(ds, j, id)
      ensures if j < n then CountsFirst(ds[..n], j, id) else j == n && Counts(ds, n, id) && !exists h: nat :: Counts(ds[..n], h, id)
    {
      if h: nat :| Counts(ds[..n], h, id) { assert Counts(ds, h, id) && j <= h; }
    }
  }

  function DescriptorsOf(prism: Prism, key: string): seq<Descriptor>
    requires key in prism.keys
  {
    prism.QuerySpelling(prism.keys[key])
  }

  /** Descriptor `j` of key number `i` is for the syllable, and normal or fuzzy. */
  predicate Offers(prism: Prism, keys: seq<string>, i: nat, j: nat, id: int) {
    i < |keys| && keys[i] in prism.keys && Counts(DescriptorsOf(prism, keys[i]), j, id)
  }

  /** None before it is. */
  ghost predicate OffersFirst(prism: Prism, keys: seq<string>, i: nat, j: nat, id: int) {
    && Offers(prism, keys, i, j, id)
    && forall h: nat, l: nat :: Offers(prism, keys, h, l, id) ==> i < h || (i == h && j <= l)
  }

  ghost predicate Offered(prism: Prism, keys: seq<string>, id: int) {
    exists i: nat, j: nat :: Offers(prism, keys, i, j, id)
  }

  lemma OffersOneMore(prism: Prism, keys: seq<string>, id: int)
    requires |keys| > 0 && keys[|keys| - 1] in prism.keys
    ensures var n := |keys| - 1;
            Offered(prism, keys, id)
            <==> Offered(prism, keys[..n], id) || exists j: nat :: Counts(DescriptorsOf(prism, keys[n]), j, id)
  {
    hide Counts, DescriptorsOf;
    var n := |keys| - 1;
    if i: nat, j: nat :| Offers(prism, keys[..n], i, j, id) { assert Offers(prism, keys, i, j, id); }
    if j: nat :| Counts(DescriptorsOf(prism, keys[n]), j, id) { assert Offers(prism, keys, n, j, id); }
    if i: nat, j: nat :| Offers(prism, keys, i, j, id) && i < n { assert Offers(prism, keys[..n], i, j, id); }
  }

  lemma FirstOfEarlier(prism: Prism, keys: seq<string>, i: nat, j: nat, id: int)
    requires |keys| > 0 && OffersFirst(prism, keys, i, j, id)
    ensures var n := |keys| - 1;
            if i < n then OffersFirst(prism, keys[..n], i, j, id)
            else CountsFirst(DescriptorsOf(prism, keys[n]), j, id) && !Offered(prism, keys[..n], id)
  {
    hide Counts, DescriptorsOf;
    var n := |keys| - 1;
    forall h: nat, l: nat | Offers(prism, keys[..n], h, l, id)
      ensures Offers(prism, keys, h, l, id)
    {
    }
    forall l: nat | Counts(DescriptorsOf(prism, keys[i]), l, id)
      ensures j <= l
    {
      assert Offers(prism, keys, i, l, id);
    }
  }

  lemma {:induction false} FirstCount(ds: seq<Descriptor>, j: nat, id: int) returns (first: nat)
    requires Counts(ds, j, id)
    ensures CountsFirst(ds, first, id)
  {
    if h: nat :| h < j && Counts(ds, h, id) { first := FirstCount(ds, h, id); } else { first := j; }
  }

  lemma {:induction false} FirstOffer(prism: Prism, keys: seq<string>, i: nat, j: nat, id: int) returns (k: nat, first: nat)
    requires Offers(prism, keys, i, j, id)
    ensures OffersFirst(prism, keys, k, first, id)
    decreases i
  {
    hide Counts, DescriptorsOf;
    if h: nat, l: nat :| h < i && Offers(prism, keys, h, l, id) {
      k, first := FirstOffer(prism, keys, h, l, id);
    } else {
      k := i;
      first := FirstCount(DescriptorsOf(prism, keys[i]), j, id);
    }
  }

  lemma {:induction false} CompletionsExactly(sy: Syllabifier, prism: Prism, keys: seq<string>, codeLength: nat, endPos: nat, id: int)
    requires forall k :: k in keys ==> k in prism.keys && |k| >= codeLength
    ensures var r := sy.Completions(prism, Reported(prism, keys), codeLength, endPos);
            && (id in r <==> Offered(prism, keys, id))
            && forall i: nat, j: nat :: OffersFirst(prism, keys, i, j, id) ==>
                 id in r && r[id] == Halved(DescriptorsOf(prism, keys[i])[j], endPos)
  {
    if |keys| > 0 {
      var n := |keys| - 1;
      var ds := DescriptorsOf(prism, keys[n]);
      assert Reported(prism, keys)[..n] == Reported(prism, keys[..n]);
      CompletionsExactly(sy, prism, keys[..n], codeLength, endPos, id);
      AddedExactly(sy, sy.Completions(prism, Reported(prism, keys[..n]), codeLength, endPos), ds, endPos, id);
      hide Syllabifier.AddCompletions, Counts, DescriptorsOf, Halved, Offers;
      OffersOneMore(prism, keys, id);
      forall i: nat, j: nat | OffersFirst(prism, keys, i, j, id)
        ensures i < n ==> OffersFirst(prism, keys[..n], i, j, id)
        ensures i == n ==> CountsFirst(ds, j, id) && !Offered(prism, keys[..n], id)
      {
        FirstOfEarlier(prism, keys, i, j, id);
      }
    }
  }

  lemma CompletionsHave(sy: Syllabifier, prism: Prism, keys: seq<string>, codeLength: nat, endPos: nat, id: int)
    requires forall k :: k in keys ==> k in prism.keys && |k| >= codeLength
    ensures var r := sy.Completions(prism, Reported(prism, keys), codeLength, endPos);
            && (id in r <==> Offered(prism, keys, id))
            && (id in r ==> exists i: nat, j: nat ::
                  OffersFirst(prism, keys, i, j, id) && r[id] == Halved(DescriptorsOf(prism, keys[i])[j], endPos))
  {
    hide Offers, OffersFirst, DescriptorsOf, Halved, Syllabifier.Completions, Reported;
    CompletionsExactly(sy, prism, keys, codeLength, endPos, id);
    if Offered(prism, keys, id) {
      var i: nat, j: nat :| Offers(prism, keys, i, j, id);
      var k, first := FirstOffer(prism, keys, i, j, id);
    }
  }

  /** One of the first keys found for the rest of the input completes it to the syllable. */
  ghost predicate Completes(prism: Prism, rest: string, id: int) {
    Offered(prism, Truncated(prism.Hits(rest), 512), id)
  }

  /** Main result: a completion edge lists a syllable if and only if one of the first keys that
      extend the rest of the input stands for it normally or fuzzily; it has the properties of the
      first such descriptor, at half their credibility. */
  lemma CompletionExactly(sy: Syllabifier, input: string, prism: Prism, farthest: nat, id: int)
    requires prism.Valid() && farthest < |input|
    ensures forall k :: k in prism.Hits(input[farthest..]) ==> k in prism.keys && input[farthest..] <= k
    ensures var keys, edge := Truncated(prism.Hits(input[farthest..]), EXPAND_SEARCH_LIMIT), sy.CompletionEdge(input, prism, farthest);
            && (id in edge <==> Completes(prism, input[farthest..], id))
            && (id in edge ==> exists i: nat, j: nat ::
                  OffersFirst(prism, keys, i, j, id) && edge[id] == Halved(DescriptorsOf(prism, keys[i])[j], |input|))
  {
    var rest := input[farthest..];
    HitsAreKeys(prism, rest);
    hide Prism.Hits, Prism.Valid, Offers, Offered, OffersFirst, DescriptorsOf, Halved, Syllabifier.Completions, Reported;
    FirstAreKeys(prism, rest);
    hide Truncated;
    CompletionsHave(sy, prism, Truncated(prism.Hits(rest), EXPAND_SEARCH_LIMIT), |input| - farthest, |input|, id);
  }

  lemma FirstAreKeys(prism: Prism, rest: string)
    requires prism.Valid()
    ensures forall k :: k in prism.Hits(rest) ==> k in prism.keys && rest <= k
    ensures forall k :: k in Truncated(prism.Hits(rest), EXPAND_SEARCH_LIMIT) ==> k in prism.keys && |k| >= |rest|
  {
    HitsAreExtensions(prism, rest);
    hide Prism.Hits, Prism.Valid;
  }
}
