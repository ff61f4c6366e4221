/** The order in which an expand search finds keys: shorter ones first, and those of one length in
    dictionary order. */
module HitOrders {
  import opened Spellings
  import opened Prisms
  import opened Lexicographic
  import opened ExpandSearches

  ghost predicate Rising(nodes: seq<string>) {
    forall i, j :: 0 <= i < j < |nodes| ==> Less(nodes[i], nodes[j])
  }

  lemma RisingConcat(a: seq<string>, b: seq<string>)
    requires Rising(a) && Rising(b) && forall x, y :: x in a && y in b ==> Less(x, y)
    ensures Rising(a + b)
  {
    hide Less;
  }

  /** Texts of one length compare by the first letter that differs. */
  lemma {:induction false} Tails(s: string, t: string, c: char, d: char)
    requires |s| == |t| && (Less(s, t) || (s == t && c < d))
    ensures Less(s + [c], t + [d])
  {
    if s != [] {
      assert (s + [c])[1..] == s[1..] + [c] && (t + [d])[1..] == t[1..] + [d];
      if s[0] == t[0] { Tails(s[1..], t[1..], c, d); }
    }
  }

  lemma {:induction false} ChildrenRise(prism: Prism, s: string, n: nat)
    requires AlphabetRises(prism) && n <= |prism.alphabet|
    ensures Rising(prism.ChildrenUpTo(s, n))
  {
    if n > 0 {
      ChildrenRise(prism, s, n - 1);
      ChildrenUpToContents(prism, s, n - 1);
      var before, y := prism.ChildrenUpTo(s, n - 1), s + [prism.alphabet[n - 1]];
      forall x, z | x in before && z in [y]
        ensures Less(x, z)
      {
        var j :| 0 <= j < n - 1 && x == s + [prism.alphabet[j]];
        Tails(s, s, prism.alphabet[j], prism.alphabet[n - 1]);
      }
      hide Less;
      RisingConcat(before, [y]);
    }
  }

  lemma {:induction false} NextRise(prism: Prism, nodes: seq<string>, m: nat)
    requires AlphabetRises(prism) && Rising(nodes) && forall s :: s in nodes ==> |s| == m
    ensures Rising(prism.ChildrenOf(nodes))
  {
    if nodes != [] {
      hide Less;
      var init, last := nodes[..|nodes| - 1], nodes[|nodes| - 1];
      assert nodes == init + [last];
      NextRise(prism, init, m);
      ChildrenRise(prism, last, |prism.alphabet|);
      forall x, y | x in prism.ChildrenOf(init) && y in prism.Children(last)
        ensures Less(x, y)
      {
        ChildrenOfContents(prism, init, x);
        ChildrenContents(prism, last, y);
        var s :| s in init && IsChild(prism, s, x);
        SiblingsRise(prism, s, last, x, y);
      }
      RisingConcat(prism.ChildrenOf(init), prism.Children(last));
    }
  }

  lemma SiblingsRise(prism: Prism, s: string, t: string, x: string, y: string)
    requires |s| == |t| && Less(s, t) && IsChild(prism, s, x) && IsChild(prism, t, y)
    ensures Less(x, y)
  {
    assert x == s + [x[|s|]] && y == t + [y[|t|]];
    Tails(s, t, x[|s|], y[|t|]);
  }

  lemma {:induction false} LevelRises(prism: Prism, text: string, n: nat)
    requires AlphabetRises(prism)
    ensures Rising(prism.Level(text, n))
  {
    if n > 0 {
      LevelRises(prism, text, n - 1);
      forall s | s in prism.Level(text, n - 1)
        ensures |s| == |text| + n - 1
      {
        LevelContents(prism, text, n - 1, s);
      }
      hide Less;
      NextRise(prism, prism.Level(text, n - 1), |text| + n - 1);
    }
  }

  lemma {:induction false} KeysRise(prism: Prism, nodes: seq<string>)
    requires Rising(nodes)
    ensures Rising(prism.KeysAmong(nodes))
  {
    if nodes != [] {
      hide Less;
      var init, last := nodes[..|nodes| - 1], nodes[|nodes| - 1];
      KeysRise(prism, init);
      forall x, y | x in prism.KeysAmong(init) && y in [last]
        ensures Less(x, y)
      {
        KeysAmongContents(prism, init, x);
        var i :| 0 <= i < |init| && init[i] == x;
      }
      RisingConcat(prism.KeysAmong(init), [last]);
    }
  }

  /** Shorter, or of one length and before. */
  ghost predicate Sooner(a: string, b: string) {
    |a| < |b| || (|a| == |b| && Less(a, b))
  }

  ghost predicate InOrder(hits: seq<string>) {
    forall i, j :: 0 <= i < j < |hits| ==> Sooner(hits[i], hits[j])
  }

  lemma {:induction false} HitsUpToInOrder(prism: Prism, text: string, n: nat)
    requires AlphabetRises(prism)
    ensures InOrder(prism.HitsUpTo(text, n))
  {
    hide Less, Prism.Level, Prism.KeysAmong;
    LevelInOrder(prism, text, n);
    if n > 0 {
      var olds, news := prism.HitsUpTo(text, n - 1), prism.KeysAmong(prism.Level(text, n));
      HitsUpToInOrder(prism, text, n - 1);
      forall x | x in olds
        ensures |x| < |text| + n
      {
        HitsUpToContents(prism, text, n - 1, x);
      }
      hide Prism.HitsUpTo;
      LaterInOrder(olds, news, |text| + n);
    }
  }

  lemma LevelInOrder(prism: Prism, text: string, n: nat)
    requires AlphabetRises(prism)
    ensures InOrder(prism.KeysAmong(prism.Level(text, n)))
    ensures forall x :: x in prism.KeysAmong(prism.Level(text, n)) ==> |x| == |text| + n
  {
    LevelRises(prism, text, n);
    KeysRise(prism, prism.Level(text, n));
    hide Less, Prism.Level, Prism.KeysAmong;
    forall x | x in prism.KeysAmong(prism.Level(text, n))
      ensures |x| == |text| + n
    {
      KeysAmongContents(prism, prism.Level(text, n), x);
      LevelContents(prism, text, n, x);
    }
  }

  lemma LaterInOrder(olds: seq<string>, news: seq<string>, length: nat)
    requires InOrder(olds) && InOrder(news)
    requires (forall x :: x in olds ==> |x| < length) && forall x :: x in news ==> |x| == length
    ensures InOrder(olds + news)
  {
    hide Less;
  }

  /** Main result: an unlimited search finds shorter keys first, and those of one length in dictionary
      order. */
  lemma HitsInOrder(prism: Prism, text: string)
    requires AlphabetRises(prism)
    ensures forall i, j :: 0 <= i < j < |prism.Hits(text)| ==>
              var a, b := prism.Hits(text)[i], prism.Hits(text)[j]; |a| < |b| || (|a| == |b| && Less(a, b))
  {
    HitsUpToInOrder(prism, text, LongestIn(prism.keys.Keys));
  }
}
