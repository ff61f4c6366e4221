/** Expand search: all keys that extend a query, by a breadth-first walk of the trie. */
module ExpandSearches {
  import opened Spellings
  import opened Prisms

  // ----- what the levels contain -----

  lemma {:induction false} ChildrenUpToContents(prism: Prism, s: string, n: nat)
    requires n <= |prism.alphabet|
    ensures forall x :: x in prism.ChildrenUpTo(s, n) <==>
              prism.IsPath(x) && exists j :: 0 <= j < n && x == s + [prism.alphabet[j]]
  {
    if n > 0 {
      ChildrenUpToContents(prism, s, n - 1);
      var y := s + [prism.alphabet[n - 1]];
      forall x
        ensures x in prism.ChildrenUpTo(s, n) <==>
                  prism.IsPath(x) && exists j :: 0 <= j < n && x == s + [prism.alphabet[j]]
      {
        hide Prism.IsPath;
        if x in prism.ChildrenUpTo(s, n - 1) || x == y {
        }
      }
    }
  }

  lemma ChildrenContents(prism: Prism, s: string, x: string)
    ensures x in prism.Children(s) <==> IsChild(prism, s, x)
  {
    ChildrenUpToContents(prism, s, |prism.alphabet|);
    if IsChild(prism, s, x) {
      var j :| 0 <= j < |prism.alphabet| && prism.alphabet[j] == x[|s|];
      assert x == s + [prism.alphabet[j]];
    }
  }

  ghost predicate IsChild(prism: Prism, s: string, x: string) {
    |x| == |s| + 1 && s <= x && x[|s|] in prism.alphabet && prism.IsPath(x)
  }

  lemma {:induction false} ChildrenOfContents(prism: Prism, nodes: seq<string>, x: string)
    ensures x in prism.ChildrenOf(nodes) <==> exists s :: s in nodes && IsChild(prism, s, x)
  {
    if |nodes| > 0 {
      var last := nodes[|nodes| - 1];
      ChildrenOfContents(prism, nodes[..|nodes| - 1], x);
      ChildrenContents(prism, last, x);
      assert nodes == nodes[..|nodes| - 1] + [last];
    }
  }

  /** `x` is `n` letters of the alphabet longer than `text` and starts some key. */
  ghost predicate Extends(prism: Prism, text: string, n: nat, x: string) {
    |x| == |text| + n && text <= x && prism.IsPath(x)
    && forall k :: |text| <= k < |x| ==> x[k] in prism.alphabet
  }

  lemma {:induction false} LevelContents(prism: Prism, text: string, n: nat, x: string)
    ensures x in prism.Level(text, n) <==> Extends(prism, text, n, x)
  {
    if n == 0 {
      if Extends(prism, text, n, x) { assert x == text; }
    } else {
      ChildrenOfContents(prism, prism.Level(text, n - 1), x);
      if Extends(prism, text, n, x) {
        var s := x[..|x| - 1];
        PathsArePrefixClosed(prism, s, x);
        LevelContents(prism, text, n - 1, s);
        assert IsChild(prism, s, x);
      }
      if s :| s in prism.Level(text, n - 1) && IsChild(prism, s, x) {
        LevelContents(prism, text, n - 1, s);
      }
    }
  }

  lemma PathsArePrefixClosed(prism: Prism, s: string, x: string)
    requires s <= x && prism.IsPath(x)
    ensures prism.IsPath(s)
  {
    var k :| k in prism.keys && x <= k;
    assert s <= k;
  }

  lemma {:induction false} KeysAmongContents(prism: Prism, nodes: seq<string>, x: string)
    ensures x in prism.KeysAmong(nodes) <==> x in nodes && x in prism.keys
  {
    if |nodes| > 0 {
      KeysAmongContents(prism, nodes[..|nodes| - 1], x);
      assert nodes == nodes[..|nodes| - 1] + [nodes[|nodes| - 1]];
    }
  }

  lemma {:induction false} HitsUpToContents(prism: Prism, text: string, n: nat, x: string)
    ensures x in prism.HitsUpTo(text, n) <==>
              x in prism.keys && |x| <= |text| + n && text <= x
              && forall k :: |text| <= k < |x| ==> x[k] in prism.alphabet
  {
    if n > 0 { HitsUpToContents(prism, text, n - 1, x); }
    KeysAmongContents(prism, prism.Level(text, n), x);
    LevelContents(prism, text, n, x);
  }

  // ----- no node is met twice, and shorter ones come first -----

  ghost predicate ShortestFirst(nodes: seq<string>) {
    forall i, j :: 0 <= i < j < |nodes| ==> |nodes[i]| <= |nodes[j]|
  }

  lemma {:induction false} ChildrenDistinct(prism: Prism, s: string, n: nat)
    requires prism.Valid() && n <= |prism.alphabet|
    ensures Once(prism.ChildrenUpTo(s, n))
  {
    if n > 0 {
      ChildrenDistinct(prism, s, n - 1);
      ChildrenUpToContents(prism, s, n - 1);
      var y := s + [prism.alphabet[n - 1]];
      var before := prism.ChildrenUpTo(s, n - 1);
      forall x | x in before
        ensures x != y
      {
        var j :| 0 <= j < n - 1 && x == s + [prism.alphabet[j]];
        assert x[|s|] != y[|s|];
      }
      OnceConcat(prism.ChildrenUpTo(s, n - 1), [y]);
    }
  }

  lemma ParentIsPrefix(prism: Prism, s: string, x: string)
    ensures IsChild(prism, s, x) ==> |x| > 0 && s == x[..|x| - 1]
  {
  }

  lemma {:induction false} ChildrenOfDistinct(prism: Prism, nodes: seq<string>, m: nat)
    requires prism.Valid() && Once(nodes) && forall s :: s in nodes ==> |s| == m
    ensures Once(prism.ChildrenOf(nodes))
  {
    if |nodes| > 0 {
      var init := nodes[..|nodes| - 1];
      var last := nodes[|nodes| - 1];
      ChildrenOfDistinct(prism, init, m);
      ChildrenDistinct(prism, last, |prism.alphabet|);
      forall x | x in prism.ChildrenOf(init)
        ensures x !in prism.Children(last)
      {
        ChildrenOfContents(prism, init, x);
        ChildrenContents(prism, last, x);
        var s :| s in init && IsChild(prism, s, x);
        ParentIsPrefix(prism, s, x);
        ParentIsPrefix(prism, last, x);
      }
      OnceConcat(prism.ChildrenOf(init), prism.Children(last));
    }
  }

  lemma {:induction false} LevelDistinct(prism: Prism, text: string, n: nat)
    requires prism.Valid()
    ensures Once(prism.Level(text, n))
  {
    if n > 0 {
      LevelDistinct(prism, text, n - 1);
      forall s | s in prism.Level(text, n - 1)
        ensures |s| == |text| + n - 1
      {
        LevelContents(prism, text, n - 1, s);
      }
      ChildrenOfDistinct(prism, prism.Level(text, n - 1), |text| + n - 1);
    }
  }

  lemma {:induction false} KeysAmongDistinct(prism: Prism, nodes: seq<string>)
    requires Once(nodes)
    ensures Once(prism.KeysAmong(nodes))
  {
    if |nodes| > 0 {
      var init := nodes[..|nodes| - 1];
      KeysAmongDistinct(prism, init);
      forall x | x in prism.KeysAmong(init)
        ensures x != nodes[|nodes| - 1]
      {
        KeysAmongContents(prism, init, x);
      }
      OnceConcat(prism.KeysAmong(init), [nodes[|nodes| - 1]]);
    }
  }

  lemma {:induction false} HitsUpToOrdered(prism: Prism, text: string, n: nat)
    requires prism.Valid()
    ensures Once(prism.HitsUpTo(text, n)) && ShortestFirst(prism.HitsUpTo(text, n))
  {
    LevelDistinct(prism, text, n);
    KeysAmongDistinct(prism, prism.Level(text, n));
    var news := prism.KeysAmong(prism.Level(text, n));
    forall x | x in news
      ensures |x| == |text| + n
    {
      KeysAmongContents(prism, prism.Level(text, n), x);
      LevelContents(prism, text, n, x);
    }
    if n > 0 {
      var olds := prism.HitsUpTo(text, n - 1);
      HitsUpToOrdered(prism, text, n - 1);
      forall x | x in olds
        ensures |x| < |text| + n
      {
        HitsUpToContents(prism, text, n - 1, x);
      }
      OnceConcat(olds, news);
    }
  }

  /** The alphabet has every letter of every key, as it has when the index is built with it. */
  ghost predicate AlphabetCovers(prism: Prism) {
    forall k, i :: k in prism.keys && 0 <= i < |k| ==> k[i] in prism.alphabet
  }

  /** The letters stand in order, as they do in a built index. */
  ghost predicate AlphabetRises(prism: Prism) {
    forall i, j :: 0 <= i < j < |prism.alphabet| ==> prism.alphabet[i] < prism.alphabet[j]
  }

  /** Main result: an unlimited search finds exactly the keys that extend the query, each
      once, shorter ones first. */
  lemma HitsAreExtensions(prism: Prism, text: string)
    requires prism.Valid()
    ensures Once(prism.Hits(text)) && ShortestFirst(prism.Hits(text))
    ensures forall k :: k in prism.Hits(text) ==> k in prism.keys && text <= k
    ensures AlphabetCovers(prism) ==> forall k :: k in prism.keys && text <= k ==> k in prism.Hits(text)
  {
    var n := LongestIn(prism.keys.Keys);
    HitsUpToOrdered(prism, text, n);
    forall k
      ensures k in prism.Hits(text) ==> k in prism.keys && text <= k
      ensures AlphabetCovers(prism) && k in prism.keys && text <= k ==> k in prism.Hits(text)
    {
      HitsUpToContents(prism, text, n, k);
      if k in prism.keys { assert k in prism.keys.Keys; }
    }
  }

  // ----- the search -----

  function Reported(prism: Prism, hits: seq<string>): seq<Match>
    requires forall k :: k in hits ==> k in prism.keys
  {
    seq(|hits|, i requires 0 <= i < |hits| => MatchOf(prism, hits[i]))
  }

  lemma HitsAreKeys(prism: Prism, text: string)
    ensures forall k :: k in prism.Hits(text) ==> k in prism.keys
  {
    forall k | k in prism.Hits(text)
      ensures k in prism.keys
    {
      HitsUpToContents(prism, text, LongestIn(prism.keys.Keys), k);
    }
  }

  lemma {:induction false} KeysAmongConcat(prism: Prism, a: seq<string>, b: seq<string>)
    ensures prism.KeysAmong(a + b) == prism.KeysAmong(a) + prism.KeysAmong(b)
  {
    if |b| == 0 {
      assert a + b == a;
    } else {
      assert (a + b)[..|a + b| - 1] == a + b[..|b| - 1];
      KeysAmongConcat(prism, a, b[..|b| - 1]);
    }
  }

  lemma {:induction false} ChildrenOfConcat(prism: Prism, a: seq<string>, b: seq<string>)
    ensures prism.ChildrenOf(a + b) == prism.ChildrenOf(a) + prism.ChildrenOf(b)
  {
    if |b| == 0 {
      assert a + b == a;
    } else {
      assert (a + b)[..|a + b| - 1] == a + b[..|b| - 1];
      ChildrenOfConcat(prism, a, b[..|b| - 1]);
    }
  }

  /** What has been met and found when the first `i` nodes of level `n` are done. */
  ghost function Met(prism: Prism, text: string, n: nat, i: nat): seq<string>
    requires i <= |prism.Level(text, n)|
  {
    prism.ChildrenOf(prism.Level(text, n)[..i])
  }

  ghost function Found(prism: Prism, text: string, n: nat, i: nat): seq<string>
    requires i <= |prism.Level(text, n)|
  {
    prism.HitsUpTo(text, n) + prism.KeysAmong(Met(prism, text, n, i))
  }

  /** One more node of a level. */
  lemma NextNode(prism: Prism, text: string, n: nat, i: nat)
    requires i < |prism.Level(text, n)|
    ensures Met(prism, text, n, i + 1) == Met(prism, text, n, i) + prism.Children(prism.Level(text, n)[i])
    ensures Found(prism, text, n, i + 1)
            == Found(prism, text, n, i) + prism.KeysAmong(prism.Children(prism.Level(text, n)[i]))
  {
    var level := prism.Level(text, n);
    assert level[..i + 1][..i] == level[..i];
    KeysAmongConcat(prism, Met(prism, text, n, i), prism.Children(level[i]));
  }

  /** The whole of a level. */
  lemma NextLevel(prism: Prism, text: string, n: nat)
    ensures Met(prism, text, n, |prism.Level(text, n)|) == prism.Level(text, n + 1)
    ensures Found(prism, text, n, |prism.Level(text, n)|) == prism.HitsUpTo(text, n + 1)
    ensures Found(prism, text, n, 0) == prism.HitsUpTo(text, n)
    ensures Met(prism, text, n, 0) == []
  {
    assert prism.Level(text, n)[..|prism.Level(text, n)|] == prism.Level(text, n);
  }

  /** Everything found so far opens the list of all hits. */
  lemma FoundIsPrefix(prism: Prism, text: string, n: nat, i: nat)
    requires i <= |prism.Level(text, n)|
    ensures Found(prism, text, n, i) <= prism.Hits(text)
  {
    hide Prism.KeysAmong, Prism.ChildrenOf, Prism.Hits;
    var level := prism.Level(text, n);
    var met := Met(prism, text, n, i);
    assert level == level[..i] + level[i..];
    ChildrenOfConcat(prism, level[..i], level[i..]);
    KeysAmongConcat(prism, met, prism.ChildrenOf(level[i..]));
    HitsUpToPrefix(prism, text, n + 1);
    Associate(prism.HitsUpTo(text, n), prism.KeysAmong(met), prism.KeysAmong(prism.ChildrenOf(level[i..])));
  }

  lemma HitsUpToPrefix(prism: Prism, text: string, n: nat)
    ensures prism.HitsUpTo(text, n) <= prism.Hits(text)
  {
    var longest := LongestIn(prism.keys.Keys);
    if n <= longest {
      HitsUpToMonotone(prism, text, n, longest);
    } else {
      LevelIsBoundedBy(prism, text, longest + 1);
      NoHitsBeyond(prism, text, longest + 1, n);
    }
  }

  lemma {:induction false} HitsUpToMonotone(prism: Prism, text: string, m: nat, n: nat)
    requires m <= n
    ensures prism.HitsUpTo(text, m) <= prism.HitsUpTo(text, n)
    decreases n
  {
    if m < n { HitsUpToMonotone(prism, text, m, n - 1); }
  }

  lemma NodeIsBounded(prism: Prism, text: string, n: nat, x: string)
    requires Extends(prism, text, n, x)
    ensures n <= LongestIn(prism.keys.Keys)
  {
    var k :| k in prism.keys && x <= k;
    assert k in prism.keys.Keys;
  }

  lemma LevelIsBounded(prism: Prism, text: string, n: nat)
    requires prism.Level(text, n) != []
    ensures n <= LongestIn(prism.keys.Keys)
  {
    var x := prism.Level(text, n)[0];
    LevelContents(prism, text, n, x);
    NodeIsBounded(prism, text, n, x);
  }

  lemma LevelIsBoundedBy(prism: Prism, text: string, n: nat)
    requires n > LongestIn(prism.keys.Keys)
    ensures prism.Level(text, n) == []
  {
    if prism.Level(text, n) != [] { LevelIsBounded(prism, text, n); }
  }

  lemma {:induction false} NoHitsBeyond(prism: Prism, text: string, m: nat, n: nat)
    requires prism.Level(text, m) == [] && m <= n
    ensures prism.HitsUpTo(text, n) == prism.HitsUpTo(text, m)
    ensures prism.Level(text, n) == []
    decreases n
  {
    if m < n { NoHitsBeyond(prism, text, m, n - 1); }
  }

  /** Once a level is empty, all hits have been found. */
  lemma AllFound(prism: Prism, text: string, n: nat)
    requires prism.Level(text, n) == []
    ensures prism.HitsUpTo(text, n) == prism.Hits(text)
  {
    var longest := LongestIn(prism.keys.Keys);
    if n <= longest {
      NoHitsBeyond(prism, text, n, longest);
    } else {
      HitsUpToPrefix(prism, text, n);
      HitsUpToMonotone(prism, text, longest, n);
    }
  }

  ghost predicate Collected(prism: Prism, hits: seq<string>, result: seq<Match>) {
    (forall k :: k in hits ==> k in prism.keys) && result == Reported(prism, hits)
  }

  /** Queues the nodes one letter below `node` and collects the keys among them; `full`
      when the limit is reached on the way. */
  method ExpandNode(prism: Prism, node: string, limit: nat,
                    queue0: seq<string>, result0: seq<Match>, ghost hits0: seq<string>)
    returns (queue: seq<string>, result: seq<Match>, full: bool, ghost hits: seq<string>)
    requires prism.Valid()
    requires Collected(prism, hits0, result0) && (limit == 0 || |result0| < limit)
    ensures Collected(prism, hits, result)
    ensures hits <= hits0 + prism.KeysAmong(prism.Children(node))
    ensures full ==> limit > 0 && |result| == limit
    ensures !full ==> limit == 0 || |result| < limit
    ensures !full ==> queue == queue0 + prism.Children(node)
    ensures !full ==> hits == hits0 + prism.KeysAmong(prism.Children(node))
  {
    hide Prism.ChildrenUpTo, Prism.KeysAmong, Prism.IsPath;
    queue, result, full, hits := queue0, result0, false, hits0;
    NoChildYet(prism, node);
    for c := 0 to |prism.alphabet|
      invariant Collected(prism, hits, result) && (limit == 0 || |result| < limit)
      invariant queue == queue0 + prism.ChildrenUpTo(node, c)
      invariant hits == hits0 + prism.KeysAmong(prism.ChildrenUpTo(node, c))
    {
      var k := node + [prism.alphabet[c]];
      var ret := prism.Traverse(k);
      NextChild(prism, node, c);
      if ret > -2 {
        queue := queue + [k];
        if ret != -1 {
          result := result + [MatchOf(prism, k)];
          hits := hits + [k];
          if limit > 0 && |result| >= limit {
            KeysBelowPrefix(prism, node, c + 1);
            full := true;
            return;
          }
        }
      }
    }
  }

  lemma NoChildYet(prism: Prism, node: string)
    ensures prism.ChildrenUpTo(node, 0) == [] && prism.KeysAmong([]) == []
  {
  }

  lemma NextChild(prism: Prism, node: string, c: nat)
    requires prism.Valid() && c < |prism.alphabet|
    ensures var k := node + [prism.alphabet[c]];
            var before, after := prism.ChildrenUpTo(node, c), prism.ChildrenUpTo(node, c + 1);
            && after == before + (if prism.Traverse(k) > -2 then [k] else [])
            && prism.KeysAmong(after) == prism.KeysAmong(before) + (if prism.Traverse(k) > -1 then [k] else [])
            && (prism.Traverse(k) > -1 <==> k in prism.keys)
  {
    var before, after := prism.ChildrenUpTo(node, c), prism.ChildrenUpTo(node, c + 1);
    if after != before { assert after[..|before|] == before; }
  }

  lemma {:induction false} KeysBelowPrefix(prism: Prism, node: string, c: nat)
    requires c <= |prism.alphabet|
    ensures prism.KeysAmong(prism.ChildrenUpTo(node, c)) <= prism.KeysAmong(prism.Children(node))
    decreases |prism.alphabet| - c
  {
    if c < |prism.alphabet| {
      KeysBelowPrefix(prism, node, c + 1);
      assert prism.ChildrenUpTo(node, c + 1) == prism.ChildrenUpTo(node, c)
          || prism.ChildrenUpTo(node, c + 1)[..|prism.ChildrenUpTo(node, c)|] == prism.ChildrenUpTo(node, c);
    }
  }

  /** The search is at node `i` of level `n`. */
  ghost predicate At(prism: Prism, text: string, queue: seq<string>, hits: seq<string>, n: nat, i: nat) {
    && (i < |prism.Level(text, n)| || (i == 0 && prism.Level(text, n) == []))
    && queue == prism.Level(text, n)[i..] + Met(prism, text, n, i)
    && hits == Found(prism, text, n, i)
  }

  lemma Step(prism: Prism, text: string, queue: seq<string>, hits: seq<string>, n: nat, i: nat)
    returns (n': nat, i': nat)
    requires At(prism, text, queue, hits, n, i) && |queue| > 0
    ensures At(prism, text, queue[1..] + prism.Children(queue[0]), hits + prism.KeysAmong(prism.Children(queue[0])), n', i')
    ensures hits + prism.KeysAmong(prism.Children(queue[0])) <= prism.Hits(text)
    ensures n <= LongestIn(prism.keys.Keys)
    ensures (n' == n && i < i' <= |prism.Level(text, n)|) || n' == n + 1
  {
    hide Prism.Level, Prism.KeysAmong, Prism.HitsUpTo, Prism.ChildrenOf, Prism.Children, Prism.Hits, Met, Found;
    NextLevel(prism, text, n);
    LevelIsBounded(prism, text, n);
    NextNode(prism, text, n, i);
    FoundIsPrefix(prism, text, n, i + 1);
    n', i' := n, i + 1;
    if i + 1 == |prism.Level(text, n)| {
      NextLevel(prism, text, n + 1);
      n', i' := n + 1, 0;
    }
  }

  /** All keys that extend `text`, or the first `limit` of them. */
  method ExpandSearch(prism: Prism, text: string, limit: nat) returns (result: seq<Match>)
    requires prism.Valid()
    ensures forall k :: k in prism.Hits(text) ==> k in prism.keys
    ensures result == Reported(prism, Truncated(prism.Hits(text), limit))
  {
    hide At, Prism.Hits, Prism.IsPath, Prism.Level, Prism.Children, Prism.KeysAmong;
    HitsAreKeys(prism, text);
    Begin(prism, text);
    result := [];
    ghost var hits: seq<string> := [];
    var ret := prism.Traverse(text);
    if ret == -2 {
      return;
    }
    if ret != -1 {
      result := [MatchOf(prism, text)];
      hits := [text];
      if limit > 0 && |result| >= limit {
        return;
      }
    }
    var queue := [text];
    ghost var n, i: nat := 0, 0;
    while |queue| > 0
      invariant At(prism, text, queue, hits, n, i)
      invariant Collected(prism, hits, result) && (limit == 0 || |result| < limit)
      decreases LongestIn(prism.keys.Keys) + 1 - n, |prism.Level(text, n)| - i
    {
      var node := queue[0];
      ghost var n', i' := Step(prism, text, queue, hits, n, i);
      var full;
      ghost var more := hits + prism.KeysAmong(prism.Children(node));
      queue, result, full, hits := ExpandNode(prism, node, limit, queue[1..], result, hits);
      if full {
        assert hits <= prism.Hits(text);
        return;
      }
      n, i := n', i';
    }
    Ended(prism, text, hits, n, i);
  }

  lemma Begin(prism: Prism, text: string)
    ensures !prism.IsPath(text) ==> text !in prism.keys && prism.Hits(text) == []
    ensures prism.IsPath(text) ==> At(prism, text, [text], if text in prism.keys then [text] else [], 0, 0)
    ensures text in prism.keys ==> prism.IsPath(text) && [text] <= prism.Hits(text)
  {
    NextLevel(prism, text, 0);
    HitsUpToPrefix(prism, text, 0);
    if !prism.IsPath(text) { AllFound(prism, text, 0); }
  }

  lemma Ended(prism: Prism, text: string, hits: seq<string>, n: nat, i: nat)
    requires At(prism, text, [], hits, n, i)
    ensures hits == prism.Hits(text)
  {
    NextLevel(prism, text, n);
    AllFound(prism, text, n);
  }
}
