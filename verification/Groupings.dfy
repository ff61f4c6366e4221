/** Lists of things found at end positions, and the same things grouped by position. */
module Groupings {
  import opened Spellings

  datatype At<T> = At(end: nat, item: T)

  type Groups<T> = map<nat, seq<T>>

  function Put<T>(groups: Groups<T>, a: At<T>): Groups<T> {
    groups[a.end := (if a.end in groups then groups[a.end] else []) + [a.item]]
  }

  function PutAll<T>(groups: Groups<T>, list: seq<At<T>>): Groups<T> {
    if |list| == 0 then groups else Put(PutAll(groups, list[..|list| - 1]), list[|list| - 1])
  }

  /** What a list has at one position. */
  ghost function ItemsAt<T>(list: seq<At<T>>, end: nat): seq<T> {
    if |list| == 0 then []
    else
      var last := list[|list| - 1];
      ItemsAt(list[..|list| - 1], end) + (if last.end == end then [last.item] else [])
  }

  /** Grouping keeps what was found at each position, in order. */
  lemma {:induction false} PutAllAre<T>(list: seq<At<T>>, end: nat)
    ensures end in PutAll<T>(map[], list) <==> ItemsAt(list, end) != []
    ensures end in PutAll<T>(map[], list) ==> PutAll<T>(map[], list)[end] == ItemsAt(list, end)
  {
    if |list| > 0 { PutAllAre(list[..|list| - 1], end); }
  }

  lemma {:induction false} PutAllConcat<T>(groups: Groups<T>, a: seq<At<T>>, b: seq<At<T>>)
    ensures PutAll(groups, a + b) == PutAll(PutAll(groups, a), b)
  {
    if |b| == 0 {
      assert a + b == a;
    } else {
      assert (a + b)[..|a + b| - 1] == a + b[..|b| - 1];
      PutAllConcat(groups, a, b[..|b| - 1]);
    }
  }

  // ----- back from groups to a list -----

  ghost function Tagged<T>(end: nat, items: seq<T>): seq<At<T>> {
    seq(|items|, i requires 0 <= i < |items| => At(end, items[i]))
  }

  function EndsOf<T>(groups: Groups<T>): set<int> {
    set e | e in groups :: e as int
  }

  /** The groups at the positions `ends`, one after the other. */
  ghost function Ungrouped<T>(groups: Groups<T>, ends: set<int>): seq<At<T>>
    requires ends <= EndsOf(groups)
    decreases |ends|
  {
    if |ends| == 0 then []
    else
      var e := Greatest(ends);
      Ungrouped(groups, ends - {e}) + Tagged(e as nat, groups[e as nat])
  }

  /** The part of a list at the positions `ends`. */
  ghost function Among<T>(list: seq<At<T>>, ends: set<int>): seq<At<T>> {
    if |list| == 0 then []
    else
      var last := list[|list| - 1];
      Among(list[..|list| - 1], ends) + (if last.end as int in ends then [last] else [])
  }

  lemma TaggedMore<T>(end: nat, items: seq<T>, x: T)
    ensures Tagged(end, items + [x]) == Tagged(end, items) + [At(end, x)]
  {
  }

  lemma {:induction false} AmongSplit<T>(list: seq<At<T>>, ends: set<int>, e: nat)
    requires e as int in ends
    ensures multiset(Among(list, ends)) == multiset(Among(list, ends - {e as int})) + multiset(Tagged(e, ItemsAt(list, e)))
  {
    if |list| > 0 {
      var init, last := list[..|list| - 1], list[|list| - 1];
      AmongSplit(init, ends, e);
      var rest := ends - {e as int};
      if last.end == e {
        TaggedMore(e, ItemsAt(init, e), last.item);
        assert last == At(e, last.item);
        assert Among(list, rest) == Among(init, rest);
        assert multiset(Among(list, ends)) == multiset(Among(init, ends)) + multiset{last};
      } else {
        assert ItemsAt(list, e) == ItemsAt(init, e);
        assert last.end as int in ends <==> last.end as int in rest;
        assert last.end as int !in rest ==> Among(list, rest) == Among(init, rest) && Among(list, ends) == Among(init, ends);
      }
    }
  }

  lemma {:induction false} UngroupedAmong<T>(list: seq<At<T>>, ends: set<int>)
    requires ends <= EndsOf(PutAll<T>(map[], list))
    ensures multiset(Ungrouped(PutAll<T>(map[], list), ends)) == multiset(Among(list, ends))
    decreases |ends|
  {
    if |ends| == 0 {
      AmongNone(list);
    } else {
      var e := Greatest(ends);
      UngroupedAmong(list, ends - {e});
      PutAllAre(list, e as nat);
      AmongSplit(list, ends, e as nat);
    }
  }

  lemma {:induction false} AmongNone<T>(list: seq<At<T>>)
    ensures Among(list, {}) == []
  {
    if |list| > 0 { AmongNone(list[..|list| - 1]); }
  }

  lemma {:induction false} AmongAll<T>(list: seq<At<T>>, ends: set<int>)
    requires forall a :: a in list ==> a.end as int in ends
    ensures Among(list, ends) == list
  {
    if |list| > 0 {
      assert list == list[..|list| - 1] + [list[|list| - 1]];
      AmongAll(list[..|list| - 1], ends);
    }
  }

  /** Grouping and going through the groups reorders a list, no more. */
  lemma UngroupedAll<T>(list: seq<At<T>>)
    ensures var groups := PutAll<T>(map[], list);
            multiset(Ungrouped(groups, EndsOf(groups))) == multiset(list)
  {
    var groups := PutAll<T>(map[], list);
    UngroupedAmong(list, EndsOf(groups));
    forall a | a in list
      ensures a.end in groups
    {
      EndIsThere(list, a);
    }
    AmongAll(list, EndsOf(groups));
  }

  lemma {:induction false} EndIsThere<T>(list: seq<At<T>>, a: At<T>)
    requires a in list
    ensures a.end in PutAll<T>(map[], list)
  {
    if list[|list| - 1] != a { EndIsThere(list[..|list| - 1], a); }
  }

  /** What a list has at a position does not depend on its order. */
  lemma {:induction false} ItemsAtContents<T>(list: seq<At<T>>, end: nat, x: T)
    ensures multiset(ItemsAt(list, end))[x] == multiset(list)[At(end, x)]
  {
    if |list| > 0 {
      assert list == list[..|list| - 1] + [list[|list| - 1]];
      ItemsAtContents(list[..|list| - 1], end, x);
    }
  }

  lemma ItemsAtOfMultiset<T(!new)>(a: seq<At<T>>, b: seq<At<T>>, end: nat)
    requires multiset(a) == multiset(b)
    ensures multiset(ItemsAt(a, end)) == multiset(ItemsAt(b, end))
  {
    forall x
      ensures multiset(ItemsAt(a, end))[x] == multiset(ItemsAt(b, end))[x]
    {
      ItemsAtContents(a, end, x);
      ItemsAtContents(b, end, x);
    }
  }

  // ----- one list from many -----

  ghost function FlatMap<A, B>(f: A -> seq<B>, list: seq<A>): seq<B> {
    if |list| == 0 then [] else f(list[0]) + FlatMap(f, list[1..])
  }

  lemma {:induction false} FlatMapConcat<A, B>(f: A -> seq<B>, a: seq<A>, b: seq<A>)
    ensures FlatMap(f, a + b) == FlatMap(f, a) + FlatMap(f, b)
  {
    if |a| == 0 {
      assert a + b == b;
    } else {
      assert (a + b)[1..] == a[1..] + b;
      FlatMapConcat(f, a[1..], b);
    }
  }

  /** The order of the parts does not matter for what is in the whole. */
  lemma {:induction false} FlatMapOfMultiset<A, B>(f: A -> seq<B>, a: seq<A>, b: seq<A>)
    requires multiset(a) == multiset(b)
    ensures multiset(FlatMap(f, a)) == multiset(FlatMap(f, b))
  {
    if |a| == 0 {
      assert |multiset(b)| == 0;
    } else {
      assert a[0] in multiset(b);
      var k :| 0 <= k < |b| && b[k] == a[0];
      Removed(a, b, k);
      FlatMapOfMultiset(f, a[1..], b[..k] + b[k + 1..]);
      FlatMapSplit(f, b, k);
    }
  }

  lemma Removed<A>(a: seq<A>, b: seq<A>, k: nat)
    requires multiset(a) == multiset(b) && |a| > 0 && k < |b| && b[k] == a[0]
    ensures multiset(a[1..]) == multiset(b[..k] + b[k + 1..])
  {
    assert a == [a[0]] + a[1..];
    assert b == b[..k] + ([b[k]] + b[k + 1..]);
    Cancel(multiset(a[1..]), multiset(b[..k]) + multiset(b[k + 1..]), a[0]);
  }

  lemma Cancel<T>(m: multiset<T>, n: multiset<T>, x: T)
    requires multiset{x} + m == n + multiset{x}
    ensures m == n
  {
    assert m == (multiset{x} + m) - multiset{x};
    assert n == (n + multiset{x}) - multiset{x};
  }

  lemma FlatMapSplit<A, B>(f: A -> seq<B>, b: seq<A>, k: nat)
    requires k < |b|
    ensures multiset(FlatMap(f, b)) == multiset(f(b[k])) + multiset(FlatMap(f, b[..k] + b[k + 1..]))
  {
    FlatMapConcat(f, b[..k], b[k..]);
    FlatMapConcat(f, b[..k], b[k + 1..]);
    assert b == b[..k] + b[k..];
    assert b[k..][1..] == b[k + 1..] && b[k..][0] == b[k];
    assert FlatMap(f, b) == FlatMap(f, b[..k]) + (f(b[k]) + FlatMap(f, b[k + 1..]));
  }
}
