/** The vocabulary shared by the whole lookup pipeline: spelling types, spelling
    properties, and ascending enumeration of the keys of an ordered map. */
module Spellings {

  /** Spelling types in order of preference; a smaller type is a better one. */
  type SpellingType = t: int | 0 <= t <= 5

  const NORMAL: SpellingType := 0
  const FUZZY: SpellingType := 1
  const ABBREVIATION: SpellingType := 2
  const COMPLETION: SpellingType := 3
  const AMBIGUOUS: SpellingType := 4
  const INVALID: SpellingType := 5

  lemma TypesAscend()
    ensures NORMAL == 0 && FUZZY == 1 && ABBREVIATION == 2 && COMPLETION == 3 && AMBIGUOUS == 4 && INVALID == 5
  {
  }

  datatype Properties = Properties(kind: SpellingType, endPos: nat, credibility: real, tips: string)

  const DEFAULT_PROPERTIES := Properties(NORMAL, 0, 1.0, "")

  datatype Spelling = Spelling(str: string, properties: Properties)

  /** For each syllable, the spellings of it that start at one position. */
  type SpellingIndex = map<int, seq<Properties>>

  function Worse(a: SpellingType, b: SpellingType): SpellingType {
    if a < b then b else a
  }

  ghost predicate IsLeast(least: int, s: set<int>) {
    least in s && forall x :: x in s ==> least <= x
  }

  lemma {:induction false} LeastExists(s: set<int>)
    requires |s| > 0
    ensures exists least :: IsLeast(least, s)
  {
    assert (forall a :: a !in s) ==> s == {};
    var a :| a in s;
    var rest := s - {a};
    if |rest| == 0 {
      assert s == {a};
      assert IsLeast(a, s);
    } else {
      LeastExists(rest);
      var b :| IsLeast(b, rest);
      var least := if a <= b then a else b;
      assert forall x :: x in s ==> x == a || x in rest;
      assert IsLeast(least, s);
    }
  }

  function Least(s: set<int>): (least: int)
    requires |s| > 0
    ensures IsLeast(least, s)
  {
    LeastExists(s);
    var least :| least in s && forall x :: x in s ==> least <= x;
    least
  }

  ghost predicate IsGreatest(greatest: int, s: set<int>) {
    greatest in s && forall x :: x in s ==> x <= greatest
  }

  lemma {:induction false} GreatestExists(s: set<int>)
    requires |s| > 0
    ensures exists greatest :: IsGreatest(greatest, s)
  {
    assert (forall a :: a !in s) ==> s == {};
    var a :| a in s;
    var rest := s - {a};
    if |rest| == 0 {
      assert s == {a};
      assert IsGreatest(a, s);
    } else {
      GreatestExists(rest);
      var b :| IsGreatest(b, rest);
      var greatest := if a <= b then b else a;
      assert forall x :: x in s ==> x == a || x in rest;
      assert IsGreatest(greatest, s);
    }
  }

  function Greatest(s: set<int>): (greatest: int)
    requires |s| > 0
    ensures IsGreatest(greatest, s)
  {
    GreatestExists(s);
    var greatest :| greatest in s && forall x :: x in s ==> x <= greatest;
    greatest
  }

  ghost predicate Once<T>(list: seq<T>) {
    forall i, j :: 0 <= i < j < |list| ==> list[i] != list[j]
  }

  lemma OnceConcat<T>(a: seq<T>, b: seq<T>)
    requires Once(a) && Once(b) && forall x :: x in a ==> x !in b
    ensures Once(a + b)
  {
    forall i, j | 0 <= i < j < |a + b|
      ensures (a + b)[i] != (a + b)[j]
    {
      if i < |a| && j >= |a| {
        assert a[i] in a && b[j - |a|] in b;
      }
    }
  }

  lemma Associate<T>(a: seq<T>, b: seq<T>, c: seq<T>)
    ensures (a + b) + c == a + (b + c)
  {
  }
}
