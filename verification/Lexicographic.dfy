/** The order of keys in a sorted store, and how it interacts with common prefixes. */
module Lexicographic {

  predicate AtMost(a: string, b: string) {
    |a| == 0 || (|b| > 0 && (a[0] < b[0] || (a[0] == b[0] && AtMost(a[1..], b[1..]))))
  }

  predicate Less(a: string, b: string) {
    !AtMost(b, a)
  }

  lemma {:induction false} Reflexive(a: string)
    ensures AtMost(a, a)
  {
    if |a| > 0 { Reflexive(a[1..]); }
  }

  lemma {:induction false} Transitive(a: string, b: string, c: string)
    requires AtMost(a, b) && AtMost(b, c)
    ensures AtMost(a, c)
  {
    if |a| > 0 && a[0] == b[0] && b[0] == c[0] { Transitive(a[1..], b[1..], c[1..]); }
  }

  lemma {:induction false} Total(a: string, b: string)
    ensures AtMost(a, b) || AtMost(b, a)
  {
    if |a| > 0 && |b| > 0 && a[0] == b[0] { Total(a[1..], b[1..]); }
  }

  lemma {:induction false} PrefixAtMost(p: string, s: string)
    requires p <= s
    ensures AtMost(p, s)
  {
    if |p| > 0 { PrefixAtMost(p[1..], s[1..]); }
  }

  /** Whatever lies between two strings with a common prefix has that prefix too. */
  lemma {:induction false} Between(c: string, a: string, k: string, b: string)
    requires c <= a && c <= b && AtMost(a, k) && AtMost(k, b)
    ensures c <= k
  {
    if |c| > 0 { Between(c[1..], a[1..], k[1..], b[1..]); }
  }

  /** `r` comes after every string that starts with `p`. */
  ghost predicate Beyond(p: string, r: string) {
    AtMost(p, r) && !(p <= r)
  }

  lemma {:induction false} BeyondBlock(p: string, s: string, r: string)
    requires Beyond(p, r) && p <= s
    ensures Less(s, r)
  {
    if |p| > 0 && p[0] == r[0] {
      assert p == [p[0]] + p[1..] && r == [r[0]] + r[1..];
      BeyondBlock(p[1..], s[1..], r[1..]);
    }
  }

  lemma PrefixTail(p: string, x: string)
    requires |p| > 0 && |x| > 0 && p[0] == x[0]
    ensures p <= x <==> p[1..] <= x[1..]
  {
    assert p == [p[0]] + p[1..] && x == [x[0]] + x[1..];
  }

  /** All characters of a syllable come after the space that ends it. */
  ghost predicate IsSyllable(s: string) {
    forall i :: 0 <= i < |s| ==> s[i] > ' '
  }

  /** Siblings: with `s` before `t`, the keys under `t` are beyond those under `s`. */
  lemma {:induction false} Siblings(s: string, t: string, x: string)
    requires IsSyllable(s) && IsSyllable(t) && Less(s, t)
    requires t + " " <= x
    ensures Beyond(s + " ", x)
  {
    if |s| == 0 {
      assert x[0] == t[0];
      assert (s + " ")[1..] == "";
    } else {
      assert x[0] == t[0];
      assert (s + " ")[1..] == s[1..] + " " && (t + " ")[1..] == t[1..] + " ";
      if s[0] == t[0] {
        assert t[1..] + " " <= x[1..];
        Siblings(s[1..], t[1..], x[1..]);
        PrefixTail(s + " ", x);
      } else {
        assert (s + " ")[0] == s[0];
      }
    }
  }

  lemma {:induction false} BeyondUnder(c: string, p: string, x: string)
    requires Beyond(p, x)
    ensures Beyond(c + p, c + x)
  {
    if |c| == 0 {
      assert c + p == p && c + x == x;
    } else {
      BeyondUnder(c[1..], p, x);
      assert (c + p)[1..] == c[1..] + p && (c + x)[1..] == c[1..] + x;
      PrefixTail(c + p, c + x);
    }
  }

  // ----- the least key of a set -----

  predicate IsLeastKey(k: string, s: set<string>) {
    k in s && forall x :: x in s ==> AtMost(k, x)
  }

  lemma {:induction false} LeastKeyExists(s: set<string>)
    requires |s| > 0
    ensures exists k :: IsLeastKey(k, s)
  {
    assert (forall a :: a !in s) ==> s == {};
    var a :| a in s;
    Reflexive(a);
    var rest := s - {a};
    if |rest| == 0 {
      assert s == {a};
      assert IsLeastKey(a, s);
    } else {
      LeastKeyExists(rest);
      var b :| IsLeastKey(b, rest);
      Total(a, b);
      var k := if AtMost(a, b) then a else b;
      forall x | x in s
        ensures AtMost(k, x)
      {
        if x != a && k == a { Transitive(a, b, x); }
      }
      assert IsLeastKey(k, s);
    }
  }

  lemma {:induction false} Antisymmetric(a: string, b: string)
    requires AtMost(a, b) && AtMost(b, a)
    ensures a == b
  {
    if |a| > 0 {
      Antisymmetric(a[1..], b[1..]);
      assert a == [a[0]] + a[1..] && b == [b[0]] + b[1..];
    }
  }

  function LeastKey(s: set<string>): (k: string)
    requires |s| > 0
    ensures IsLeastKey(k, s)
  {
    LeastKeyExists(s);
    LeastKeyIsUnique(s);
    var k :| k in s && IsLeastKey(k, s);
    k
  }

  lemma LeastKeyIsUnique(s: set<string>)
    ensures forall k, l :: IsLeastKey(k, s) && IsLeastKey(l, s) ==> k == l
  {
    forall k, l | IsLeastKey(k, s) && IsLeastKey(l, s)
      ensures k == l
    {
      Antisymmetric(k, l);
    }
  }
}
