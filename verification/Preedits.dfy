/** Showing a candidate's syllables in the input it was typed as: a search for a path of the
    graph that spells the candidate's code. */
module Preedits {
  import opened Spellings

  type SyllableEdges = map<nat, map<nat, map<int, Properties>>>

  ghost predicate Forward(edges: SyllableEdges, length: nat) {
    forall s, e :: s in edges && e in edges[s] ==> s < e <= length
  }

  /** An edge that reads one syllable. */
  predicate Reads(edges: SyllableEdges, pos: nat, end: nat, id: int) {
    pos in edges && end in edges[pos] && id in edges[pos][end]
  }

  /** The end positions of the syllables on the way from `pos` to `endPos` that spell `code`. */
  ghost predicate IsWay(edges: SyllableEdges, code: seq<int>, pos: nat, endPos: nat, way: seq<nat>)
    decreases |code|
  {
    && |way| == |code|
    && (if |code| == 0 then pos == endPos
        else Reads(edges, pos, way[0], code[0]) && IsWay(edges, code[1..], way[0], endPos, way[1..]))
  }

  /** `a` takes the longer syllable where the two ways first part. */
  ghost predicate Favored(a: seq<nat>, b: seq<nat>)
    requires |a| == |b|
  {
    |a| == 0 || a[0] > b[0] || (a[0] == b[0] && Favored(a[1..], b[1..]))
  }

  // ----- what is written -----

  /** What separates a syllable from the text before it. */
  function Joint(delimiters: string, output: string, depth: nat): string
    requires |delimiters| > 0
  {
    if depth > 0 && |output| > 0 && output[|output| - 1] !in delimiters then [delimiters[0]] else ""
  }

  ghost predicate Within(way: seq<nat>, pos: nat, length: nat) {
    pos <= length && (|way| > 0 ==> pos <= way[0] <= length && Within(way[1..], way[0], length))
  }

  ghost function Written(input: string, delimiters: string, output: string, pos: nat, depth: nat, way: seq<nat>): string
    requires |delimiters| > 0 && Within(way, pos, |input|)
    decreases |way|
  {
    if |way| == 0 then output
    else
      Written(input, delimiters, output + Joint(delimiters, output, depth) + input[pos..way[0]], way[0], depth + 1, way[1..])
  }

  lemma {:induction false} WayIsWithin(edges: SyllableEdges, length: nat, code: seq<int>, pos: nat, endPos: nat, way: seq<nat>)
    requires Forward(edges, length) && pos <= length && IsWay(edges, code, pos, endPos, way)
    ensures Within(way, pos, length) && pos <= endPos <= length
    ensures |way| > 0 ==> pos < way[0] <= endPos
    decreases |code|
  {
    if |code| > 0 { WayIsWithin(edges, length, code[1..], way[0], endPos, way[1..]); }
  }

  // ----- what the text is -----

  /** The syllables of a way, as they were typed. */
  ghost function Slices(input: string, pos: nat, way: seq<nat>): seq<string>
    requires Within(way, pos, |input|)
    decreases |way|
  {
    if |way| == 0 then [] else [input[pos..way[0]]] + Slices(input, way[0], way[1..])
  }

  ghost function Concat(parts: seq<string>): string {
    if |parts| == 0 then "" else parts[0] + Concat(parts[1..])
  }

  /** The parts, each behind its joint. */
  ghost function Joined(joints: seq<string>, parts: seq<string>): string
    requires |joints| == |parts|
  {
    if |parts| == 0 then "" else joints[0] + parts[0] + Joined(joints[1..], parts[1..])
  }

  /** A joint is the first delimiter, for all but the first syllable, if the text so far does not
      end in a delimiter; else it is empty. */
  ghost predicate AreJoints(delimiters: string, before: string, depth: nat, joints: seq<string>, parts: seq<string>)
    requires |delimiters| > 0 && |joints| == |parts|
    decreases |joints|
  {
    |joints| > 0 ==>
      && (joints[0] == "" || joints[0] == [delimiters[0]])
      && (joints[0] != "" <==> depth != 0 && before != "" && before[|before| - 1] !in delimiters)
      && AreJoints(delimiters, before + joints[0] + parts[0], depth + 1, joints[1..], parts[1..])
  }

  /** The text written is made of the syllables and their joints. */
  lemma {:induction false} WrittenIsJoined(input: string, delimiters: string, output: string, pos: nat, depth: nat, way: seq<nat>)
    returns (joints: seq<string>)
    requires |delimiters| > 0 && Within(way, pos, |input|)
    ensures |joints| == |Slices(input, pos, way)| && AreJoints(delimiters, output, depth, joints, Slices(input, pos, way))
    ensures Written(input, delimiters, output, pos, depth, way) == output + Joined(joints, Slices(input, pos, way))
    decreases |way|
  {
    joints := [];
    if |way| > 0 {
      var joint := Joint(delimiters, output, depth);
      var slice := input[pos..way[0]];
      var rest := WrittenIsJoined(input, delimiters, output + joint + slice, way[0], depth + 1, way[1..]);
      joints := [joint] + rest;
      var slices := Slices(input, way[0], way[1..]);
      JointsOn(delimiters, output, depth, rest, slice, slices);
      hide Written, AreJoints, Joined, Slices;
      JoinedOn(output, joint, rest, slice, slices);
    }
  }

  lemma JoinedOn(output: string, joint: string, joints: seq<string>, slice: string, slices: seq<string>)
    requires |joints| == |slices|
    ensures output + joint + slice + Joined(joints, slices) == output + Joined([joint] + joints, [slice] + slices)
  {
    assert ([joint] + joints)[1..] == joints && ([slice] + slices)[1..] == slices;
    assert output + joint + slice + Joined(joints, slices) == output + (joint + slice + Joined(joints, slices));
  }

  lemma JointsOn(delimiters: string, before: string, depth: nat, rest: seq<string>, slice: string, slices: seq<string>)
    requires |delimiters| > 0 && |rest| == |slices|
    requires AreJoints(delimiters, before + Joint(delimiters, before, depth) + slice, depth + 1, rest, slices)
    ensures AreJoints(delimiters, before, depth, [Joint(delimiters, before, depth)] + rest, [slice] + slices)
  {
    assert ([Joint(delimiters, before, depth)] + rest)[1..] == rest && ([slice] + slices)[1..] == slices;
  }

  /** The syllables side by side are the input. */
  lemma {:induction false} SlicesSpell(input: string, pos: nat, way: seq<nat>)
    requires Within(way, pos, |input|) && |way| > 0
    ensures pos <= way[|way| - 1] <= |input|
    ensures Concat(Slices(input, pos, way)) == input[pos..way[|way| - 1]] && |Slices(input, pos, way)| == |way|
    decreases |way|
  {
    LastWithin(way, pos, |input|);
    var slices := Slices(input, pos, way);
    assert slices[1..] == Slices(input, way[0], way[1..]);
    if |way| > 1 {
      SlicesSpell(input, way[0], way[1..]);
      assert way[1..][|way| - 2] == way[|way| - 1];
    }
  }

  lemma {:induction false} LastWithin(way: seq<nat>, pos: nat, length: nat)
    requires Within(way, pos, length) && |way| > 0
    ensures way[0] <= way[|way| - 1] <= length
    decreases |way|
  {
    if |way| > 1 { LastWithin(way[1..], way[0], length); }
  }

  /** A way to `endPos` ends there. */
  lemma {:induction false} WayEnds(edges: SyllableEdges, code: seq<int>, pos: nat, endPos: nat, way: seq<nat>)
    requires IsWay(edges, code, pos, endPos, way)
    ensures endPos == if |way| == 0 then pos else way[|way| - 1]
    decreases |code|
  {
    if |code| > 0 { WayEnds(edges, code[1..], way[0], endPos, way[1..]); }
  }

  // ----- the search -----

  class DelimitSyllableState {
    const input: string
    const delimiters: string
    const edges: SyllableEdges
    const code: seq<int>
    const endPos: nat
    var output: string

    constructor (input: string, delimiters: string, edges: SyllableEdges, code: seq<int>, endPos: nat)
      ensures this.input == input && this.delimiters == delimiters && this.edges == edges
      ensures this.code == code && this.endPos == endPos && output == ""
    {
      this.input, this.delimiters, this.edges, this.code, this.endPos := input, delimiters, edges, code, endPos;
      output := "";
    }

    ghost predicate Valid() {
      |delimiters| > 0 && Forward(edges, |input|)
    }

    ghost predicate Leads(pos: nat, depth: nat, way: seq<nat>)
      requires depth <= |code|
    {
      IsWay(edges, code[depth..], pos, endPos, way)
    }

    /** The way found: no other that starts the same takes a longer syllable first. */
    ghost predicate Best(pos: nat, depth: nat, way: seq<nat>)
      requires depth <= |code|
    {
      Leads(pos, depth, way) && forall o :: Leads(pos, depth, o) && |o| == |way| ==> Favored(way, o)
    }

    /** The text of the way found from `pos` has been added. */
    ghost predicate Wrote(before: string, pos: nat, depth: nat, after: string)
      requires depth <= |code| && Valid() && pos <= |input|
    {
      exists way :: Best(pos, depth, way) && Within(way, pos, |input|)
                    && after == Written(input, delimiters, before, pos, depth, way)
    }

    /** What has been added are the syllables of a way, the longer ones first, as they were typed:
        the input from `pos` to the end position, with the joints in between. */
    ghost predicate Shows(before: string, pos: nat, depth: nat, after: string)
      requires depth <= |code| && Valid() && pos <= |input|
    {
      exists way, joints :: Best(pos, depth, way) && Within(way, pos, |input|) && IsShown(pos, depth, way, joints, before, after)
    }

    ghost predicate IsShown(pos: nat, depth: nat, way: seq<nat>, joints: seq<string>, before: string, after: string)
      requires depth <= |code| && Valid() && Within(way, pos, |input|)
    {
      var slices := Slices(input, pos, way);
      && |slices| == |joints| == |code| - depth && AreJoints(delimiters, before, depth, joints, slices)
      && pos <= endPos <= |input| && Concat(slices) == input[pos..endPos]
      && after == before + Joined(joints, slices)
    }

    lemma WroteShows(before: string, pos: nat, depth: nat, after: string)
      requires depth <= |code| && Valid() && pos <= |input| && Wrote(before, pos, depth, after)
      ensures Shows(before, pos, depth, after)
    {
      var way :| Best(pos, depth, way) && Within(way, pos, |input|)
                 && after == Written(input, delimiters, before, pos, depth, way);
      WayIsWithin(edges, |input|, code[depth..], pos, endPos, way);
      WayEnds(edges, code[depth..], pos, endPos, way);
      var joints := WrittenIsJoined(input, delimiters, before, pos, depth, way);
      if |way| > 0 { SlicesSpell(input, pos, way); }
      hide Written, Joined, AreJoints, Best;
      assert IsShown(pos, depth, way, joints, before, after);
    }

    /** A way whose first syllable ends at `end`. */
    ghost predicate Through(pos: nat, depth: nat, end: nat, way: seq<nat>)
      requires depth < |code|
    {
      |way| > 0 && way[0] == end && Leads(pos, depth, way)
    }

    lemma NoneToRead(pos: nat)
      requires Valid() && pos <= |input|
      ensures pos == endPos <==> exists way :: Leads(pos, |code|, way)
      ensures pos == endPos ==> Wrote(output, pos, |code|, output)
    {
      if pos == endPos {
        assert Leads(pos, |code|, []);
        assert Best(pos, |code|, []);
      }
    }

    lemma OneOn(pos: nat, depth: nat, end: nat, rest: seq<nat>)
      requires depth < |code|
      ensures Reads(edges, pos, end, code[depth]) && Leads(end, depth + 1, rest) <==> Leads(pos, depth, [end] + rest)
    {
      assert code[depth..][1..] == code[depth + 1..];
      assert ([end] + rest)[1..] == rest;
    }

    lemma ThroughReads(pos: nat, depth: nat, end: nat, way: seq<nat>)
      requires Valid() && pos <= |input| && depth < |code| && Through(pos, depth, end, way)
      ensures Reads(edges, pos, end, code[depth]) && end <= endPos && Leads(end, depth + 1, way[1..])
    {
      WayIsWithin(edges, |input|, code[depth..], pos, endPos, way);
      assert way == [end] + way[1..];
      OneOn(pos, depth, end, way[1..]);
    }

    /** With all longer first syllables ruled out, the best way from `end` makes the best way. */
    lemma BestOn(pos: nat, depth: nat, end: nat, rest: seq<nat>)
      requires Valid() && pos <= |input| && depth < |code| && Reads(edges, pos, end, code[depth]) && Best(end, depth + 1, rest)
      requires forall e: nat, way :: e > end ==> !Through(pos, depth, e, way)
      ensures Best(pos, depth, [end] + rest)
    {
      OneOn(pos, depth, end, rest);
      var way := [end] + rest;
      assert way[1..] == rest;
      forall o | Leads(pos, depth, o) && |o| == |way|
        ensures Favored(way, o)
      {
        assert Through(pos, depth, o[0], o);
        ThroughReads(pos, depth, o[0], o);
      }
    }

    /** Tries the ways that begin with one syllable. */
    method TryEnd(currentPos: nat, depth: nat, endVertexPos: nat) returns (ok: bool)
      requires Valid() && depth < |code| && currentPos <= |input| && Reads(edges, currentPos, endVertexPos, code[depth])
      requires forall e: nat, way :: e > endVertexPos ==> !Through(currentPos, depth, e, way)
      modifies this`output
      ensures ok <==> exists way :: Through(currentPos, depth, endVertexPos, way)
      ensures ok ==> Wrote(old(output), currentPos, depth, output)
      ensures !ok ==> output == old(output)
      decreases |code| - depth, 0
    {
      hide Leads, Best;
      var len := |output|;
      ghost var before := output;
      if depth > 0 && len > 0 && output[len - 1] !in delimiters {
        output := output + [delimiters[0]];
      }
      output := output + input[currentPos..endVertexPos];
      assert before + "" == before;
      assert output == before + Joint(delimiters, before, depth) + input[currentPos..endVertexPos];
      ok := DelimitSyllablesDfs(endVertexPos, depth + 1);
      if ok {
        WroteOn(before, currentPos, depth, endVertexPos, output);
        return;
      }
      output := output[..len];
      if way :| Through(currentPos, depth, endVertexPos, way) { ThroughReads(currentPos, depth, endVertexPos, way); }
    }

    lemma WroteOn(before: string, pos: nat, depth: nat, end: nat, after: string)
      requires Valid() && depth < |code| && pos <= |input| && Reads(edges, pos, end, code[depth])
      requires forall e: nat, way :: e > end ==> !Through(pos, depth, e, way)
      requires Wrote(before + Joint(delimiters, before, depth) + input[pos..end], end, depth + 1, after)
      ensures Wrote(before, pos, depth, after)
      ensures exists way :: Through(pos, depth, end, way)
    {
      var start := before + Joint(delimiters, before, depth) + input[pos..end];
      var rest :| Best(end, depth + 1, rest) && Within(rest, end, |input|)
                  && after == Written(input, delimiters, start, end, depth + 1, rest);
      var way := [end] + rest;
      assert way[1..] == rest;
      BestOn(pos, depth, end, rest);
      assert Through(pos, depth, end, way);
      assert Within(way, pos, |input|);
      hide Best;
      assert after == Written(input, delimiters, before, pos, depth, way);
    }

    /** Main result: the search succeeds exactly if the code can be spelled from here to the
        end position. It then has added the input up to there, divided into the syllables of the
        way that takes longer ones first; otherwise the text is as before. */
    method DelimitSyllablesDfs(currentPos: nat, depth: nat) returns (found: bool)
      requires Valid() && depth <= |code| && currentPos <= |input|
      modifies this`output
      ensures found <==> exists way :: Leads(currentPos, depth, way)
      ensures found ==> Wrote(old(output), currentPos, depth, output) && Shows(old(output), currentPos, depth, output)
      ensures !found ==> output == old(output)
      decreases |code| - depth, 1
    {
      hide Leads, Wrote, Shows, Through;
      if depth == |code| {
        NoneToRead(currentPos);
        if currentPos == endPos { WroteShows(output, currentPos, depth, output); }
        return currentPos == endPos;
      }
      var id := code[depth];
      if currentPos !in edges {
        NoneOf(currentPos, depth, {});
        return false;
      }
      var rest: set<int> := edges[currentPos].Keys;
      NoneOf(currentPos, depth, rest);
      while |rest| > 0
        invariant rest <= edges[currentPos].Keys && output == old(output)
        invariant NoneBut(currentPos, depth, rest)
      {
        hide NoneBut;
        var endVertexPos := Greatest(rest);
        NoneBeyond(currentPos, depth, rest);
        if endVertexPos <= endPos && id in edges[currentPos][endVertexPos] {
          var ok := TryEnd(currentPos, depth, endVertexPos);
          if ok {
            SomeWay(currentPos, depth, endVertexPos);
            WroteShows(old(output), currentPos, depth, output);
            return true;
          }
        } else {
          NotThrough(currentPos, depth, endVertexPos);
        }
        NoneBut1(currentPos, depth, rest, endVertexPos);
        rest := rest - {endVertexPos};
      }
      NoWay(currentPos, depth);
      found := false;
    }

    /** Every way from `pos` begins with a syllable that ends at one of `rest`, which are the
        nearest ones. */
    ghost predicate NoneBut(pos: nat, depth: nat, rest: set<int>)
      requires depth < |code|
    {
      && (forall e: nat, way :: e as int !in rest ==> !Through(pos, depth, e, way))
    }

    lemma NoneOf(pos: nat, depth: nat, ends: set<int>)
      requires Valid() && depth < |code| && pos <= |input|
      requires ends == if pos in edges then edges[pos].Keys else {}
      ensures NoneBut(pos, depth, ends)
      ensures ends == {} ==> forall way :: !Leads(pos, depth, way)
    {
      forall e: nat, way | Through(pos, depth, e, way)
        ensures e as int in ends
      {
        ThroughReads(pos, depth, e, way);
      }
      forall way
        ensures Leads(pos, depth, way) ==> Through(pos, depth, way[0], way)
      {
      }
    }

    lemma NoneBeyond(pos: nat, depth: nat, rest: set<int>)
      requires depth < |code| && NoneBut(pos, depth, rest) && |rest| > 0
      ensures forall e: nat, way :: e > Greatest(rest) ==> !Through(pos, depth, e, way)
    {
      hide Through;
    }

    lemma NotThrough(pos: nat, depth: nat, end: nat)
      requires Valid() && depth < |code| && pos <= |input|
      requires !(end <= endPos && Reads(edges, pos, end, code[depth]))
      ensures forall way :: !Through(pos, depth, end, way)
    {
      forall way
        ensures !Through(pos, depth, end, way)
      {
        if Through(pos, depth, end, way) { ThroughReads(pos, depth, end, way); }
      }
    }

    lemma NoneBut1(pos: nat, depth: nat, rest: set<int>, end: nat)
      requires depth < |code| && NoneBut(pos, depth, rest)
      requires forall way :: !Through(pos, depth, end, way)
      ensures NoneBut(pos, depth, rest - {end as int})
    {
      hide Through;
    }

    lemma SomeWay(pos: nat, depth: nat, end: nat)
      requires depth < |code| && exists way :: Through(pos, depth, end, way)
      ensures exists way :: Leads(pos, depth, way)
    {
      var way :| Through(pos, depth, end, way);
      assert Leads(pos, depth, way);
    }

    lemma NoWay(pos: nat, depth: nat)
      requires depth < |code| && NoneBut(pos, depth, {})
      ensures forall way :: !Leads(pos, depth, way)
    {
      forall way
        ensures !Leads(pos, depth, way)
      {
        if Leads(pos, depth, way) { assert Through(pos, depth, way[0], way); }
      }
    }
  }
}
