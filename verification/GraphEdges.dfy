/** The edges that leave a position, one by one. */
module GraphEdges {
  import opened Spellings

  /** Which syllable to read next, and by which of its spellings. */
  datatype Choice = Choice(id: int, nth: nat)

  type Trail = seq<Choice>

  ghost predicate IsEdge(index: SpellingIndex, c: Choice) {
    c.id in index && c.nth < |index[c.id]|
  }

  ghost function EdgeAt(index: SpellingIndex, c: Choice): Properties {
    if IsEdge(index, c) then index[c.id][c.nth] else DEFAULT_PROPERTIES
  }

  ghost function EdgesOf(id: int, n: nat): seq<Choice> {
    seq(n, i requires 0 <= i < n => Choice(id, i))
  }

  /** The edges of the syllables `ids`, in the order they are followed. */
  ghost function Edges(index: SpellingIndex, ids: set<int>): seq<Choice>
    requires ids <= index.Keys
    decreases |ids|
  {
    if |ids| == 0 then []
    else
      var id := Greatest(ids);
      Edges(index, ids - {id}) + EdgesOf(id, |index[id]|)
  }

  /** Every edge is followed, and none twice. */
  lemma {:induction false} EdgesAre(index: SpellingIndex, ids: set<int>)
    requires ids <= index.Keys
    ensures Once(Edges(index, ids))
    ensures forall c :: c in Edges(index, ids) <==> c.id in ids && IsEdge(index, c)
    decreases |ids|
  {
    if |ids| > 0 {
      var id := Greatest(ids);
      EdgesAre(index, ids - {id});
      var more := EdgesOf(id, |index[id]|);
      forall c
        ensures c in more <==> c.id == id && c.nth < |index[id]|
      {
        if c.id == id && c.nth < |index[id]| { assert more[c.nth] == c; }
      }
      OnceConcat(Edges(index, ids - {id}), more);
    }
  }

  /** The syllables outside `rest` come before those in it. */
  ghost predicate DoneFirst(index: SpellingIndex, rest: set<int>) {
    rest <= index.Keys && forall d, r :: d in index.Keys - rest && r in rest ==> d < r
  }

  lemma NextEdges(index: SpellingIndex, rest: set<int>)
    requires DoneFirst(index, rest) && |rest| > 0
    ensures var id := Least(rest);
            && DoneFirst(index, rest - {id})
            && Edges(index, index.Keys - (rest - {id})) == Edges(index, index.Keys - rest) + EdgesOf(id, |index[id]|)
  {
    var id := Least(rest);
    var done := index.Keys - (rest - {id});
    assert forall d :: d in done <==> d == id || d in index.Keys - rest;
    assert Greatest(done) == id;
    assert done - {id} == index.Keys - rest;
  }
}
