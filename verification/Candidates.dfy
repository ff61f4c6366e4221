/** Candidates, and translations as lists of the candidates they still have to give. */
module Candidates {
  import opened Commons

  datatype Candidate =
    | Plain(kind: string, start: nat, end: nat, quality: real, text_: string)
    | Uniquified(start: nat, end: nat, quality: real, items: seq<Candidate>)
  {
    /** What is shown; a uniquified candidate shows its first item. */
    function Text(): string {
      match this
      case Plain(_, _, _, _, text) => text
      case Uniquified(_, _, _, items) => if |items| > 0 then items[0].Text() else ""
    }
  }

  /** A translation, once nothing but its further candidates matters. */
  type Translation = seq<Candidate>

  /** Negative or zero if `ours` goes first, positive if `other` does. */
  function Compare(ours: Translation, other: Option<Translation>): int {
    if other.None? || |other.value| == 0 then -1
    else if |ours| == 0 then 1
    else
      var a, b := ours[0], other.value[0];
      if a.start != b.start then a.start - b.start
      else if a.end != b.end then -(a.end - b.end)
      else if a.quality != b.quality then (if a.quality > b.quality then -1 else 1)
      else 0
  }

  /** The order of candidates: nearer to the start of the segment, longer, better. */
  ghost predicate NotAfter(a: Candidate, b: Candidate) {
    a.start < b.start || (a.start == b.start && (a.end > b.end || (a.end == b.end && a.quality >= b.quality)))
  }

  /** Comparing translations is comparing what they would give next. */
  lemma ComparesHeads(ours: Translation, other: Translation)
    requires |ours| > 0 && |other| > 0
    ensures Compare(ours, Some(other)) <= 0 <==> NotAfter(ours[0], other[0])
    ensures Compare(ours, Some(other)) > 0 ==> NotAfter(other[0], ours[0])
  {
  }
}
