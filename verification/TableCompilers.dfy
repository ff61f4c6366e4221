/** Compiling a table: from dictionary entries, by way of the vocabulary, to the index. */
module TableCompilers {
  import opened Vocabularies
  import opened TableImages

  /** Main result: the index is the image of a vocabulary that holds the dictionary, with
      heavier homophones first if it was to be sorted. */
  method BuildTable(entries: seq<DictEntry>, numSyllables: nat, sortByWeight: bool) returns (index: seq<HeadNode>, ghost v: Vocabulary)
    requires IdsBelow(entries, numSyllables)
    ensures IsHead(v, index) && Holds(v, entries)
    ensures sortByWeight ==> forall path :: HeavierFirst(EntriesAt(v, path))
  {
    var vocabulary := Compile(entries);
    CompiledHolds(entries);
    CompiledShape(entries, numSyllables);
    if sortByWeight {
      SortedHolds(vocabulary, entries);
      SortedShaped(vocabulary, 0);
      vocabulary := SortHomophones(vocabulary);
    }
    v := vocabulary;
    var built := BuildHeadIndex(vocabulary, numSyllables);
    index := built.value;
  }
}
