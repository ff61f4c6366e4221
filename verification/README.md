# librime's lookup pipeline, in Dafny

librime turns a typed string into ranked candidates. This project models that path and proves
what its steps promise, one module for each component:

- **Syllable graph.** `Lattices`, `Frontiers`, `Syllabification`, `KeyLinks`, `Pruning`,
  `SyllableGraphs`, `Completions`, `SyllableGraphExamples`: a priority-queue pass over the input, a backward pruning
  pass, completion, and the transposition into an index by syllable. The forward pass is a minimax
  shortest-path computation, and pruning keeps exactly what lies on a good enough way through the
  input.
- **Spelling algebra and prism.** `SpellingAlgebra`, `Projections`, `Prisms`, `PrismBuilds`,
  `DictCompilers`, `ExpandSearches`, `HitOrders`: rewriting rounds as a fast form of a sum over derivation
  chains, the spelling map made from them, and the bounded breadth-first search of the trie.
- **Dictionary.** `Vocabularies`, `TableImages`, `TableCompilers`, `TableVisitors`,
  `TableQueries`, `TableWalks`, `TablePaths`, `TableFinds`, `Dictionaries`, `DictionaryEntries`:
  the trie of entries, its flat image, the walk of the image in step with the graph, and the
  lookup in terms of the dictionary's own entries.
- **User dictionary.** `UserScans`, `UserTrails`, `UserFinds`, `UserEntries`, `UserDictionaries`: one cursor over
  a sorted store, moved by a depth-first walk that may stop early, against "every path, every key".
- **Merging, paging, sentences.** `ChunkMerges`, `DictEntryIterators`, `WordLookups`,
  `LazyTables`, `LazyExamples`, `Poets`, `Candidates`, `Menus`, `MenuOrders`, `Uniquifiers`,
  `Preedits`.
- **Segmentation.** `Segmentations`, `Segmentors`, `Rounds`, `SegmentorLaws`, `ChosenSegments`, `Engines`.
- **Side cores.** `UserDbMerges`, `Encoders`, `TableEncoders`, `RuleEncodings`, `EncodingLaws`,
  `KeySequences`, `KeyEventLaws`.
- **Shared.** `Commons`, `Spellings`, `Lexicographic`, `GraphEdges`, `Groupings`.
- **End to end.** `Readings`, `Pipelines`, `Evaluations`: how an input can be read, told by keys and
  ways through the input alone; what either dictionary finds can be read so, and what can be read
  is found.

Objects that the program updates in place are classes, and its loops are loops; each such method
is tied to a function of what it was given, and the promises are proved of that function. Maps
that the program keeps sorted are gone through by taking the least (or greatest) key first.

## Assumptions

- The double-array trie is a finite map from keys to ranks; a common-prefix search gives the
  keys that are prefixes of the text, shortest first.
- Rewriting formulas and recognizer patterns are arbitrary total functions.
- Doubles are reals. A credibility is a factor and never negative (`Sound`, `Credible`); nothing
  is said about rounding. The decay law enters the user database merge as a power of one factor
  per tick, and the user dictionary's weight formula as a function parameter.
- The graph handed to the syllabifier is empty, as the translators hand it over.
- Where a result asks for a `Clean` prism: no key is another key followed by delimiters, and no
  spelling lists a syllable twice. `Script::Merge` sees to the second. The first is up to the
  schema; it fails exactly if some edge can be overwritten, see below.
- Homophones of equal weight are taken to stay in order when a vocabulary is sorted
  (`std::sort` leaves that open). Chunks are kept in a list, whose sort is stable.
- User dictionary keys come in order; those from the space on have a tab, and no control character
  before it, and those before the space are metadata and may be anything. Syllables are numbered in
  order and made of characters beyond the space.
- A composition does not end in a nonempty segment that is already chosen (`ChosenSegments.Open`):
  whoever chooses one opens another behind it or commits (librime/src/engine.cc:238-256), and
  composing keeps it so. An empty last segment may be in any state.
- The name tables of keys and modifiers agree with each other (`KeyTable.Valid`).

## Findings

- The credibility of a word found in the table leaves out the last edge of its path, and that of a
  longer entry does not (`DictionaryEntries.FoundExactly`).
- An edge can be overwritten by another one to the same vertex. That happens for some input if and
  only if some key is another key followed by delimiters (`SyllableGraphs.OverwritesExactly`). With
  the keys "a" and "a'" and the input "a'", the start of the input is then pruned from the graph
  (`SyllableGraphExamples.DelimiterKeyLosesStart`).
- A vertex can be marked as an ambiguous joint by a vertex that is itself pruned: for the input
  "abc" if "a" is only an abbreviation and "ab", "b", "bc" and "c" are normal keys
  (`SyllableGraphExamples.DroppedVertexMarks`); `SyllableGraphs.MarksExactly` says when a mark comes
  from the graph that is left.
- `LazyTableTranslation` ends when a refetch brings no new entry, although a larger limit might. A
  whole run delivers everything if and only if no key beyond the last limit it tries has a word
  (`LazyTables.LazyTableTranslation.DeliverAll`), and `LazyExamples.StopsTooEarly` is a prism of 101
  keys for which it misses a word; `LazyExamples.Exist` makes one.
- The fallback segmentor opens a confirmed segment of raw input again when more raw input follows
  (`ChosenSegments.FallbackReopensRaw`; `Engines.ConfirmAndGoOn` is a whole run). So confirmed
  segments are safe from a matcher (`Segmentors.MatcherKeepsChoices`), but not from the fallback. A
  chosen segment survives the division of the input exactly if it is not a raw one with nothing
  behind it, whose continuation comes to the fallback (`ChosenSegments.ChosenSurvives`);
  `Engines.Compose` says so of a whole run.
- Translations only compare themselves to their neighbors in a menu, so three or more that are each
  in order may come out of order (`MenuOrders.ThreeOutOfOrder`); `MenuOrders.OrderedExactly` says
  exactly when they do not.
- Merging two snapshots in either order gives the same count for a shared key exactly if there is
  no tie between a use count and an equal deletion count (`UserDbMerges.MergesCommute`).
- Keys printed by number, and modifier bits without a name, do not survive being printed and
  parsed; named ones do (`KeySequences.EventRoundTrip`).
- An algebra that deletes every spelling counts as no algebra at all: the prism is then that of
  the bare syllabary (`DictCompilers.BuildPrism`).

## Model

| member | source | states |
|---|---|---|
| Frontiers.Visit | librime/src/algo/syllabifier.cc:29-49 | taking the best position from the queue records it with its final type, and the invariant "every way so far is recorded or queued" holds again |
| Frontiers.Discard | librime/src/algo/syllabifier.cc:38-43 | a position met again was recorded with a type at least as good, so it can be thrown away |
| Syllabification.Syllabifier.SkipDelimiters | librime/src/algo/syllabifier.cc:60-64 | the end of a match lies behind all delimiters that follow it, and before the next letter |
| Syllabification.Syllabifier.SpellMatch | librime/src/algo/syllabifier.cc:54-98 | one match gives the link of its key: its end past the delimiters, the syllables it lists there, and their best type |
| KeyLinks.CollectedLists | librime/src/algo/syllabifier.cc:60-88 | a link lists a syllable if and only if some descriptor names it that is not barred, as every one but a normal one is under strict spelling if the match spans the whole input; it has the type, credibility and tips of the first such descriptor |
| KeyLinks.LinksExactly | librime/src/algo/syllabifier.cc:52-96 | the links at a position are exactly those spelled by keys: a key there, the delimiters behind it, the syllables it names, with their best type, at least one |
| KeyLinks.WaysExactly | librime/src/algo/syllabifier.cc:29-106 | the ways of the forward pass are exactly the chains of such links from the start of the input |
| KeyLinks.WorstTells | librime/src/algo/syllabifier.cc:95-100 | the type of a way is that of one of its links, or normal, and none of them has a worse one |
| Syllabification.Syllabifier.Advance | librime/src/algo/syllabifier.cc:52-101 | the matches at a vertex give its edges and one queue entry each, typed by the worse of edge and vertex |
| Syllabification.Syllabifier.VisitVertices | librime/src/algo/syllabifier.cc:29-106 | minimax: exactly the positions some way of keys reaches are recorded, each with the least worst-edge type over all ways to it; the farthest one is returned |
| Syllabification.Syllabifier.FilterSpellings | librime/src/algo/syllabifier.cc:120-134 | an edge keeps exactly its syllables within the limit, and the type reported is the best one among them |
| Syllabification.Syllabifier.CheckOverlappedSpellings | librime/src/algo/syllabifier.cc:211-235 | exactly the vertices where two edges side by side span the given edge are marked ambiguous |
| Syllabification.Syllabifier.RemoveStale | librime/src/algo/syllabifier.cc:108-156 | the in-place backward pass leaves exactly the declaratively pruned graph: vertices with a good continuation, their admitted edges, joints marked |
| Syllabification.Syllabifier.Complete | librime/src/algo/syllabifier.cc:158-198 | completion adds one edge to the end of the input, from the first 512 keys found that extend the rest of the input; if they give no syllable it adds nothing, but for an empty edge list at the farthest position exactly if some key was found |
| Completions.CompletionExactly | librime/src/algo/syllabifier.cc:158-198 | the completion edge lists a syllable if and only if one of the first 512 keys found has a normal or fuzzy descriptor for it; it has the properties of the first such descriptor, at half the credibility |
| Syllabification.Syllabifier.Transpose | librime/src/algo/syllabifier.cc:237-247 | the index of each start lists, per syllable, the spellings on its edges from the farthest end to the nearest |
| Syllabification.Syllabifier.BuildSyllableGraph | librime/src/algo/syllabifier.cc:23-209 | the whole function: the finished graph is the pruned, completed and transposed form of a minimax draft, and the value returned is how far it reaches |
| Pruning.SurvivingVertices | librime/src/algo/syllabifier.cc:108-156 | a vertex survives if and only if some way to the farthest position with no link beyond max(type of the farthest vertex, fuzzy) visits it |
| Pruning.SurvivingEdges | librime/src/algo/syllabifier.cc:117-149 | an edge survives if and only if such a way uses it |
| Pruning.SurvivingEdge | librime/src/algo/syllabifier.cc:120-140 | a surviving edge joins surviving vertices and keeps, unchanged, exactly its syllables within the limit, at least one |
| Pruning.Trimmed | librime/src/algo/syllabifier.cc:108-156 | vertex 0 and the farthest vertex survive, and every survivor lies on a route between them made of surviving edges |
| SyllableGraphs.MatchesEndApart | librime/src/algo/syllabifier.cc:52-96 | in a clean prism the longer of two matches at one place ends later, so no edge is overwritten |
| SyllableGraphs.MatchesEndTogether | librime/src/algo/syllabifier.cc:52-96 | two matches at one place end together if and only if the longer key is the shorter one followed by delimiters |
| SyllableGraphs.OverwritesExactly | librime/src/algo/syllabifier.cc:52-96 | some input has an edge overwritten if and only if some key is another one followed by delimiters |
| SyllableGraphs.BuiltFromForwardPass | librime/src/algo/syllabifier.cc:23-106 | the draft of a clean prism meets all that the pruning results ask for |
| SyllableGraphs.TransposedExactly | librime/src/algo/syllabifier.cc:237-247 | the index lists exactly the edges that carry a syllable, each once, ends descending |
| SyllableGraphs.JointsOfSurvivors | librime/src/algo/syllabifier.cc:143-144 | where surviving edges i-m and m-e meet under a surviving normal or fuzzy edge i-e, m survives and is marked ambiguous |
| SyllableGraphs.MarkedExactly | librime/src/algo/syllabifier.cc:108-156 | a surviving vertex is an ambiguous joint if and only if two edges that stay linked meet there under a third that is fuzzy at worst; otherwise it keeps the type of its best way |
| SyllableGraphs.MarksExactly | librime/src/algo/syllabifier.cc:143-156 | a mark comes from the surviving graph if and only if one of its overlaps starts at a vertex within the limit |
| SyllableGraphExamples.DroppedVertexMarks | librime/src/algo/syllabifier.cc:143-156 | a prism and an input for which a dropped vertex marks a surviving one |
| SyllableGraphExamples.DelimiterKeyLosesStart | librime/src/algo/syllabifier.cc:94 | a prism with a key that ends in a delimiter, and an input, for which vertex 0 does not survive |
| Projections.Script.AddSyllable | librime/src/algo/algebra.cc:15-21 | a new syllable spells itself normally; a known one is left alone |
| Projections.Script.Merge | librime/src/algo/algebra.cc:23-50 | the in-place merge of one listing into another under a step |
| SpellingAlgebra.MergeAllSpec | librime/src/algo/algebra.cc:23-50 | merging keeps one listing per syllable, with the better type and the higher credibility of old and new, each by itself |
| SpellingAlgebra.MergeAllTips | librime/src/algo/algebra.cc:23-50 | a new syllable takes the tips of the step, or its own if there are none; one that was listed already loses its tips |
| SpellingAlgebra.RoundSumsUp | librime/src/algo/algebra.cc:128-155 | a round extends every derivation chain by one keep-or-rewrite step: the best of the longer chains is found from the best of the shorter ones |
| Projections.Projection.ApplyRound | librime/src/algo/algebra.cc:131-155 | one round fails exactly if some spelling makes the formula fail, reports a change exactly if one is rewritten, and sums up the longer chains |
| Projections.Projection.Apply | librime/src/algo/algebra.cc:122-157 | after any formulas a spelling lists a syllable once if some chain leads there and not otherwise, with the least worst type and the greatest product of credibilities over all chains; where it stops and what it returns are told by the chains, too |
| Projections.OriginalsStay | librime/src/algo/algebra.cc:142-152 | with non-deleting formulas every original spelling stays, no worse than it was |
| PrismBuilds.Build | librime/src/dict/prism.cc:121-235 | ranks of the keys in order, exactly the letters of the keys in order as the alphabet, and for each key the numbered syllables of the script with the types, credibilities and tips they are listed with |
| PrismBuilds.BuiltIsClean | librime/src/dict/prism.cc:178-232 | the prism of a script that lists syllables once is clean if and only if no key is another one followed by delimiters |
| DictCompilers.ApplyAlgebra | librime/src/dict/dict_compiler.cc:179-193 | the script is empty exactly if there is no algebra, some round fails, nothing is rewritten, or everything is deleted |
| DictCompilers.ScriptTellsDerived | librime/src/dict/dict_compiler.cc:202-205 | a prism made from the sum of all chains tells of a key exactly the syllables derived to it |
| DictCompilers.BuildPrism | librime/src/dict/dict_compiler.cc:172-209 | in the compiled prism a key stands for a syllable if and only if a chain of the effective algebra leads from the syllable to it; its descriptor has the least type, over all these chains, that is the worst of a chain, and the greatest product of credibilities |
| ExpandSearches.ExpandNode | librime/src/dict/prism.cc:284-312 | one node queues its children and reports the keys among them, and stops exactly at the limit |
| ExpandSearches.ExpandSearch | librime/src/dict/prism.cc:264-315 | the queue-driven search reports a prefix of the unlimited list of hits, cut at the limit |
| ExpandSearches.HitsAreExtensions | librime/src/dict/prism.cc:264-315 | the unlimited list is exactly the keys that extend the query, each once, shorter first, if the alphabet covers the keys |
| HitOrders.HitsInOrder | librime/src/dict/prism.cc:264-315 | with the letters in order, as a built prism has them, the unlimited list has shorter keys first and those of one length in dictionary order |
| Vocabularies.AddEntryAt | librime/src/dict/vocabulary.cc:81-100 | locating the slot of a code and appending changes that slot and no other |
| Vocabularies.CompiledSlots | librime/src/dict/vocabulary.cc:81-100 | the slot of a code holds exactly the dictionary's entries for it, in order; codes longer than the index share one |
| Vocabularies.CompiledShape | librime/src/dict/vocabulary.cc:81-100 | a vocabulary filled this way has the levels and tails that the table builder needs |
| Vocabularies.SortedSlots | librime/src/dict/vocabulary.cc:102-109 | sorting homophones sorts each slot and moves no entry to another |
| Vocabularies.SortedHolds | librime/src/dict/vocabulary.cc:47-53 | after sorting the vocabulary still holds the same dictionary, heavier entries first |
| TableImages.BuildHeadIndex | librime/src/dict/table.cc:297-320 | the image of a vocabulary, level by level; fails exactly if some page at index length has no tail |
| TableImages.BuildTrunkIndex | librime/src/dict/table.cc:322-356 | a trunk level has a node for each page, sorted by key, each an image of its page |
| TableImages.BuildTailIndex | librime/src/dict/table.cc:358-387 | a tail has the extra code and the entry of each long phrase, in order |
| TableCompilers.BuildTable | librime/src/dict/dict_compiler.cc:113-170 | the compiled index is the image of a vocabulary that holds the dictionary, sorted if asked for |
| TableVisitors.FindNode | librime/src/dict/table.cc:28-35 | bisection finds the node of a key exactly if the level has it |
| TableVisitors.IndexIsFaithful | librime/src/dict/table.cc:139-174 | what the image has below a code is the image of what the vocabulary has there |
| TableVisitors.TableVisitor.Access | librime/src/dict/table.cc:109-137 | from any walked code, the accessor of a syllable shows exactly the vocabulary's slot |
| TableVisitors.TableVisitor.Walk | librime/src/dict/table.cc:139-174 | walking on succeeds exactly if the vocabulary has something below, and otherwise leaves the visitor where it stood |
| TableVisitors.TableVisitor.Backdate | librime/src/dict/table.cc:176-184 | going back restores the place before the last walk; what was walked cannot be told afterwards |
| TableVisitors.TableVisitor.Reset | librime/src/dict/table.cc:186-191 | from anywhere, the visitor is back at the root |
| TableQueries.QueryPhrases | librime/src/dict/table.cc:438-446 | stepping through the accessor shows all entries of the code's slot, each with its full code; nothing for no code |
| TableQueries.PhrasesOfDictionary | librime/src/dict/table.cc:83-93 | for a compiled dictionary these are exactly the entries given for the slot, in order, with the codes, texts and weights they were given |
| GraphEdges.EdgesAre | librime/src/dict/table.cc:463-481 | the loops over an index follow every edge exactly once |
| TableWalks.WalkAside | librime/src/dict/table.cc:480-484 | queueing a copy of the visitor one syllable further, with the credibility of the edge, and going back leaves the visitor where it was |
| TableWalks.ExpandStop | librime/src/dict/table.cc:457-483 | one stop of the walk meets its slots and queues its continuations, each with its own copy of the visitor |
| TableWalks.Query | librime/src/dict/table.cc:448-489 | the breadth-first walk of graph and table in step groups, by end position, exactly the hits of the level-by-level definition; fails exactly outside the graph or with none |
| TablePaths.TrailsAtAre | librime/src/dict/table.cc:457-483 | the stops of the walk are the paths of the graph that the table goes on for, each once |
| TableFinds.FindsExactly | librime/src/dict/table.cc:448-489 | sound and complete against path enumeration: a query meets, once each, the slots of all paths of up to three syllables and, for longer codes, of each way to the fourth |
| Dictionaries.MatchExtraCode | librime/src/dict/dictionary.cc:29-50 | the recursive search computes the farthest position of the rest of a code |
| Dictionaries.FarthestExactly | librime/src/dict/dictionary.cc:29-50 | that position is the maximum over all paths that spell the rest, and 0 exactly if none does |
| Dictionaries.Lookup | librime/src/dict/dictionary.cc:151-186 | at each position exactly the chunks the finds give there, in chunk order; no result exactly if nothing is found |
| DictionaryEntries.FoundExactly | librime/src/dict/dictionary.cc:151-186 | a chunk is found at a position if and only if a path gives it: a word at the end of the path, with the initial credibility times the product of those of all edges but the last, or a longer entry where the rest of its code reaches farthest, with the product over all edges; texts and weights are those of the dictionary |
| DictionaryEntries.WordGives | librime/src/dict/dictionary.cc:168-178 | one path that spells a short code gives one chunk with all entries of that code |
| DictionaryEntries.LongGives | librime/src/dict/dictionary.cc:168-178 | one path that spells an index code gives one chunk for each longer entry that can be spelled on, where it reaches farthest |
| DictionaryEntries.LookupIsSound | librime/src/dict/dictionary.cc:151-186 | everything found at a position are dictionary entries whose code some path spells from the start to there |
| DictionaryEntries.LookupFindsWord | librime/src/dict/dictionary.cc:151-186 | an entry of up to three syllables is found, with its text and weight, at the end of every path that spells it |
| DictionaryEntries.LookupFindsLong | librime/src/dict/dictionary.cc:151-186 | a longer entry is found, with its text and weight, for every way to its fourth syllable, at the farthest end of the rest, and as credible as that way |
| DictionaryEntries.LookupRunsInOrder | librime/src/dict/dictionary.cc:181-184 | in a sorted dictionary, going through what is found at a position shows every entry once, best first |
| ChunkMerges.SortedInOrder | librime/src/dict/dictionary.cc:79-81 | sorting orders the chunks and loses none |
| ChunkMerges.SortedIsStable | librime/src/dict/dictionary.cc:79-81 | chunks that are equal in the order stay in the order they were added |
| ChunkMerges.RunIsComplete | librime/src/dict/dictionary.cc:83-123 | the k-way merge offers every entry of every chunk exactly once |
| ChunkMerges.RunIsOrdered | librime/src/dict/dictionary.cc:20-27 | for sorted chunks that descend, the merge is ordered by remaining code length, then by credibility times weight |
| DictEntryIterators.DictEntryIterator.Peek | librime/src/dict/dictionary.cc:99-107 | shows the next entry that passes the filter without using it up; skips only entries that do not pass |
| DictEntryIterators.ShowTells | librime/src/dict/dictionary.cc:83-97 | an entry is shown with its weight plus one, over ten to the eighth, times its credibility; the rest of its code stands behind a tilde |
| DictEntryIterators.DictEntryIterator.Next | librime/src/dict/dictionary.cc:109-123 | drops the entry in front and brings the best of the rest forward |
| DictEntryIterators.DictEntryIterator.Skip | librime/src/dict/dictionary.cc:125-137 | drops a number of entries across chunks, and tells whether there were as many |
| WordLookups.LookupWords | librime/src/dict/dictionary.cc:188-229 | fills the iterator with the words of the normal syllables of the first keys that extend the code, and counts the keys |
| WordLookups.FetchExactly | librime/src/dict/dictionary.cc:188-229 | a lookup finds exactly the entries, with their text and weight, of the syllables for which one of the first keys that extend the input is a normal spelling; what remains of a syllable is its part behind the input |
| WordLookups.FetchIsPrefix | librime/src/dict/dictionary.cc:188-229 | a limited lookup finds the first entries of the unlimited one, and all of them if it stays below its limit |
| WordLookups.FetchesAllExactly | librime/src/dict/dictionary.cc:188-229 | a limited lookup finds everything if and only if no key beyond its limit has a word |
| LazyTables.LazyTableTranslation.FetchMoreTableEntries | librime/src/gear/table_translator.cc:186-205 | a refetch raises the limit or, when it was not reached, lifts it, and leaves exactly the entries that are new |
| LazyTables.LazyTableTranslation.Next | librime/src/gear/table_translator.cc:56-70 | delivers one entry, refetches after the last one, and ends exactly if that brings nothing new |
| LazyTables.LazyTableTranslation.DeliverAll | librime/src/gear/table_translator.cc:56-205 | a whole run, to exhaustion, delivers exactly the entries of the lookup with the last limit, each once; that is everything if and only if no key beyond this limit has a word |
| WordLookups.LastLimitTells | librime/src/gear/table_translator.cc:186-205 | the limits tried are 10, 100 and so on; the last is the first that fewer keys reach or that ten times as much would not find more entries than, and 10 if the first lookup finds none |
| LazyExamples.StopsTooEarly | librime/src/gear/table_translator.cc:186-205 | a prism and a vocabulary for which the first refetch brings keys without words while a later key has one, so that the run ends too early |
| UserDictionaries.TextDbAccessor.Jump | librime/src/dict/text_db.cc:28-31 | moves to the first record not before the key |
| UserDictionaries.TextDbAccessor.GetNextRecord | librime/src/dict/text_db.cc:33-44 | gives the record at hand and moves on, unless at the end or outside the prefix |
| UserDictionaries.DfsState.ForwardScan | librime/src/dict/user_dictionary.cc:50-57 | loads the first record not before the prefix, or fails leaving the key as it was |
| UserDictionaries.DfsState.RecruitEntry | librime/src/dict/user_dictionary.cc:66-77 | adds the entry of the record at hand to its group, unless it is malformed or deleted |
| UserDictionaries.DfsState.TranslateCodeToString | librime/src/dict/user_dictionary.cc:429-444 | the key prefix of a code, its syllables each followed by a space; fails exactly if the syllable just added is unknown |
| UserDictionaries.DfsState.DfsLookup | librime/src/dict/user_dictionary.cc:189-240 | the moving cursor recruits, in order, exactly what trying every path ahead against every record recruits, and leaves the walk's stacks as they were |
| UserDictionaries.DfsState.LookupSyllable | librime/src/dict/user_dictionary.cc:196-238 | the same for one syllable; if the key at hand has left the prefix, nothing of a later syllable is in the store |
| UserScans.EarlyReturn | librime/src/dict/user_dictionary.cc:233-236 | when the cursor has left the current code, no path through a later sibling has a record: returning early loses nothing |
| UserTrails.PathsExactly | librime/src/dict/user_dictionary.cc:189-240 | the paths tried are all chains of usable spellings within the depth limit, each once |
| UserFinds.MatchesContents | librime/src/dict/user_dictionary.cc:66-77 | an entry is recruited for a path once per live record of the path's code |
| UserFinds.LookupIs | librime/src/dict/user_dictionary.cc:243-267 | an entry occurs at an end position as often as there are pairs of a trail that ends there and a live record of its code; groups descend in weight |
| UserFinds.FindsAre | librime/src/dict/user_dictionary.cc:189-240 | the pairs counted are all pairs of a chain of usable spellings to that end and a record that gives the entry for it |
| UserEntries.GivesExactly | librime/src/dict/user_dictionary.cc:446-475 | a record gives a path exactly this entry: live, under the key of the path's syllables and the text, with the commits of the record and its strength at the present tick times the credibility of the path |
| UserEntries.LookupFinds | librime/src/dict/user_dictionary.cc:189-267 | an entry occurs at a position as often as there are pairs of a path there and a live record of its code, with the record's commits and with its strength times the initial credibility and the product of the path's |
| UserDictionaries.Lookup | librime/src/dict/user_dictionary.cc:243-267 | the lookup finds at each end position exactly what paths and live records give there, with the weight they give it, heavier first; no result exactly if there is nothing |
| Poets.Sentence.Extend | librime/src/gear/translator_commons.cc:31-43 | one word appended: text, code, components, length and end position; the weight times that of the word, over ten to the eighth, where a word below 1e-200 counts as that |
| Poets.NeverHeavier | librime/src/gear/translator_commons.cc:31-43 | a word that weighs no more than ten to the eighth never makes a sentence heavier |
| Poets.FewerWordsWin | librime/src/gear/translator_commons.cc:31-43 | of two routes whose words all weigh one, that of fewer words is the heavier one |
| Poets.MakeSentence | librime/src/gear/poet.cc:19-53 | a sentence exactly if a path of words other than the single whole-length word covers the input, and then a heaviest one; of at least two words, unless the input is empty |
| Poets.RenderedWords | librime/src/gear/translator_commons.cc:31-43 | a path's sentence is the concatenation of its words, its weight the product of their factors, and its positive lengths add up to its end |
| Segmentations.Segmentation.Reset | librime/src/segmentation.cc:29-48 | keeps exactly the segments that end within the common prefix, and opens an empty one if any was disposed of |
| Segmentations.ResetTiles | librime/src/segmentation.cc:29-48 | what is kept tiles a prefix of the new input |
| Segmentations.Segmentation.AddSegment | librime/src/segmentation.cc:56-87 | the longer segment prevails and equal ones share their tags, at the current start only |
| SegmentorLaws.AddedTells | librime/src/segmentation.cc:56-87 | the same written out segment by segment |
| SegmentorLaws.ConfirmedExactly | librime/src/segmentation.cc:122-130 | the confirmed position is the end of the last chosen segment, or the start if there is none |
| Segmentations.Segmentation.Forward | librime/src/segmentation.cc:89-96 | opens an empty segment behind the last one, unless that is empty |
| Segmentations.Segmentation.Trim | librime/src/segmentation.cc:98-104 | takes an empty last segment away |
| Segmentations.TileAt | librime/src/segmentation.cc:106-120 | in a tiling every position lies in exactly one segment |
| Segmentors.RunEnd | librime/src/gear/abc_segmentor.cc:40-47 | the run of code characters is the longest one, and does not begin with a delimiter |
| SegmentorLaws.AbcTells | librime/src/gear/abc_segmentor.cc:36-61 | the run from the current start, written out on letters, becomes a segment tagged "abc" and with the extra tags, if there is any |
| Segmentors.ProceedAbc | librime/src/gear/abc_segmentor.cc:36-61 | adds the longest run of code characters from the current start |
| Segmentors.ProceedAffix | librime/src/gear/affix_segmentor.cc:37-97 | splits a tagged segment that begins with the prefix into parts; they spell the prefix, then the code if there is any, then the suffix exactly if the rest ends in one |
| SegmentorLaws.AffixTells | librime/src/gear/affix_segmentor.cc:37-58 | a segment that is the prefix alone changes its tag and shows the tips; one that does not begin with it is left alone |
| SegmentorLaws.PartsTell | librime/src/gear/affix_segmentor.cc:59-97 | the parts of a split with their places, tags, states and prompts |
| Segmentors.GetMatch | librime/src/gear/recognizer.cc:45-73 | the first pattern that matches the unconfirmed input up to its end, from the start of a segment |
| SegmentorLaws.MatchExactly | librime/src/gear/recognizer.cc:45-73 | what is found is the first pattern whose match in the unconfirmed input reaches the end of the input and starts where a segment does or the last one ends; nothing exactly if none does |
| Segmentors.ProceedMatcher | librime/src/gear/matcher.cc:23-40 | unless the match is empty, pops back to where it starts and adds the matched segment |
| Segmentors.MatcherKeepsChoices | librime/src/gear/matcher.cc:23-40 | a matcher never takes back a segment the user has chosen |
| Segmentors.ProceedAscii | librime/src/gear/ascii_segmentor.cc:20-33 | in ascii mode all the rest becomes one raw segment, and no other segmentor is asked |
| Segmentors.ProceedPunct | librime/src/gear/punctuator.cc:185-213 | a punctuation key becomes a segment of its own and ends the round |
| Segmentors.ProceedFallback | librime/src/gear/fallback_segmentor.cc:17-59 | what nothing else took becomes raw, extending a raw segment before it |
| Engines.Proceed | librime/src/engine.cc:149-160 | every segmentor keeps the segments a tiling and never lowers the end; one that changes nothing at rest lets the next one try |
| Rounds.RoundAdvances | librime/src/engine.cc:155-163 | a round on an open position that finds nothing has changed nothing, and cannot happen with the fallback last |
| SegmentorLaws.GoesOnTells | librime/src/engine.cc:155-159 | which segmentors end the round, and when |
| Engines.Round | librime/src/engine.cc:155-159 | the segmentors work in turn until one ends the round |
| Rounds.LoopReachesEnd | librime/src/engine.cc:149-167 | with the fallback last, the rounds go on to the end of the input |
| Engines.CalculateSegmentation | librime/src/engine.cc:149-172 | the loop ends with the segments its rounds define, and with the fallback last they cover the whole input without gap or overlap |
| Engines.Compose | librime/src/engine.cc:138-147 | the segments kept for the new input are completed until the whole active input is tiled; a segment the user has chosen is among them if and only if it ends within the common prefix and the fallback does not go on with it |
| Engines.ConfirmAndGoOn | librime/src/engine.cc:138-172 | a whole run in which confirmed raw input is opened again by what is typed behind it |
| ChosenSegments.FallbackReopensRaw | librime/src/gear/fallback_segmentor.cc:31-48 | a composition in which the loop opens a confirmed segment again |
| ChosenSegments.FallbackKeepsExactly | librime/src/gear/fallback_segmentor.cc:17-59 | the fallback keeps a chosen segment if and only if it does not go on with it |
| ChosenSegments.RoundKeepsExactly | librime/src/engine.cc:155-159 | a round keeps a chosen segment if and only if it does not come to the fallback with that segment to go on with |
| ChosenSegments.ChosenSurvives | librime/src/engine.cc:149-172 | all the rounds keep a chosen segment if and only if the first one does |
| Preedits.DelimitSyllableState.DelimitSyllablesDfs | librime/src/gear/script_translator.cc:43-73 | succeeds exactly if some path spells the code to the end position; then the input up to there is added, cut into the syllables of the path that favours longer ones, with joints between them; otherwise the output is as before |
| Preedits.WrittenIsJoined | librime/src/gear/script_translator.cc:55-65 | the text added is the syllables as typed, each but the first behind the first delimiter exactly if the text so far is not empty and does not end in a delimiter |
| Preedits.SlicesSpell | librime/src/gear/script_translator.cc:55-65 | the syllables side by side are the input slice |
| Menus.Menu.Prepare | librime/src/menu.cc:20-65 | the recruiting loop ends with the state of its round-by-round definition |
| Menus.WinnerExactly | librime/src/menu.cc:26-37 | the winner of a round is the first translation that does not come behind its neighbor |
| Menus.PreparedNoMore | librime/src/menu.cc:20-25 | without a filter only as many are recruited as are asked for |
| Menus.Resumable | librime/src/menu.cc:20-65 | preparing m and then n candidates leaves the state of preparing max(m, n), whatever the comparison and the filter do |
| Menus.PreparedKeeps | librime/src/menu.cc:20-65 | whatever the filter does, what was taken from each translation and what it has left are its candidates, in its own order |
| Menus.PreparedConserves | librime/src/menu.cc:20-65 | without a filter, what is listed and what is left are together always the same multiset of candidates |
| Menus.PreparedLists | librime/src/menu.cc:20-65 | without a filter, what is taken is listed, in the order it is taken |
| MenuOrders.PreparedOrdered | librime/src/menu.cc:20-65 | translations that are in order and aligned come out in order, however many are asked for |
| MenuOrders.OrderedExactly | librime/src/menu.cc:20-65 | all that translations in order give comes out in order if and only if they are aligned: of any two translations before that of a candidate c which both have something behind c, the later one has something nearer to c than all that the earlier one has |
| MenuOrders.TwoAreAligned | librime/src/menu.cc:26-37 | one or two translations always are |
| MenuOrders.ThreeOutOfOrder | librime/src/menu.cc:26-37 | three translations of one candidate each that come out of order |
| Menus.Menu.CreatePage | librime/src/menu.cc:67-89 | with a filter that keeps the number and the texts of what is listed, a page shows its part of the texts ever listed, made from no more rounds than it needs; none beyond the end |
| Menus.Menu.GetCandidateAt | librime/src/menu.cc:91-97 | with such a filter, the candidate shown at an index of the whole list, or none beyond its end |
| Menus.PagesPartition | librime/src/menu.cc:67-89 | successive pages list every candidate once, in order |
| Uniquifiers.Apply | librime/src/gear/uniquifier.cc:18-41 | the in-place loops merge candidates whose text is listed already, and leave the others |
| Uniquifiers.MergedTells | librime/src/gear/uniquifier.cc:25-40 | a candidate joins the first listed one with its text, behind the items that one stands for, at the same place and with the larger of the two qualities |
| Uniquifiers.NewTells | librime/src/gear/uniquifier.cc:22-40 | those left are the ones whose text is not listed, one by one and in order |
| Uniquifiers.ListedIsSound | librime/src/gear/uniquifier.cc:18-41 | listed texts stay distinct, a merged candidate has the best quality of its members, and no candidate is lost |
| Uniquifiers.UniqueMenu | librime/src/menu.cc:44-57 | a menu with this filter has pairwise different texts at any time, and every recruited candidate in exactly one listed one |
| Uniquifiers.UniquePage | librime/src/menu.cc:67-89 | a page of a menu with this filter shows its part of the distinct texts of the whole list |
| Uniquifiers.UniquePages | librime/src/menu.cc:67-89 | the pages of such a menu show no text twice, on one page or on two |
| Uniquifiers.UniqueFilter.Next | librime/src/gear/translator_commons.cc:106-121 | moves to the next candidate with a text not seen yet |
| Uniquifiers.FilterGivesFirsts | librime/src/gear/translator_commons.cc:101-131 | what the filter gives is exactly the first occurrence of each text, in order |
| Readings.GraphIsExact | librime/src/algo/syllabifier.cc:23-209 | the edges of a finished graph are exactly the syllables that can be read on ways spelled by keys, as `KeyLinks` tells them |
| Readings.SyllableIsPiece | librime/src/algo/syllabifier.cc:52-198 | what is read at a place is a key of the prism with the delimiters after it, or at the end of the input the beginning of one |
| Pipelines.FoundIsRead | librime/src/gear/script_translator.cc:197-225 | whatever a dictionary lookup finds at a position has a code that can be read from the input to there |
| Pipelines.WordIsFound | librime/src/gear/script_translator.cc:197-225 | an entry of up to three syllables is found wherever its code can be read to |
| Pipelines.LongIsFound | librime/src/gear/script_translator.cc:197-225 | a longer entry is found, for each way to read its first three syllables, at the farthest place the rest can be read to |
| Pipelines.NothingExactly | librime/src/dict/dictionary.cc:151-186 | a lookup finds nothing if and only if no entry is met: none can be read, and of no longer one the first three syllables and something behind them |
| Evaluations.Evaluate | librime/src/gear/script_translator.cc:197-225 | end to end: of each dictionary there is at every position exactly what the input can be read as up to there (of longer codes at the farthest such position), and no result exactly if nothing is met or read |
| UserDbMerges.UserDbMerger.Put | librime/src/dict/user_db.cc:250-269 | one record is merged: the larger count by absolute value, the larger faded weight, the later tick |
| UserDbMerges.MergedTells | librime/src/dict/user_db.cc:250-269 | of the counts the one that is larger by absolute value, ours in a tie; a weight no less than either faded one and equal to one of them; the later tick |
| UserDbMerges.Merge | librime/src/dict/user_db.cc:228-286 | the whole merge of a snapshot, and the tick it leaves |
| UserDbMerges.MergedAt | librime/src/dict/user_db.cc:250-269 | exactly the records of the snapshot's keys change, each by itself |
| UserDbMerges.MergeIsIdempotent | librime/src/dict/user_db.cc:228-286 | merging the same snapshot again changes nothing |
| UserDbMerges.CountsNeverFall | librime/src/dict/user_db.cc:262-263 | no merge lowers the absolute count of a record |
| UserDbMerges.ImportTells | librime/src/dict/user_db.cc:296-312 | a use keeps the larger count and weight, a deletion makes the count that is larger by absolute value negative, anything else changes nothing |
| UserDbMerges.MergesCommute | librime/src/dict/user_db.cc:250-269 | for a shared key the order of two merges matters for the count exactly in a tie, and never for weight and tick |
| UserDbMerges.ImportSettles | librime/src/dict/user_db.cc:296-312 | importing a record again changes nothing, a deletion stays one, and a count falls exactly if a smaller use brings a deleted record back |
| Encoders.ScriptEncoder.EncodePhrase | librime/src/algo/encoder.cc:284-288 | one entry for every way to cut the phrase into words that have codes and choose one for each; success exactly if there is a way |
| Encoders.ScriptEncoder.DfsEncode | librime/src/algo/encoder.cc:290-312 | the same from any position on, with the shared code stack left as it was |
| Encoders.WaysExactly | librime/src/algo/encoder.cc:290-312 | the ways tried are all there are, each once |
| EncodingLaws.WaysInOrder | librime/src/algo/encoder.cc:290-312 | where two ways first part, the one tried first takes the longer word, or an earlier code of the same word |
| EncodingLaws.CodesTell | librime/src/algo/encoder.cc:299-310 | the codes of a way are those chosen for the words it cuts the phrase into |
| TableEncoders.CalculateCodeIndex | librime/src/algo/encoder.cc:202-233 | the loops find the place of a virtual index |
| TableEncoders.ForeCounts | librime/src/algo/encoder.cc:219-231 | counting forward, the place has so many encoding characters behind the first one; it lies beyond the end exactly if there are fewer |
| TableEncoders.BackCounts | librime/src/algo/encoder.cc:206-217 | the same counting backward |
| EncodingLaws.TailTells | librime/src/algo/encoder.cc:206-212 | counting backward starts at the last place before the first tail anchor beyond the start, or at the last place of all |
| RuleEncodings.EncodedExactly | librime/src/algo/encoder.cc:135-196 | a text is the encoding if and only if the first rule that gives anything gives it; a rule for words of this length gives the letters of its selection, in which every coordinate takes its place in view of the one before or has none to take; there is no encoding exactly if no rule gives anything |
| RuleEncodings.IndexExactly | librime/src/algo/encoder.cc:202-233 | the place found for a virtual index is the one place that has it, told by counting encoding characters |
| RuleEncodings.LocateExactly | librime/src/algo/encoder.cc:144-190 | a pair of coordinates takes a letter if and only if its indices exist and, counted from the end, lead behind what was taken last |
| TableEncoders.TableEncoder.EncodePhrase | librime/src/algo/encoder.cc:235-278 | one entry for every way to choose a non-excluded code for each character that some rule encodes; success exactly if there is one |
| EncodingLaws.EncodedTell | librime/src/algo/encoder.cc:246-259 | the entries are exactly the encodings of those ways that some rule encodes |
| EncodingLaws.AllowedExactly | librime/src/algo/encoder.cc:266-276 | the codes tried for a character are those that are not excluded, each as often as it is listed |
| KeySequences.ReprEvent | librime/src/key_event.cc:20-51 | the text of an event: named modifiers, then the name or the number of the key |
| KeyEventLaws.ModifiersTell | librime/src/key_event.cc:20-35 | the names of the modifiers that have one, from the lowest bit up, each with a plus sign |
| KeyEventLaws.NamelessTells | librime/src/key_event.cc:40-50 | the number of a key in hexadecimal, with spaces up to four digits or, above 65535, six; none above 16777215 |
| KeySequences.ParseEvent | librime/src/key_event.cc:53-86 | the event of a text, or none |
| KeyEventLaws.ParsedExactly | librime/src/key_event.cc:53-86 | an event is read from a text of several letters exactly if it is a line of modifiers' names, each with a plus sign, and the name of a key; one letter is its own code as a signed byte |
| KeySequences.EventRoundTrip | librime/src/key_event.cc:20-86 | printing and parsing gives an event back if and only if its key has a parseable name and all its modifier bits have names |
| KeySequences.KeySequence.Repr | librime/src/key_event.cc:93-106 | the text of a sequence |
| KeyEventLaws.SequenceTells | librime/src/key_event.cc:93-106 | the texts of events stand side by side |
| KeyEventLaws.OneTells | librime/src/key_event.cc:97-104 | a text of one letter stands for itself, any other in braces |
| KeySequences.KeySequence.Parse | librime/src/key_event.cc:108-136 | the events of a text, or failure; what is left then are the events up to where it cannot be read |
| KeyEventLaws.PiecesTell | librime/src/key_event.cc:114-134 | a piece is what stands in braces, or one letter; a brace that is not closed fails, one at the very end is a letter |
| KeySequences.SequenceRoundTrip | librime/src/key_event.cc:93-136 | a sequence survives if and only if each of its events does |

## Left out

Members whose contracts say less than the program does:

- UserDictionaries.Lookup: the weight of an entry is a function parameter of its record and the present tick; the decay and probability formulas behind it are not modelled.
- UserDictionaries.SortByWeight: any order of entries of equal weight is allowed, as `std::sort` allows it.
- Syllabification.Syllabifier.BuildSyllableGraph: the completion edge ends at the end of the input, for which there is no vertex, as in the program; the pruning results speak of the graph without it.
- Dictionaries.Lookup: a group is its list of chunks; the iterator around it is modelled apart.
- Vocabularies.AddEntryAt: the vocabulary is a value, so the pointer that locating a slot returns, and writing through it later, are not captured.
- TableImages.BuildHeadIndex: nodes are values; allocation, and its failure, are not modelled.
- DictEntryIterators.DictEntryIterator.Next: text and comment of an entry are copied without the C string conversion.
- LazyTables.LazyTableTranslation.Next: only the table's entries; user phrases and the choice between the two are not modelled.
- Menus.Menu.CreatePage: for filters that keep the number and the texts of what is listed already, as the uniquifier does; what a page shows under another filter is not stated.
- Menus.Menu.GetCandidateAt: the same.
- Menus.Menu.Prepare: a translation is the list of candidates it still has to give, and its comparison a function of such lists; a translation that changes itself while comparing, as the echo translation does, is not.
- Segmentations.Segmentation.AddSegment: of a segment's menu only whether there is one is kept.
- Segmentors.ProceedPunct: which characters are punctuation is a parameter.
- UserDbMerges.Merge: the decay is a power of one factor per tick; the rounding of weights in stored text, the user id, and a failing store are not modelled, and a merger starts with no merged entries.
- TableEncoders.TableEncoder.EncodePhrase: for phrases that are whole UTF-8 characters; encoder rules are given in parsed form.
- KeySequences.EventRoundTrip: the name tables are a parameter that is assumed to be consistent; modifiers are a set of bits, and an event is a value instead of an object that keeps what was parsed before a failure.

Parts of the program that are not modelled:

- Byte layout, growth, checksums and loading of mapped files, the double-array trie itself, and regular expressions.
- Configuration files, deployment, options, notifications, logging, key processors and the front ends.
- `ConcreteEngine::OnSelect` and the translation of segments: glue around the composition that is modelled.
- `TableTranslator::MakeSentence`: it passes over positions where user entries exist, so the optimality result is that of `Poet` alone.
- Choosing between system and user phrases in `ScriptTranslation` and `TableTranslation`, comments, preedit formats and caret stops.
- `CharsetFilter`, `Sentence::Offset`, reverse lookup, and writing to the user dictionary: single-step operations.
- Script dumps and the parsing of algebra formulas.
