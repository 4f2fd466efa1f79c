# FreeLing: verified models of its core algorithms

FreeLing analyses text in several languages. Most of its code loads linguistic data; this project models
the algorithms that work on that data, and proves what they are for:

- **Tagging** (`LogProb`, `Trellis`, `Viterbi`, `Rankings`, `HmmTagger`, `TrigramKeys`, `TaggedSentence`,
  `Tagging`, `TransitionScores`, `SequenceProb`, `Retagging`): the k-best Viterbi tagger. The trellis is
  filled and read back by the same loops as in the program; it is proved to hold the best scores of all tag
  sequences, and the sequences read off the tagged sentence are proved to score what the trellis says.
- **Chart parsing** (`Grammar`, `ChartIndex`, `ChartSpec`, `FindRules`, `ChartFill`, `BestEdges`,
  `ChartEdges`, `ChartCover`, `SyntaxTrees`, `ParseTrees`, `TreeSteps`, `Preferred`, `GovernedHeads`, `Chart`,
  `ChartCases`): the bottom-up parser. Its triangular table is proved to hold exactly what the grammar
  derives; the greedy cover and the tree read from the table are proved to account for every word, once and in
  order.
- **Linked trees** (`Tree`, `TreeWalk`, `TreeCopy`, `LeafWords`): the n-ary tree of parent, child and sibling
  pointers, as objects on the heap: moving and copying a subtree, walking in preorder without a stack, and
  giving the words of a sentence to the leaves of its tree.
- **From chunks to dependencies** (`Merging`, `HeadCounts`, `WordOrder`, `CompleterRules`, `CompleterRuns`,
  `RunResults`, `SafeLeaves`, `Completer`, `CompleterCases`, `DefaultMerges`, `MergeShapes`, `Dependencies`,
  `DependencyArcs`, `Projectivity`): merging the chunks of a partial parse into one tree, and converting a
  tree with marked heads to a dependency tree.
- **Page rank** (`EdgeLists`, `Vectors`, `PageRank`, `GraphLines`, `CsrGraph`): the graph in compressed rows,
  and the iteration with two vectors of ranks and a convergence test.
- **Databases** (`PrefTree`, `PrefixIndex`, `Database`): the prefix tree of linked records, on the heap, and
  the proof that a database kept in it answers like one kept in a map.
- **Multiwords** (`Locutions`, `LocutionForms`): the recognizer that keeps a beam of partial matches.
- **Probabilities of readings** (`Distributions`, `Readings`, `ReadingOrder`, `Probabilities`,
  `SuffixWeights`, `Assigner`, `ProbabilityCases`): smoothing, interpolation by suffixes and guessing, which
  are proved to end in a distribution of probability.
- **Dictionary** (`Strings`, `DictEntries`, `Preferences`, `Orders`, `EntryText`, `StoredEntries`,
  `InverseIndex`, `Dictionary`, `CapitalForms`): entries are parsed, grouped, written as text and read again;
  the index from lemmas and tags to forms is proved sound over additions and removals.
- **Splitting into sentences** (`Splitting`, `MarkerNesting`, `Splitter`, `SplitterCases`): the splitter with
  its buffer and its stack of open markers, which are kept from call to call. Its result is proved to be the
  only splitting that finds every end, and the markers of a sentence to be well nested.

Code that changes objects is modelled by classes and methods with loops, each proved against a
specification; recursive builders and tables that are only read are functions. Scores and probabilities are
exact reals; a log score is a real or minus infinity. Regular expressions and look-ups in files are
parameters. `dafny verify dfyconfig.toml` checks everything.

## Findings

Some promises do not hold of the code as it is. Each has a lemma with a concrete case or an exact condition.

- Tagging clears only the marks of tag sequence 0. A word reads back every tag it may be given in a later sequence
  exactly when it carries no old mark for that sequence, or every selectable tag but that of the first reading so
  marked has a best reading before it (`SequenceProbs.ReadsBackIffStaleFree`). A word that is tagged, gets another
  reading, has all its readings selected again and is tagged a second time reads back a wrong tag
  (`Retagging.FirstTagging`, `Retagging.AddedAndSelected`, `Retagging.SecondTaggingMisreads`).
- Tags that contain dots may make different transitions share a cache entry, and the second one is served the
  score of the first (`TrigramKeys.DottedTagsAreMisserved`). Over a set of tags every answer is right exactly when
  transitions that share a key, and are not forbidden everywhere, have the same score
  (`TrigramKeys.AlwaysRightIff`), and keys are shared exactly when the tags can be cut and joined in one of five
  ways (`TrigramKeys.KeysAreDistinctIff`).
- The grammar loader raises its wildcard flag for the first alternative of a rule and keeps it for the
  others (`Grammars.FlaggedIffLikeFirst`; `Grammars.SecondIsNotFlagged` is a rule).
- The root of the tree is chosen among all constituents that are not hidden. It is one that `@NOTOP` forbids
  exactly when such a one beats, or ties with and precedes, all others (`TreeSteps.RootIsForbiddenIff`), which can
  happen although the parser has found a valid root (`ChartCases.InvalidRootIsChosen`).
- The tree is a single node without label exactly when all that the grammar derives from the sentence is hidden or
  bare, and something that may be at the top is derived (`TreeSteps.TopIffDerived`;
  `ChartCases.HiddenPhraseHasNoLabel` is a sentence).
- A form that contains a closing bracket makes its reading count as a bare tag (`Grammars.SpecificIff`). Where no
  valid root is found, the search for constituents to make one from fails exactly in a stretch of words of which
  the grammar derives nothing but bare tags (`ChartCover.NothingUnderIff`), and the program stops
  (`ChartCases.BracketStopsTheParser` is a sentence).
- A flat node is left directly below one with its label exactly when it comes up from below a hidden node, or one
  allowed only at the top, that is removed between them (`GovernedHeads.FlatBelowItselfIff`;
  `GovernedHeads.FlatIsLeft` is a derivation).
- The completer loses the word of every leaf that it hangs a tree below, and no other: a run keeps all words
  exactly when none of its merges does that (`RunResults.RunKeepsWordsIff`). Two chunks of a single word each are
  enough (`CompleterCases.NounIsLost`); no run does it if no rule matches a leaf that is there from the beginning
  (`SafeLeaves.SafeRunIsInside`).
- The operation `cover_last_left` always leaves a head too many (`HeadCounts.MergeExcess`,
  `Merging.CoverBreaksHeads`). A run keeps all words and one head everywhere exactly when it hangs nothing below a
  leaf and covers nothing (`RunResults.RunKeepsOneHeadIff`). Heads alone do not tell: a node covered makes up for a
  word lost (`CompleterCases.HeadsAreMadeUpFor`).
- A run keeps the words in order exactly when all its merges are made at the edge between two trees
  (`RunResults.RunKeepsOrderIff`).
- The completer stops where the node to be covered is the root of a chunk
  (`Completers.Completer.Complete`; `CompleterCases.RootIsCovered` is a partial parse for which it does).
- A word is linked to its maximal projection exactly when all constituents in between are marked as heads
  (`DependencyArcs.LinkIsMaxProjIff`; `DependencyArcs.UnmarkedPhraseIsLinked` is a tree where one is not).
- A word that is not known gets probabilities only while the guesser is active; otherwise it keeps those it
  had (`Probabilities.AnnotatedIsDistribution`).
- A dictionary entry is read as it was parsed exactly when no tag has a bar, or is empty and the only one of its
  lemma (`DictEntries.GroupedRoundTrip`; `DictEntries.BarredTagIsLost` is an entry).
- Sorting by preference gives a sorted list exactly when the preferences order the strings
  (`Preferences.SortList`). One preference against the alphabet may leave no order at all for three lemmas
  (`Preferences.PreferenceMayCycle`).
- An analysis added to a new form is not listed in the inverse dictionary (`Dictionaries.Dictionary.AddAnalysis`).
  Removing a form leaves the inverse dictionary sound exactly when it lists the form only for the analyses of its
  lower case (`Dictionaries.Dictionary.RemoveEntry`), which a form with a capital is not
  (`CapitalForms.LoadAndRemove`).
- The edges of the graph are sorted by target as well as by source, so rows are not in file order
  (`EdgeLists.SortedListIsSorted`).

## Model

| member | source | states |
|---|---|---|
| `LogProbs.PlusAssociates` | src/libfreeling/hmm_tagger.cc:673-675 | adding scores is associative, also with minus infinity, so the order in which the tagger adds them does not matter |
| `LogProbs.BelowIsLess` | src/libfreeling/hmm_tagger.cc:92-98 | scores are compared as numbers, with minus infinity below all |
| `Trellises.InsertedIsSorted` | src/libfreeling/hmm_tagger.cc:92-98 | an element is put into its place: the set of elements stays sorted by score |
| `Trellises.LeftOutIsNoBetter` | src/libfreeling/hmm_tagger.cc:84-98 | an element that is not kept, or that is pushed out, is no better than any kept |
| `Trellises.KeepAllKeepsTheBest` | src/libfreeling/hmm_tagger.cc:70-100 | offering elements one after the other keeps the k best of all of them, sorted, as often as they were offered |
| `Trellises.Trellis.Insert` | src/libfreeling/hmm_tagger.cc:70-100 | inserting into the set of a state at a time is keeping the k best of it and the new element; all other sets stay |
| `Viterbi.TracesAreScoredPaths` | src/libfreeling/hmm_tagger.cc:707-757 | following the stored elements back never misses an entry, and gives a path through the lattice whose score is the one stored |
| `Viterbi.TracesAreDifferent` | src/libfreeling/hmm_tagger.cc:707-757 | the paths traced back from different ranks are different |
| `Viterbi.NoBetterPathIsLost` | src/libfreeling/hmm_tagger.cc:661-684 | a path that is not traced from the trellis is no better than any of the paths that are, and then k are stored |
| `Viterbi.TracesAreDistinctPaths` | src/libfreeling/hmm_tagger.cc:707-757 | the traced paths of a state are pairwise distinct |
| `Viterbi.RankInBestSelection` | src/libfreeling/hmm_tagger.cc:661-684 | a selection that no other element beats has, rank by rank, the scores of the whole sorted list |
| `Viterbi.TrellisHoldsTheKBest` | src/libfreeling/hmm_tagger.cc:620-701 | for every time and state, the trellis holds exactly the min(k, number of paths) best scores of all paths that end there, in descending order |
| `Rankings.RankingExists` | src/libfreeling/hmm_tagger.cc:661-701 | all paths into a state can be ranked by their scores |
| `Rankings.TrellisHoldsFirstOfRanking` | src/libfreeling/hmm_tagger.cc:620-701 | there is a ranking of all paths into a state, and the trellis holds its first k scores |
| `HmmTaggers.KeysAreUnique` | src/libfreeling/hmm_tagger.cc:441-443 | overlapping states with tags free of dots have different trigram keys |
| `HmmTaggers.DotFreeKeysAgree` | src/libfreeling/hmm_tagger.cc:441-443 | tags free of dots meet that condition |
| `HmmTaggers.HmmTagger.ProbALog` | src/libfreeling/hmm_tagger.cc:432-482 | the answer is that of the cache, or computed and cached; a forbidden transition is neither looked up nor stored; if transitions that share a key have the same score, it is always the one that the tables give, which is that of `TransitionScores.TransitionIsMixture` |
| `TransitionScores.TransitionIsMixture` | src/libfreeling/hmm_tagger.cc:458-479 | a transition that is not forbidden scores the logarithm of its three entries, each times the weight of its own table; with all weight on one table it scores that entry, where an unseen tag has the entry of x, and an unseen bigram or trigram 0 |
| `TransitionScores.MassIsAdditive` | src/libfreeling/hmm_tagger.cc:458-473 | the mass of a transition is additive in the weights |
| `TransitionScores.ThreeWeights` | src/libfreeling/hmm_tagger.cc:458-473 | tables with three different weights, whose transition has mass 0.71 |
| `TransitionScores.ForbiddenIsImpossible` | src/libfreeling/hmm_tagger.cc:445-449 | a transition is impossible if its trigram, or its bigram after any tag, is forbidden, and only then is it forbidden |
| `TrigramKeys.AlwaysRightIff` | src/libfreeling/hmm_tagger.cc:432-482 | over all sequences of calls for tags of a set, every answer is what the tables give if and only if transitions that share a key, and are not forbidden everywhere, have the same score |
| `TrigramKeys.KeysAreDistinctIff` | src/libfreeling/hmm_tagger.cc:441-443 | different transitions over a set of tags have different keys if and only if no tags can be cut at dots and joined again in one of five ways |
| `TrigramKeys.DistinctKeysAgree` | src/libfreeling/hmm_tagger.cc:432-482 | if they cannot, the cache never answers wrongly |
| `TrigramKeys.DottedTagsAreMisserved` | src/libfreeling/hmm_tagger.cc:441-482 | tables and two calls of which the second is served the score of the first |
| `HmmTaggers.HmmTagger.ProbBLog` | src/libfreeling/hmm_tagger.cc:495-551 | the emission score, from the mass of the matching readings |
| `TransitionScores.MassOfConcat` | src/libfreeling/hmm_tagger.cc:531-537 | the mass of a tag adds up over the readings that have it |
| `TransitionScores.EmissionIsInverted` | src/libfreeling/hmm_tagger.cc:495-551 | the emission score is the one with P(word given tag) P(tag) = P(tag given word) P(word) |
| `TransitionScores.BeginningIsInitial` | src/libfreeling/hmm_tagger.cc:558-574 | the score of starting in a state is that of its table, and else that of an unseen beginning, or impossible for a state not at the beginning |
| `HmmTaggers.HmmTagger.FillFirst` | src/libfreeling/hmm_tagger.cc:642-652 | the first column: every state with the score of starting in it |
| `HmmTaggers.HmmTagger.FillColumn` | src/libfreeling/hmm_tagger.cc:654-689 | a column: for every state, the k best of all stored paths of its predecessors, extended |
| `HmmTaggers.HmmTagger.FillEnd` | src/libfreeling/hmm_tagger.cc:691-701 | the end state: the k best of all paths stored for the last word |
| `TaggedSentences.FindStates` | src/libfreeling/hmm_tagger.cc:768-806 | the states that may have emitted each word: exactly the pairs of selected tags of it and the word before, each once |
| `Tagging.LatticeIsConnected` | src/libfreeling/hmm_tagger.cc:768-806 | every state has a predecessor, so no column is empty |
| `Tagging.FillTrellis` | src/libfreeling/hmm_tagger.cc:636-701 | the trellis is filled, column by column, as the lattice of the sentence says |
| `TransitionScores.TwoWords` | src/libfreeling/hmm_tagger.cc:582-614 | the score of a path over two known words, in full: beginning, both emissions and the transition between |
| `Tagging.BestReadings` | src/libfreeling/hmm_tagger.cc:721-741 | the readings of a tag that are most probable among those of that tag, and all of them |
| `Tagging.StepBack` | src/libfreeling/hmm_tagger.cc:747-755 | one step back along the stored elements |
| `Tagging.RecoverPath` | src/libfreeling/hmm_tagger.cc:707-757 | for one rank, every word gets marked with the best readings of its tag on the traced path |
| `SequenceProbs.Annotate` | src/libfreeling/hmm_tagger.cc:620-760 | tagging: the sentence gets marked with all traced paths of the end state, in order, and nothing else of it changes |
| `SequenceProbs.SequenceProbLog` | src/libfreeling/hmm_tagger.cc:582-614 | the score of a tag sequence read off the sentence is that of its path through the lattice |
| `SequenceProbs.ScoresIgnoreMarks` | src/libfreeling/hmm_tagger.cc:582-614 | marks on readings do not change scores |
| `SequenceProbs.TagPathIsPath` | src/libfreeling/hmm_tagger.cc:582-614 | the tag sequence read off for a rank is the path traced for it |
| `SequenceProbs.TaggedSequenceHasTrellisScore` | src/libfreeling/hmm_tagger.cc:582-760 | the score of the k-th tag sequence read off the tagged sentence is exactly the k-th score of the trellis |
| `SequenceProbs.TaggedSequencesAreTheBest` | src/libfreeling/hmm_tagger.cc:582-760 | the scores of the tag sequences read off are the best of all tag sequences of the sentence, in order, as many as asked for or as there are |
| `SequenceProbs.TaggedSequencesAreFirstOfRanking` | src/libfreeling/hmm_tagger.cc:582-760 | there is a ranking of all tag sequences, and the sequences read off have its first scores |
| `SequenceProbs.ReadsBackIffStaleFree` | src/libfreeling/hmm_tagger.cc:703-705 | a word, with marks of an earlier tagging, reads back every tag it may be given if and only if no such mark hides one: a condition on the word before the call |
| `SequenceProbs.UnmarkedIsStaleFree` | src/libfreeling/hmm_tagger.cc:703-705 | the words of a sentence that has not been tagged before carry no such marks |
| `Retagging.FirstTagging` | src/libfreeling/hmm_tagger.cc:620-760 | what tagging a word with two readings leaves, whatever the trellis: each reading in one sequence |
| `Retagging.AddedAndSelected` | src/libfreeling/maco.cc:147 | adding a reading and selecting all again gives the word that is tagged a second time |
| `Retagging.SecondTaggingMisreads` | src/libfreeling/hmm_tagger.cc:703-757 | the second tagging gives sequence 1 the tag of the added reading, but the word reads back that of the first tagging |
| `Grammars.StartsIffMatches` | src/libfreeling/chart_parser/chart.cc:538-571 | if wildcards are flagged as they should be, looking rules up by their first symbol finds exactly those whose first symbol matches |
| `Grammars.WildcardMeaning` | src/libfreeling/chart_parser/chart.cc:489-526 | a wildcard matches exactly the tags that begin with its stem and carry the same lemma or form |
| `Grammars.WildcardWithFile` | src/libfreeling/chart_parser/chart.cc:489-526 | a wildcard with a file list matches exactly the tags that begin with its stem and whose lemma or form is listed |
| `Grammars.SpecificIff` | src/libfreeling/chart_parser/grammar.cc:415-423 | when a reading by form, or by lemma, counts as more specific than a bare tag |
| `Grammars.GrammarLoader.NewRule` | src/libfreeling/chart_parser/grammar.cc:397-406 | a rule is stored, and stored again among the wildcarded ones if flagged |
| `Grammars.GrammarLoader.LoadRule` | src/libfreeling/chart_parser/grammar.cc:230-289 | all alternatives of a rule are stored, with one wildcard flag for all, and the head becomes a non-terminal |
| `Grammars.LoadedGovernors` | src/libfreeling/chart_parser/grammar.cc:235-247 | the governor of a rule is the component marked, or the first one |
| `Grammars.FlaggedIffLikeFirst` | src/libfreeling/chart_parser/grammar.cc:258-300 | a rule is flagged correctly exactly when it begins with a wildcard just as the first alternative does |
| `Grammars.SecondIsNotFlagged` | src/libfreeling/chart_parser/grammar.cc:258-300 | a rule of which only the second alternative begins with a wildcard, and the same with the alternatives exchanged |
| `ChartIndex.IndexIsBijection` | src/libfreeling/chart_parser/chart.cc:463-465 | the cells of the triangle are numbered from 0 to n(n+1)/2 - 1, each number once |
| `ChartIndex.RowsAreOrdered` | src/libfreeling/chart_parser/chart.cc:463-465 | rows follow each other in the table, so cells are visited in the order of their numbers |
| `FindRules.WorklistShrinks` | src/libfreeling/chart_parser/chart.cc:556-570 | every turn of the worklist lowers a weight, if unary rules are acyclic |
| `FindRules.StartWildcards` | src/libfreeling/chart_parser/chart.cc:538-553 | the wildcarded rules that a terminal starts, and the heads that they complete |
| `FindRules.StartRules` | src/libfreeling/chart_parser/chart.cc:557-568 | the rules stored under a symbol are all started |
| `FindRules.FindAllRules` | src/libfreeling/chart_parser/chart.cc:533-571 | the edges added for a new constituent: only rules that it, or a constituent added, can start, and all of them; the worklist comes to an end |
| `ChartSpec.DerivedIsInChart` | src/libfreeling/chart_parser/chart.cc:199-236 | completeness: whatever the grammar derives from a stretch of words is a complete edge of its cell |
| `ChartSpec.ConstituentIsDerived` | src/libfreeling/chart_parser/chart.cc:199-236 | soundness: every complete edge has a derivation of the words of its cell |
| `ChartSpec.ChartIsSoundAndComplete` | src/libfreeling/chart_parser/chart.cc:199-236 | a head is in cell (k,i) if and only if it derives the words i to i+k |
| `ChartSpec.ChartMatchesPlainGrammar` | src/libfreeling/chart_parser/chart.cc:199-236 | the same for derivations in which every symbol of a rule is matched alike, if wildcards are flagged correctly |
| `ChartFill.CellFromOneMore` | src/libfreeling/chart_parser/chart.cc:222-226 | adding an edge to a cell, and completing the cell if it is complete, keeps in it all that it must have and nothing else |
| `ChartFill.AdvancedAreBase` | src/libfreeling/chart_parser/chart.cc:212-232 | the edges advanced into a cell are all those that some cell to the left and the constituents next to it justify |
| `ChartFill.FilledOneMore` | src/libfreeling/chart_parser/chart.cc:233 | inserting a cell at its index leaves all finished cells in place, and finishes one more |
| `Charts.Chart.LoadWord` | src/libfreeling/chart_parser/chart.cc:156-180 | the cell of a word holds its readings as tag, tag with form and tag with lemma, and everything that they start |
| `ChartCases.ThreeReadings` | src/libfreeling/chart_parser/chart.cc:156-180 | the three readings of dogs: tag, tag with form in round brackets, tag with lemma in angle brackets |
| `Charts.Chart.LoadSentence` | src/libfreeling/chart_parser/chart.cc:141-185 | the lowest row is final after loading |
| `Charts.Chart.CanExtend` | src/libfreeling/chart_parser/chart.cc:472-483 | whether a cell has a constituent that a symbol matches |
| `Charts.Chart.ShiftEdges` | src/libfreeling/chart_parser/chart.cc:214-232 | all edges of a cell that can be are advanced, and completed |
| `Charts.Chart.FillCell` | src/libfreeling/chart_parser/chart.cc:212-233 | a cell is made of cells that are final |
| `Charts.Chart.FillRows` | src/libfreeling/chart_parser/chart.cc:209-235 | the chart holds in every cell exactly the edges that the cells below and the cell itself justify |
| `BestEdges.BetterEdgeIsAnOrder` | src/libfreeling/chart_parser/chart.cc:430-456 | the preference among constituents is a strict weak order |
| `BestEdges.PickBest` | src/libfreeling/chart_parser/chart.cc:240-246 | the search through a cell finds an edge that no other wanted one beats |
| `Preferred.SelectedIsPreferred` | src/libfreeling/chart_parser/chart.cc:430-456 | the constituent selected in a cell is the start symbol, if that is there, and else a non-terminal with the least priority number, unlisted ones counting 9999, and of those the one with the most symbols; terminals come last, by how specific they are |
| `ChartEdges.TilesOfSum` | src/libfreeling/chart_parser/chart.cc:412-418 | cells that tile neighbouring stretches tile both |
| `ChartEdges.EdgesAreLaid` | src/libfreeling/chart_parser/chart.cc:108-111 | the backpath of every edge tiles the words of its cell, and each symbol matched is found in its cell |
| `ChartEdges.RootIsExplained` | src/libfreeling/chart_parser/chart.cc:273-274 | adding a made-up root keeps every edge accounted for |
| `ChartCover.CoverTiles` | src/libfreeling/chart_parser/chart.cc:378-420 | a greedy cover tiles the words from left to right, without gap or overlap |
| `ChartCover.HighestIsUnique` | src/libfreeling/chart_parser/chart.cc:392-410 | the search for the highest cell has only one result |
| `ChartCover.BarrenIff` | src/libfreeling/chart_parser/chart.cc:392-410 | a cell has nothing to select if and only if the grammar derives only bare tags from its words |
| `ChartCover.NothingUnderIff` | src/libfreeling/chart_parser/chart.cc:409-410 | the search below a cell fails if and only if the grammar derives nothing but bare tags from any stretch of its words |
| `ChartCover.SpecificIsCoverable` | src/libfreeling/chart_parser/chart.cc:378-420 | words that have each something more specific than a bare tag can be covered |
| `ChartCover.MadeUpRootIsFictitious` | src/libfreeling/chart_parser/chart.cc:250-275 | what the made-up root is made of: constituents that tile the sentence, never the start symbol alone |
| `Charts.Chart.FindHighest` | src/libfreeling/chart_parser/chart.cc:392-410 | the cell chosen is the highest with a constituent, and the first to hold the best one of its row; fails if and only if there is none |
| `Charts.Chart.Cover` | src/libfreeling/chart_parser/chart.cc:378-420 | the cover is greedy at every level, and terminates; it fails if and only if it comes to a stretch of words with nothing to select |
| `Charts.Chart.MakeRoot` | src/libfreeling/chart_parser/chart.cc:253-272 | the root made up: the start symbol, without governor, over the best constituents of a cover, if there is a cover |
| `Charts.Chart.Parse` | src/libfreeling/chart_parser/chart.cc:199-278 | the filled chart, with a made-up root added exactly if no valid one covers the sentence; fails if and only if there is neither a valid root nor a cover |
| `ParseTrees.ShapeKeepsWords` | src/libfreeling/chart_parser/chart.cc:330-361 | removing hidden, top-only and flat nodes neither loses, adds nor reorders words |
| `ParseTrees.TreeLeavesAreTheWords` | src/libfreeling/chart_parser/chart.cc:285-369 | the tree of cell (x,y) has one leaf for each of the words y to y+x, in order, with a symbol that the grammar accepts for that word |
| `ParseTrees.TreeIsHeadedAndShown` | src/libfreeling/chart_parser/chart.cc:330-361 | every constituent has exactly one head daughter, also where the head child was removed; nothing hidden or top-only is left below the root |
| `TreeSteps.BestEdgeExpands` | src/libfreeling/chart_parser/chart.cc:310-334 | what the best edge for a constituent matched can be expanded in turn, and is lower |
| `Charts.Chart.GetTree` | src/libfreeling/chart_parser/chart.cc:285-369 | the tree is a derivation by best edges, each of which is the longest for its constituent in its cell, with its hidden nodes removed; building it terminates by row, start symbol and unary rank |
| `Preferred.TreeIsOfLongest` | src/libfreeling/chart_parser/chart.cc:309-334 | every phrase of the tree is made by a rule of the grammar, with the governor of that rule, and no longer rule derives the same constituent from the same words; the only other phrase is the made-up root |
| `GovernedHeads.HeadIsGovernor` | src/libfreeling/chart_parser/chart.cc:320-361 | the daughters marked as heads lead to the word that the governors of the rules lead to, also where nodes have been removed |
| `GovernedHeads.FittingHasGovernors` | src/libfreeling/chart_parser/chart.cc:309-361 | every derivation read from the chart has such governors, but for that of the made-up root |
| `GovernedHeads.RootHasNoHead` | src/libfreeling/chart_parser/chart.cc:363-365 | no daughter of the made-up root is marked as head |
| `GovernedHeads.FlatBelowItselfIff` | src/libfreeling/chart_parser/chart.cc:337-351 | a flat node is left directly below one with its label if and only if it comes up from below a hidden or top-only node |
| `GovernedHeads.FlatIsLeft` | src/libfreeling/chart_parser/chart.cc:337-351 | such a derivation |
| `GovernedHeads.TreeIsFlattened` | src/libfreeling/chart_parser/chart.cc:337-351 | without hidden and top-only nodes, no flat node is directly below one with its label |
| `Charts.Chart.GetRootTree` | src/libfreeling/chart_parser/chart.cc:293-307 | the tree of the whole sentence, or a node without label if nothing that is not hidden covers it; its root is preferred to all other constituents that are not hidden, and a forbidden one if and only if a forbidden one wins |
| `Charts.Chart.Analyze` | src/libfreeling/chart_parser/chart_parser.cc:67-81 | from words to tree: the leaves are the words, every constituent has its head and is made by a longest rule, the root is preferred to all that might have been, and has a label if and only if grammar and words allow one; fails if and only if no root can be found or made up |
| `TreeSteps.RootIsForbiddenIff` | src/libfreeling/chart_parser/chart.cc:296-304 | the root of the tree is one that must not be at the top if and only if such a one beats, or ties with and precedes, every one that may |
| `TreeSteps.TopIffDerived` | src/libfreeling/chart_parser/chart.cc:248-304 | the tree has a labelled root if and only if something that is not hidden derives the sentence, or nothing that may be at the top does |
| `TreeSteps.MadeUpRootIsTop` | src/libfreeling/chart_parser/chart.cc:296-304 | a made-up root can always be the root of the tree |
| `ChartCases.InvalidRootIsChosen` | src/libfreeling/chart_parser/chart.cc:248-304 | a grammar and a word whose tree gets a root that must not be at the top, although the parser has found one that may |
| `ChartCases.HiddenPhraseHasNoLabel` | src/libfreeling/chart_parser/chart.cc:248-304 | a grammar and two words whose tree is a node without label |
| `ChartCases.BracketStopsTheParser` | src/libfreeling/chart_parser/chart.cc:250-275 | a grammar and a word for which no root can be made up |
| `Trees.UnlinkedIsValid` | src/include/freeling/tree.h:444-452 | taking a child out keeps every parent, sibling, first and last link consistent |
| `Trees.HungIsValid` | src/include/freeling/tree.h:454-478 | hanging a root below a node that is not below it keeps all links consistent, and makes no cycle |
| `Trees.Unchain` | src/include/freeling/tree.h:444-457 | which links change when a child is taken out |
| `Trees.Chain` | src/include/freeling/tree.h:454-478 | which links change when a child is hung |
| `Trees.HangChild` | src/include/freeling/tree.h:442-479 | any child but the node itself or one above it is moved: out of the children of its old parent, to the end or the beginning of those of the node; all other lists of children stay, and all links are consistent |
| `TreeWalk.WalkVisitsEachNodeOnce` | src/include/freeling/tree.h:608-618 | from the root, the walk visits every node of the tree exactly once, in preorder, and then ends |
| `TreeWalk.PrevUndoesNext` | src/include/freeling/tree.h:608-631 | walking back undoes walking on |
| `TreeWalk.NextUndoesPrev` | src/include/freeling/tree.h:608-631 | walking on undoes walking back |
| `TreeWalk.MovedTreeIsUnchanged` | src/include/freeling/tree.h:442-479 | a child that is moved takes its whole subtree along, unchanged |
| `TreeWalk.Following` | src/include/freeling/tree.h:608-618 | the next node is found by following links down, or up and aside |
| `TreeWalk.PreorderIterator.Increment` | src/include/freeling/tree.h:608-618 | the iterator moves to the next node in preorder |
| `TreeWalk.PreorderIterator.Decrement` | src/include/freeling/tree.h:620-631 | the iterator moves to the node before |
| `TreeCopy.CopyStays` | src/include/freeling/tree.h:484-510 | a copy depends only on the children and information of its own nodes, so hanging it elsewhere leaves it a copy |
| `TreeCopy.HangOther` | src/include/freeling/tree.h:454-478 | a tree of other nodes is hung below a node; both stay well linked |
| `TreeCopy.CloneKids` | src/include/freeling/tree.h:493-510 | the children of a node are copied from first to last, each chained after the one before |
| `TreeCopy.Clone` | src/include/freeling/tree.h:484-510 | new, well linked nodes make a tree of the same form with the same information; the tree copied does not change |
| `TreeCopy.AppendChild` | src/include/freeling/tree.h:418-436 | a copy of the child becomes the last child; the other lists of children stay, also when the child is the node or above it |
| `TreeCopy.CopyReadsTheSame` | src/include/freeling/tree.h:484-510 | walking through the copy in preorder reads the same as walking through the tree |
| `TreeWalk.NumChildren` | src/include/freeling/tree.h:292-298 | the number of children |
| `TreeWalk.PairLeaves` | src/libfreeling/chart_parser/chart_parser.cc:82-91 | walking through a tree with at most as many leaves as words, the j-th leaf gets the j-th word; the links and the other nodes stay |
| `LeafWords.LeavesAreDrawn` | src/libfreeling/chart_parser/chart_parser.cc:82-91 | the leaves that the walk visits are those of the tree of values that the nodes stand for, in order |
| `LeafWords.GiveWords` | src/libfreeling/chart_parser/chart_parser.cc:79-91 | in the tree of a sentence every word has one leaf, which is labelled with a symbol that stands for it, and gets it; the node without label gets the first word |
| `Merging.ReplaceWords` | src/libfreeling/dependencies.cc:765-769 | changing a subtree changes only its words |
| `MergeShapes.MergedAtTop` | src/libfreeling/dependencies.cc:713-755 | of two trees merged at the top the one named is root and head, the other its last, or first, child, and each gets its own new label |
| `MergeShapes.MergedInside` | src/libfreeling/dependencies.cc:757-783 | the node matched gets the other tree as its last, or first, child, which is no head |
| `MergeShapes.MergedOver` | src/libfreeling/dependencies.cc:785-800 | the tree that covers a node takes its place as the last child of its parent, as a head, with the node as its own last child |
| `MergeShapes.OtherSubStays` | src/libfreeling/dependencies.cc:757-800 | nodes elsewhere stay what they are |
| `MergeShapes.FlagsAfter` | src/libfreeling/dependencies.cc:704-709 | a flag is on after a merge exactly if it was on or is switched on, and is not switched off |
| `Merging.TopMergeKeepsOrder` | src/libfreeling/dependencies.cc:713-755 | merging at the top keeps the words in order |
| `Merging.MergeLosesWords` | src/libfreeling/dependencies.cc:701-807 | merging two trees keeps all words but that of a leaf that one is hung below |
| `Merging.MergeKeepsWordsIff` | src/libfreeling/dependencies.cc:701-807 | merging two trees keeps all words exactly when no tree is hung below a leaf |
| `Merging.MergeKeepsOneHeadIff` | src/libfreeling/dependencies.cc:701-807 | merging keeps one head child everywhere exactly when no tree is hung below a leaf, and no node is covered |
| `Merging.CoverBreaksHeads` | src/libfreeling/dependencies.cc:785-800 | covering a node always breaks that |
| `HeadCounts.MergeExcess` | src/libfreeling/dependencies.cc:701-807 | a merge makes one head too many where it covers a node, and one too few where it hangs a tree below a leaf |
| `WordOrder.MergeKeepsOrderIff` | src/libfreeling/dependencies.cc:701-807 | a merge at an inner node leaves the words in order if and only if it is made at the edge between the two trees |
| `CompleterRules.LastMatch` | src/libfreeling/dependencies.cc:606-613 | the node remembered is the last in preorder that meets the condition |
| `CompleterRules.NextIsUnique` | src/libfreeling/dependencies.cc:337-362 | trees and flags determine the next merge: its rule, its chunk and its node |
| `CompleterRuns.NextFitsIff` | src/libfreeling/dependencies.cc:785-800 | the next merge can be made if and only if it does not cover the root of a chunk |
| `CompleterRuns.FullRunIsNotStopped` | src/libfreeling/dependencies.cc:323-368 | if some run comes down to one tree, no run from there is stopped |
| `CompleterRuns.CoversBelowNeverStops` | src/libfreeling/dependencies.cc:592-617 | no run is stopped if no rule covers a node that is the last match at the root of a chunk |
| `RunResults.RunLosesWords` | src/libfreeling/dependencies.cc:323-368 | after any number of merges the words are those of the beginning, less the words of leaves that trees were hung below |
| `RunResults.RunKeepsWordsIff` | src/libfreeling/dependencies.cc:323-368 | a run keeps all words if and only if none of its merges hangs a tree below a leaf |
| `RunResults.RunExcess` | src/libfreeling/dependencies.cc:323-368 | the heads too many after any number of merges: one for every node covered, less one for every word lost |
| `RunResults.RunKeepsOneHeadIff` | src/libfreeling/dependencies.cc:323-368 | a run keeps all words and one head everywhere if and only if no merge hangs a tree below a leaf or covers a node; where it does only one of these, one head everywhere is enough to tell |
| `RunResults.RunKeepsOrderIff` | src/libfreeling/dependencies.cc:323-368 | a run keeps all words, in order, if and only if every merge is made at the edge between two trees and none hangs a tree below a leaf |
| `SafeLeaves.SafeRunIsInside` | src/libfreeling/dependencies.cc:519-617 | if no rule hangs a tree below a leaf of the partial parse, no run loses a word |
| `Completers.Completer.MatchingOperation` | src/libfreeling/dependencies.cc:592-617 | whether the node that an operation needs exists, in the tree it needs it in; it is remembered under the rule and the chunk |
| `Completers.Completer.FindGrammarRule` | src/libfreeling/dependencies.cc:644-692 | the rule found suits, is the first of those with the least weight, and the node it needs is the one remembered; where none suits it is the one that `DefaultMerges.WithoutRule` is about |
| `DefaultMerges.WithoutRule` | src/libfreeling/dependencies.cc:684-692 | where no rule suits, the left chunk keeps its label and becomes a head, the right one becomes its last child and no head, and no flag changes |
| `DefaultMerges.WithoutRuleFits` | src/libfreeling/dependencies.cc:684-755 | such a merge is never stopped |
| `DefaultMerges.RulesComeFirst` | src/libfreeling/dependencies.cc:337-354 | a pair of chunks with a rule that suits is merged before all without one, if weights are positive |
| `DefaultMerges.LeastWeightIsNext` | src/libfreeling/dependencies.cc:337-354 | the pair merged has the least positive weight, and is the first with it |
| `DefaultMerges.LeastRuleIsBest` | src/libfreeling/dependencies.cc:655-682 | of the rules that suit a pair, that with the least weight is applied |
| `Completers.Completer.ChooseRule` | src/libfreeling/dependencies.cc:337-354 | the pair of chunks merged is the first with the least positive weight, or the first of all if no weight is positive |
| `Completers.Completer.ApplyRule` | src/libfreeling/dependencies.cc:701-807 | flags are switched on and off, and the trees merged |
| `Completers.Completer.MergeOnce` | src/libfreeling/dependencies.cc:337-367 | the merge that comes next is made, and what was remembered is forgotten; fails if and only if it would cover the root of a chunk |
| `Completers.Completer.Complete` | src/libfreeling/dependencies.cc:287-375 | n - 1 merges, each the next one for the trees and flags at that time, lead from the chunks to one tree; it fails if and only if there is no chunk or some run is stopped at a root; what words, order and heads it keeps can be told from the merges of the run |
| `DefaultMerges.CompleteWithoutRules` | src/libfreeling/dependencies.cc:287-375 | without any rules, completing gives the first chunk, marked as head, with all other chunks hung behind its children, in order |
| `CompleterCases.NounIsLost` | src/libfreeling/dependencies.cc:305-318 | two chunks of one word each, and a rule: every run ends in a tree without the first word |
| `CompleterCases.NounVerbRun` | src/libfreeling/dependencies.cc:759-769 | such a run there is |
| `CompleterCases.RootIsCovered` | src/libfreeling/dependencies.cc:785-800 | two chunks and a rule for which the completer stops |
| `CompleterCases.HeadsAreMadeUpFor` | src/libfreeling/dependencies.cc:759-800 | three chunks and two rules: a word is lost, a node is covered, and there is one head everywhere |
| `Dependencies.BuildDependencies` | src/libfreeling/dependencies.cc:1088-1141 | the conversion by loops over siblings gives the tree of the head child with those of the others to its left and right |
| `Dependencies.NodesAreLeaves` | src/libfreeling/dependencies.cc:1088-1141 | the nodes are the words, as often as they are there |
| `DependencyArcs.FirstMarkedIsHead` | src/libfreeling/dependencies.cc:1102-1110 | the head of a phrase is its first child marked as such |
| `DependencyArcs.FirstOfUnmarkedIsHead` | src/libfreeling/dependencies.cc:1102-1110 | it is the first child where none is marked |
| `Projectivity.EachWordIsOneNode` | src/libfreeling/dependencies.cc:1088-1141 | every word becomes exactly one node, and there is no other node |
| `DependencyArcs.MaxProjIsHighest` | src/libfreeling/dependencies.cc:1102-1114 | the maximal projection is the highest of all constituents of which a word is the lexical head |
| `DependencyArcs.DependencyTreeIsGoverned` | src/libfreeling/dependencies.cc:1088-1141 | the root is the lexical head; every other word is governed by the lexical head of what is above its maximal projection, carries the chunk of that projection, and has below it exactly the words of that projection |
| `DependencyArcs.WordsOfSubAreAdjacent` | src/libfreeling/dependencies.cc:1088-1141 | the words of a constituent are adjacent in the sentence |
| `Projectivity.DependencyTreeIsProjective` | src/libfreeling/dependencies.cc:1088-1141 | the words below every word of a dependency tree are adjacent in the sentence |
| `DependencyArcs.LinkIsMaxProjIff` | src/libfreeling/dependencies.cc:1112-1114 | a word is linked to its maximal projection exactly when all constituents in between are marked as heads |
| `DependencyArcs.UnmarkedPhraseIsLinked` | src/libfreeling/dependencies.cc:1112-1114 | a tree whose word is not linked to its maximal projection |
| `DependencyArcs.HeadedIsLinkedToMaxProj` | src/libfreeling/dependencies.cc:1112-1114 | if every constituent has a head child, every word is linked to its maximal projection |
| `DependencyArcs.DependencyTreeIsLinked` | src/libfreeling/dependencies.cc:1088-1141 | then every word of the dependency tree is linked to its maximal projection |
| `DependencyArcs.DependentsAreInOrder` | src/libfreeling/dependencies.cc:1116-1135 | dependents are kept in the order of the sentence |
| `EdgeLists.SortedListIsSorted` | src/libfreeling/csr_kb.cc:63-64 | sorting keeps every edge, as often as it is there |
| `EdgeLists.TargetCount` | src/libfreeling/csr_kb.cc:72-84 | how often a vertex is in a row is how often the edge is in the list |
| `EdgeLists.RowIsSegment` | src/libfreeling/csr_kb.cc:74-81 | in the sorted list, the targets of a vertex are one segment |
| `GraphLines.EdgeCount` | src/libfreeling/csr_kb.cc:38-50 | there are as many edges from one vertex to another as lines that name both, in either order; two edges for each line that names two, and none for others |
| `GraphLines.RowCount` | src/libfreeling/csr_kb.cc:38-85 | the row of a vertex has each target as often as lines name both, in either order |
| `GraphLines.NoneIsolatedIff` | src/libfreeling/csr_kb.cc:38-85 | no vertex is isolated if and only if every name is on some line with another, or with itself |
| `CsrGraph.Csr.AddVertex` | src/libfreeling/csr_kb.cc:99-104 | a vertex gets the next number if it is new; numbers have no gaps and are not shared |
| `CsrGraph.Csr.FillTables` | src/libfreeling/csr_kb.cc:61-85 | the row of each vertex, trailing isolated ones included, is the list of its targets, and its coefficient the share of each |
| `CsrGraph.Csr.Load` | src/libfreeling/csr_kb.cc:34-53 | the vertices are the names of the lines; the edges are as many as `GraphLines.EdgeCount` counts, in the list and in the rows, and the tables represent them |
| `CsrGraph.Csr.RankOf` | src/libfreeling/csr_kb.cc:145-152 | what a vertex gets from its neighbours |
| `CsrGraph.Csr.OneStep` | src/libfreeling/csr_kb.cc:143-158 | the next vector of ranks, and the change measured, which is its distance from the current one |
| `PageRank.ChangeOfOne` | src/libfreeling/csr_kb.cc:153-157 | the change measured for a single vertex is how far its rank moves |
| `CsrGraph.Csr.Iterate` | src/libfreeling/csr_kb.cc:129-163 | with two alternating vectors, the ranks after the first step whose change is below the threshold, or the last allowed |
| `CsrGraph.Csr.Pagerank` | src/libfreeling/csr_kb.cc:128-167 | these ranks replace the given weights |
| `PageRank.EqualIsUnique` | src/libfreeling/csr_kb.cc:133-135 | the ranks to begin with are the only ones that are all the same and add up to 1 |
| `CsrGraph.LoadAndRank` | src/libfreeling/csr_kb.cc:34-167 | the lines of a file are loaded, with all the edges that they name and no others, and the vertices ranked: the total of the ranks is known if every name is on a line with another, and the change shrinks by the damping factor with every step |
| `CsrGraph.TableSharesAreShares` | src/libfreeling/csr_kb.cc:82 | the coefficients make up a whole for every vertex that has edges |
| `PageRank.SortedIsBalanced` | src/libfreeling/csr_kb.cc:43-49 | with every edge listed both ways, sources and targets count the same, in any order of the list |
| `PageRank.GivenTotal` | src/libfreeling/csr_kb.cc:145-152 | all vertices together give away at most what they have, and all of it if none is isolated |
| `PageRank.StepIsContraction` | src/libfreeling/csr_kb.cc:143-158 | a step brings any two vectors of ranks closer by the damping factor |
| `PageRank.ChangeShrinks` | src/libfreeling/csr_kb.cc:140-163 | the change measured in a step is at most the damping factor times that of the step before |
| `PageRank.ChangeIsGeometric` | src/libfreeling/csr_kb.cc:140-163 | so it shrinks at least geometrically |
| `PageRank.TotalOfRanks` | src/libfreeling/csr_kb.cc:128-167 | without isolated vertices, the ranks add up to P + D^k (1 - P) after k steps |
| `PrefTrees.Find` | src/libfreeling/prefTree.cc:113-133 | stepping by two records finds the record of a character, if it is there |
| `PrefTrees.Append` | src/libfreeling/prefTree.cc:71-76 | a record is chained to the end of a list |
| `PrefTrees.Replace` | src/libfreeling/prefTree.cc:78-101 | a record is replaced in its list by one that leads to the same list below; the chain stays whole |
| `PrefTrees.AppendedIsValid` | src/libfreeling/prefTree.cc:64-77 | a new record keeps the tree well linked |
| `PrefTrees.ReplacedIsValid` | src/libfreeling/prefTree.cc:78-101 | making an inner record the end of a word keeps everything below it |
| `PrefTrees.SubMadeIsValid` | src/libfreeling/prefTree.cc:103-108 | a new list below a record keeps the tree well linked |
| `PrefixIndex.PushInner` | src/libfreeling/prefTree.cc:61-111 | continuing a prefix inside a word changes no entry |
| `PrefixIndex.PushEnd` | src/libfreeling/prefTree.cc:61-111 | ending a word makes it one without value, and changes no other entry |
| `Databases.PrefTree.FindWord` | src/libfreeling/prefTree.cc:192-206 | following a word from the root finds its record, if there is one |
| `Databases.PrefTree.AddWord` | src/libfreeling/prefTree.cc:145-190 | data is added to that of a word, or stored for a new one or one deleted before; no other entry changes |
| `Databases.PrefTree.DeleteWord` | src/libfreeling/prefTree.cc:219-224 | a word loses its data; no other entry changes |
| `Databases.Database.AddDatabase` | src/libfreeling/database.cc:101-121 | adding to a key, for both kinds of database |
| `Databases.Database.RemoveDatabase` | src/libfreeling/database.cc:128-144 | removing a key, for both kinds |
| `Databases.Database.ReplaceDatabase` | src/libfreeling/database.cc:152-179 | replacing the data of a key, for both kinds |
| `Databases.Database.AccessDatabase` | src/libfreeling/database.cc:186-214 | what a key is answered with, for both kinds |
| `Databases.Database.Perform` | src/libfreeling/database.cc:101-214 | the answers to any sequence of calls depend only on what was stored, not on what it is kept in |
| `Databases.SameAnswers` | src/libfreeling/database.cc:101-214 | a prefix tree database and a map database give the same answers to every sequence of calls |
| `Locutions.Recognizer.AddLocution` | src/libfreeling/locutions.cc:121-158 | after adding, the prefix set is exactly the beginnings of all multiwords that end with an underscore |
| `Locutions.ViableBefore` | src/libfreeling/locutions.cc:147-157 | whatever continues to a multiword is a beginning of one |
| `Locutions.BeamContinues` | src/libfreeling/locutions.cc:184-252 | continuing only what is in the beam loses nothing |
| `Locutions.Recognizer.Check` | src/libfreeling/locutions.cc:164-177 | multiwords and beginnings of some are kept, others dropped |
| `Locutions.Recognizer.ComputeToken` | src/libfreeling/locutions.cc:184-252 | the next beam is all continuations of this one, by form, lemma or tag, that are multiwords or beginnings of some |
| `LocutionForms.JoinedIff` | src/libfreeling/locutions.cc:184-252 | the ways to write some words are exactly those that choose a form, lemma or tag of each, in order, and join them by underscores |
| `Locutions.EmptyBeamStays` | src/libfreeling/locutions.cc:184-252 | once the beam is empty no longer match exists |
| `Locutions.Recognizer.ScanWord` | src/include/freeling/morfo/automat.h:210-228 | after i words, the beam is all ways to write them that can still match, and the multiwords remembered are those of the longest match so far |
| `Locutions.Recognizer.Matching` | src/include/freeling/morfo/automat.h:193-240 | the longest stretch of words that is a multiword is found, with all multiwords that it is; the words counted beyond it give back its length |
| `Distributions.SharesAreUnique` | src/libfreeling/probabilities.cc:235-237 | dividing by the sum gives the only numbers of sum 1 in the proportions given |
| `Distributions.SmoothedIsDistribution` | src/libfreeling/probabilities.cc:356-372 | counts with a positive constant added, divided by the new total, are a distribution, also when all counts are zero |
| `Distributions.SmoothedIsProportional` | src/libfreeling/probabilities.cc:356-372 | they are the only numbers of sum 1 in proportion to the counts with the constant added |
| `Distributions.MixOfDistributions` | src/libfreeling/probabilities.cc:387-392 | interpolating two distributions gives a distribution |
| `Distributions.UniformIsDistribution` | src/libfreeling/probabilities.cc:226-228 | equal parts of the mass are a distribution |
| `Readings.SortKeeps` | src/libfreeling/probabilities.cc:243 | sorting keeps all readings and their mass, and leaves them by decreasing probability |
| `ReadingOrder.SortsByTag` | src/libfreeling/language.cc:112 | sorting leaves readings of the same probability in the order of their tags |
| `Probabilities.ObservedIsSum` | src/libfreeling/probabilities.cc:290-354 | summing over short tags, times their occurrences, is summing over readings |
| `Probabilities.SuffixedSign` | src/libfreeling/probabilities.cc:404-435 | suffixes never make a probability negative, nor a positive one zero |
| `SuffixWeights.SuffixedIsWeighted` | src/libfreeling/probabilities.cc:404-435 | with n suffixes known, the longest counts 1/(1+theta), each shorter one theta/(1+theta) times as much as the next longer, and the probability given (theta/(1+theta))^n |
| `SuffixWeights.NoSuffixIsKnown` | src/libfreeling/probabilities.cc:404-435 | without a known suffix the probability given stays |
| `SuffixWeights.OneSuffixIsKnown` | src/libfreeling/probabilities.cc:404-435 | with one known suffix, the distance to what it gives is theta times the distance to what was given |
| `SuffixWeights.SomeRun` | src/libfreeling/probabilities.cc:415-425 | every form has such suffixes, or none |
| `Probabilities.BackoffIsDistribution` | src/libfreeling/probabilities.cc:314-395 | backing off to an ambiguity class or to single tags, with suffixes, gives a distribution: the sum that suffix probabilities are divided by is positive |
| `ProbabilityCases.BackoffIsToClass` | src/libfreeling/probabilities.cc:317-345 | a word backs off to the counts of the class of all its short tags, else of those but the proper nouns, else of single tags |
| `Probabilities.SmoothedProbs` | src/libfreeling/probabilities.cc:277-396 | a known word gets a distribution over its readings, for one reading, lexical counts and back-off alike |
| `Probabilities.MassOfGuesses` | src/libfreeling/probabilities.cc:461-488 | the guesses kept and left aside are all tags, and have mass exactly when some tag can be guessed |
| `Probabilities.GuessedMassIsPositive` | src/libfreeling/probabilities.cc:442-498 | after guessing there is mass to share exactly when the word had readings or some tag can be guessed |
| `Probabilities.GuessedMassIsSum` | src/libfreeling/probabilities.cc:226-237 | the sum the guesser returns is the mass of all readings, so dividing by it is normalising |
| `Probabilities.AnnotatedIsDistribution` | src/libfreeling/probabilities.cc:204-257 | a word left with readings has a distribution over them, by decreasing probability, exactly when it is known, or guessed, or had one before |
| `Probabilities.AnnotatedKeepsReadings` | src/libfreeling/probabilities.cc:204-257 | no reading is lost, and only guessing adds any |
| `Assigners.Assigner.ComputeProbability` | src/libfreeling/probabilities.cc:404-435 | the loop over longer and longer suffixes computes that weighted sum over all suffixes known |
| `Assigners.Assigner.CountTags` | src/libfreeling/probabilities.cc:290-296 | the short tags of the readings are counted |
| `Assigners.Assigner.TotalObserved` | src/libfreeling/probabilities.cc:347-354 | the observations of the short tags are summed |
| `Assigners.Assigner.SetSmoothed` | src/libfreeling/probabilities.cc:356-372 | every reading gets its smoothed probability; nothing else of the readings changes |
| `Assigners.Assigner.SuffixProbs` | src/libfreeling/probabilities.cc:378-385 | the probabilities by suffixes, and their sum |
| `Assigners.Assigner.MixSuffixes` | src/libfreeling/probabilities.cc:375-395 | every reading gets its probability interpolated with the one by suffixes |
| `Assigners.Assigner.Smoothing` | src/libfreeling/probabilities.cc:277-396 | the readings of a known word get the distribution specified |
| `Assigners.Assigner.GuessTag` | src/libfreeling/probabilities.cc:462-487 | a tag that no reading has is added to the word if its probability reaches the threshold, and put aside otherwise |
| `Assigners.Assigner.Guesser` | src/libfreeling/probabilities.cc:442-498 | the word has its readings and the likely guesses, or all guesses if that were none; the sum of their mass is returned |
| `Assigners.Assigner.AnnotateWord` | src/libfreeling/probabilities.cc:204-248 | a word gets the readings and probabilities specified |
| `ProbabilityCases.GuessWord` | src/libfreeling/probabilities.cc:204-257 | an unknown word, guessed by one suffix: 0.7 and 0.3 |
| `ProbabilityCases.KnownWord` | src/libfreeling/probabilities.cc:204-396 | a word with counts of its own: 0.6875 and 0.3125 |
| `ProbabilityCases.BackedOffWord` | src/libfreeling/probabilities.cc:204-435 | a word with the counts of its class and one suffix: 163/240 and 77/240 |
| `Strings.PiecesOfJoin` | src/include/freeling/morfo/util.h:170-252 | strings without the separator, joined and cut again, are the same |
| `Strings.JoinOfPieces` | src/include/freeling/morfo/util.h:170-252 | a string that is cut and joined again is the same |
| `Strings.CutOfJoin` | src/include/freeling/morfo/util.h:170-252 | strings are cut again as they were joined exactly when none has the separator, and they are not one empty string |
| `Preferences.OrderedByAlphabet` | src/libfreeling/dictionary.cc:169-177 | strings without preferences among them are totally ordered |
| `Orders.AlphabeticalIff` | src/libfreeling/dictionary.cc:169-177 | one string is before another exactly if they part at a place where the first ends, or has the smaller character |
| `Preferences.PreferenceMayCycle` | src/libfreeling/dictionary.cc:169-177 | one preference against the alphabet leaves three strings that no list has in order |
| `Preferences.SortedIsOrdered` | src/libfreeling/dictionary.cc:169-177 | only strings that the preferences order can be put in order at all |
| `Preferences.SortedOneMore` | src/libfreeling/dictionary.cc:187-200 | after each pass one string more is in its place |
| `Preferences.Bubble` | src/libfreeling/dictionary.cc:188-199 | a pass moves only the strings before its end, and the largest of them to that end |
| `Preferences.SortList` | src/libfreeling/dictionary.cc:183-201 | the bubble sort loses and makes no string, and leaves them sorted if and only if the preferences order the strings |
| `Orders.SortedMeans` | src/libfreeling/dictionary.cc:169-201 | in a sorted list nothing comes after what it is preferred to, and other pairs are in alphabetical order |
| `DictEntries.LemmasAreDistinct` | src/libfreeling/dictionary.cc:211-230 | each lemma is kept once, exactly if it has tags |
| `DictEntries.GroupingKeepsPairs` | src/libfreeling/dictionary.cc:208-247 | grouping by lemma, in any order, loses and makes no pair of lemma and tag |
| `DictEntries.RoundTrip` | src/libfreeling/dictionary.cc:258-433 | entries are read as they were written, in order, if their tags can be read, and else not even in another order |
| `DictEntries.GroupedRoundTrip` | src/libfreeling/dictionary.cc:208-433 | parsing, grouping, writing and reading keep the pairs of an entry exactly when no tag has a bar, or is empty and alone |
| `DictEntries.BarredTagIsLost` | src/libfreeling/dictionary.cc:208-433 | an entry whose tag has a bar, which is read as two tags |
| `EntryText.Collect` | src/libfreeling/dictionary.cc:215-233 | the lemmas by first occurrence, and the tags of each; fails exactly if a lemma has no tag |
| `EntryText.ParseDictEntry` | src/libfreeling/dictionary.cc:208-247 | fails exactly if a lemma has no tag; else groups the pairs, lemmas and tags each in order if and only if the preferences allow one |
| `EntryText.CompactData` | src/libfreeling/dictionary.cc:258-265 | writes the text of entries |
| `EntryText.ReadText` | src/libfreeling/dictionary.cc:407-432 | reading the text by searching for spaces gives its pairs |
| `StoredEntries.CompactOfTwo` | src/libfreeling/dictionary.cc:131 | a form that is loaded twice has the text of both entries |
| `StoredEntries.WithAnalysisAdds` | src/libfreeling/dictionary.cc:314-342 | adding an analysis adds that pair and no other, unless the first entry for the lemma has the tag |
| `InverseIndex.KeyIsInjective` | src/libfreeling/dictionary.cc:137 | keys of different pairs differ, for tags without number signs |
| `InverseIndex.AddKeepsSound` | src/libfreeling/dictionary.cc:134-137 | listing a form for an analysis it has keeps the inverse dictionary sound, and lists nothing else |
| `InverseIndex.FormsAfterUnlist` | src/libfreeling/dictionary.cc:280-290 | taking a form from one list leaves the others as they were |
| `InverseIndex.UnlistedIsSound` | src/libfreeling/dictionary.cc:272-296 | a form may go exactly when it was listed for no other analyses than those it was taken from |
| `Dictionaries.AddToText` | src/libfreeling/dictionary.cc:314-342 | the text gets the analysis in its first entry for the lemma, or in a new one |
| `Dictionaries.Dictionary.SearchForm` | src/libfreeling/dictionary.cc:400-433 | a form is found with all its analyses, in the order of its entries |
| `Dictionaries.Dictionary.LoadEntry` | src/libfreeling/dictionary.cc:117-137 | an entry is grouped, stored after those the form had, and listed for all its pairs |
| `Dictionaries.Dictionary.AddAnalysis` | src/libfreeling/dictionary.cc:302-352 | a form gets an analysis more, keeping all others; it is listed if the form was there already and lacked it |
| `Dictionaries.Dictionary.RemoveEntry` | src/libfreeling/dictionary.cc:272-296 | a form is gone, and no longer listed for the analyses of its lower case; forms in lower case are then listed nowhere |
| `CapitalForms.LoadAndRemove` | src/libfreeling/dictionary.cc:117-296 | a form that differs from its lower case is loaded and removed: it is not in the dictionary, but still listed |
| `CapitalForms.LoadAndRemoveCasa` | src/libfreeling/dictionary.cc:117-296 | such a form: Casa, for the lemma casa |
| `Dictionaries.Dictionary.GetForms` | src/libfreeling/dictionary.cc:359-368 | every form listed for a lemma and a tag has that analysis |
| `Splitting.RunSplits` | src/libfreeling/splitter.cc:152-250 | the sentences and the buffer are all the words in order; every sentence ends at the first word that may end it, and the buffer has no such word |
| `Splitting.SplittingIsUnique` | src/libfreeling/splitter.cc:152-250 | there is no other splitting with these properties |
| `Splitting.RunInTwo` | src/libfreeling/splitter.cc:140-264 | splitting in two calls, with the buffer kept between them, is splitting in one |
| `Splitting.CallsKeepWords` | src/libfreeling/splitter.cc:140-264 | over any sequence of calls, flushed or not, the sentences returned and the buffer are all the words, in order |
| `Splitting.NoMarksWhenAllowed` | src/libfreeling/splitter.cc:161-189 | no marker is ever open when sentences may end between markers |
| `SplitterCases.CountIsOpenSince` | src/libfreeling/splitter.cc:157-213 | the count of words inside markers starts at the first open one |
| `SplitterCases.EndsInsideIff` | src/libfreeling/splitter.cc:193-213 | inside markers a word that may end a sentence does so if and only if there is a limit, and the words from the first open marker on exceed it |
| `SplitterCases.EndsOutside` | src/libfreeling/splitter.cc:193-236 | outside markers it always does |
| `SplitterCases.WhatCloses` | src/libfreeling/splitter.cc:157-189 | a marker is closed by the opposite code, or by the same one if that is above 100; another opening marker is put on top of it |
| `MarkerNesting.NestingKeepsStack` | src/libfreeling/splitter.cc:157-213 | well nested words leave the open markers as they were |
| `MarkerNesting.ParseIsComplete` | src/libfreeling/splitter.cc:157-213 | words that close every open marker can be read as groups |
| `MarkerNesting.NothingOpenIffNested` | src/libfreeling/splitter.cc:157-213 | the stack of open markers is empty exactly after words whose markers are well nested |
| `MarkerNesting.SentenceIsNested` | src/libfreeling/splitter.cc:193-236 | with no limit of words, every sentence that is not flushed has well nested markers |
| `MarkerNesting.CallsGiveNested` | src/libfreeling/splitter.cc:140-264 | with no limit of words, over any sequence of calls, every sentence returned has well nested markers, but for words left over when a call is flushed |
| `Splitters.Splitter.CheckMarkers` | src/libfreeling/splitter.cc:154-213 | the open markers and the count of words after the next word; a sentence may end exactly outside markers or too far inside, and at no marker; the flag for markers is set exactly if one is open |
| `Splitters.Splitter.Take` | src/libfreeling/splitter.cc:152-250 | a word is kept, or ends a sentence |
| `Splitters.Splitter.SplitWords` | src/libfreeling/splitter.cc:140-264 | a call returns the sentences of that splitting and keeps the rest, or returns it too when flushed; an empty buffer has no open markers |
| `SplitterCases.SplitText` | src/libfreeling/splitter.cc:152-264 | a text of nine words whose full stops and question mark end, or do not end, sentences by what follows them |

## Left out

- Loading of grammars, tables, dictionaries and knowledge bases from files, configuration, encodings and locale.
- Floating point: scores, probabilities and ranks are exact reals; minus infinity is a value of its own.
- Regular expressions, word classes and file lists behind conditions: parameters of the rules and tables.
- The match of a forbidden trigram with lemmas and long tags (hmm_tagger.cc:356-424): a parameter that may depend on the sentence around the word.
- The order of equally good elements of a trellis set, which the container decides: new ones come after old ones here, and the results hold for all that is stored.
- The tie order of constituents of equal preference beyond "the first found is kept".
- Context conditions of completer rules (dependencies.cc:447-512): a parameter of the rule.
- `Merging.Merge`: the trees of the completer are values; that their nodes are linked and moved in place is what `Trees.HangChild` is about.
- Rules of the completer with negative weights: its search uses -1 for "none yet".
- Characters with code 0 in keys and data of the prefix tree, which end C strings, and the empty key, which has no record.
- The ownership and lifetime of strings handed to the prefix tree when data is replaced.
- The step from a matched multiword to a new word and its analyses (locutions.cc:299-395).
- Sibling iterators, the flag of empty trees and deletion in tree.h.
- The coefficient of a vertex without edges is infinite in the program and never used; here it is 0.
- Mutexes: one thread at a time.
- `Assigners.Assigner.AnnotateWord`: words with nothing to share, where the program divides zero by zero, are excluded (`Probabilities.GuessedMassIsPositive` says when); the words inside readings that may be retokenized are not visited.
- Whether a word is in the dictionary, a number or punctuation is a property of the word; the ambiguity class of a set of short tags is a function of that set. Which readings are selected after sorting is not modelled.
- `Dictionaries.Dictionary.LoadEntry`: lines without data, and tags that are empty or have bars or number signs, are excluded; `DictEntries.GroupedRoundTrip` covers what becomes of bars and empty tags.
- `Dictionaries.Dictionary.AddAnalysis`: tags that are empty, or have spaces, bars or number signs, are excluded, as in `Dictionaries.Dictionary.LoadEntry`.
- `EntryText.ReadText`: text in which a lemma has no tag, which the dictionary never stores, is excluded.
- The databases of the dictionary are maps here; `Databases.SameAnswers` is why that makes no difference.
- Affixes, contractions and retokenization in the dictionary.
- The warning for very long sentences in the splitter.
- Classifiers, recognizers of dates, numbers and quantities, semantic and phonetic modules.
