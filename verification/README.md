# Verified models of the algorithms vendored under protobuf-3.5.1

The project models the algorithmic code that the repository carries in full: Google Mock's
matching and expectation logic, the PDDM source processor, the header fusion scripts and a
few smaller algorithms. `dafny verify dfyconfig.toml` checks all of it.

Code that updates state is modelled by classes and loops in the shape of the original and
proved against functions on plain values; the properties are proved about those functions.

- **Maximum bipartite matching** (`Bipartite`, `MatchMatrix`, `MaxBipartiteMatch`,
  `UnorderedElements`). `TryAugment` and `Compute` work in place on the arrays of the original.
  Maximality is proved with a closed set of right nodes: each failed search adds what it has
  seen, no later augmentation opens the set, and at the end the set bounds every matching.
  This is also why one pass over the left nodes is enough. On top of it, `UnorderedElementsAre`
  is proved to accept exactly the containers some permutation of which satisfies the matchers.
- **Expectations** (`PrerequisiteGraph`, `Expectations`, `CallLogs`, `MockFunctions`).
  The shortcuts in retirement and in the search for unsatisfied prerequisites are proved equal
  to full walks under stated conditions. `CallLogs` then proves that every run of setting
  expectations and calling mock functions meets these conditions, and `MockFunctions` that the
  code on the heap performs exactly the steps of such runs.
- **PDDM** (`Text`, `PddmSections`, `PddmRoundTrip`, `PddmMacros`, `PddmDefinitions`, `PddmPrinting`,
  `PddmProcess`, `PddmBinding`, `PddmIdempotence`, `PddmEndMacro`, `PddmSourceFile`). Reading and
  printing of sections are functions; the exact condition for the round trip is proved by counting
  directives. The laws of processing and collapsing follow. What definitions and printed expansions
  look like is stated without these functions and proved of them. `PddmSourceFile` has the objects
  and loops of the original. Macro expansion is a parameter: any function of the table of
  definitions and the macro reference, defined or not.
- **Header fusion** (`HeaderFusion`, `Fuser`). The four recursive traversals of the two scripts
  share one model. Missing files are an outcome, not a precondition.
- **Prime tables** (`Primes`), **flags and argv** (`CommandLine`), **identifier words**
  (`IdentifierWords`) and **ZigZag** (`ZigZag`, `BinaryNumbers`).

Where code and documentation disagree, the model follows the code:

- `PrimeTable::GetNextPrime` promises the smallest prime greater than p. The on-the-fly table
  returns -1 for every negative p, since its loop is not entered; the promise is proved to hold
  exactly for p >= 0.
- PDDM processing is idempotent provided that no generated line starts with `//%PDDM`. The condition
  is proved sufficient for every file, and necessary whenever no generated line starts or imports a
  definition. A file that defines a macro to be an end marker and expands it is accepted once only.
- Sequences and prerequisites fix the order in which expectations match
  (`gmock-spec-builders.h`, lines 616-617 and 852-853). A prerequisite can still handle a call after
  its dependent: exactly when the dependent allows no call, so that calling it in excess retires
  nothing, and the prerequisite can be satisfied without having retired on saturation.
- The row/column pre-check would wrongly reject some matrices with more elements than matchers;
  its only caller compares the sizes first, and the exact condition is proved.

## Model

| member | source | states |
|---|---|---|
| MaxBipartiteMatch.MaxBipartiteMatchState.Compute | protobuf-3.5.1/gmock/src/gmock-matchers.cc:207-238 | the result is a matching of the graph, listed by rising left node without repeats, and no matching of the graph has more pairs; every left node is still free when its turn comes, so the check in the loop never fails |
| MaxBipartiteMatch.MaxBipartiteMatchState.TryAugment | protobuf-3.5.1/gmock/src/gmock-matchers.cc:254-298 | failure changes neither side and leaves a search that has run dry; success leaves exactly the arrays obtained by pushing flow along an augmenting path of nodes not seen before, stale right entry of the start node included; terminates because each recursion follows a newly seen right node |
| MaxBipartiteMatch.MaxBipartiteMatchState.constructor | protobuf-3.5.1/gmock/src/gmock-matchers.cc:200-204 | starts with both sides unused and mutually referent |
| MaxBipartiteMatch.SinglePassAdvances | protobuf-3.5.1/gmock/src/gmock-matchers.cc:210-222 | a successful search keeps every earlier failed left node exhausted by the same closed set, and later left nodes free |
| MaxBipartiteMatch.DrySearchExtends | protobuf-3.5.1/gmock/src/gmock-matchers.cc:217-222 | a failed search adds what it has seen to the closed set, which then covers its start node too |
| MaxBipartiteMatch.DrySearchMeansNoPath | protobuf-3.5.1/gmock/src/gmock-matchers.cc:243-253 | when the search fails, no augmenting path from its start node exists |
| MaxBipartiteMatch.LinkedIsMatching | protobuf-3.5.1/gmock/src/gmock-matchers.cc:231-237 | the pairs read off the left side are a matching with one pair for each node that has a partner |
| Bipartite.FlipRelinks | protobuf-3.5.1/gmock/src/gmock-matchers.cc:254-298 | the invariant half way through the unwinding: all links mutually refer except the right node that still names the start node; who is linked changes only at the start node and at the end of the path |
| Bipartite.FlipKeepsMatching | protobuf-3.5.1/gmock/src/gmock-matchers.cc:300-312 | augmenting from a free left node makes the two sides mutually referent again, newly links exactly that node and one right node, and frees nobody |
| Bipartite.FailedStaysFailed | protobuf-3.5.1/gmock/src/gmock-matchers.cc:213-222 | a left node whose search has failed has no augmenting path, and has none after any later augmentation |
| Bipartite.FlipKeepsClosed | protobuf-3.5.1/gmock/src/gmock-matchers.cc:215-217 | an augmentation from a free left node does not open a closed set of right nodes |
| Bipartite.PathAvoidsClosed | protobuf-3.5.1/gmock/src/gmock-matchers.cc:213-217 | no augmenting path, from any node, enters a closed set of right nodes |
| Bipartite.CoverBoundsMatchings | protobuf-3.5.1/gmock/src/gmock-matchers.cc:207-222 | if every unlinked left node is exhausted by a closed set, no matching at all is larger than the number of linked left nodes |
| MatchMatrices.MatchMatrix.SpaceIndex | protobuf-3.5.1/gmock/include/gmock/gmock-matchers.h:3042-3044 | the index lies in the matrix and is the place of the cell in row-major order |
| MatchMatrices.MatchMatrix.HasEdge | protobuf-3.5.1/gmock/include/gmock/gmock-matchers.h:3026-3028 | reads the edge of the graph that the cells stand for |
| MatchMatrices.MatchMatrix.SetEdge | protobuf-3.5.1/gmock/include/gmock/gmock-matchers.h:3029-3031 | changes this cell and no other |
| MatchMatrices.MatchMatrix.NextGraph | protobuf-3.5.1/gmock/src/gmock-matchers.cc:359-371 | adds one to the number the cells spell, modulo its range, and returns false exactly when the matrix is left empty |
| MatchMatrices.MatchMatrix.VisitAllGraphs | protobuf-3.5.1/gmock/test/gmock-matchers_test.cc:4822-4844 | iterating from the empty matrix meets every matrix of the shape exactly once and ends with the empty one |
| MatchMatrices.ToGraph | protobuf-3.5.1/gmock/include/gmock/gmock-matchers.h:3012-3015 | the cell of an element and a matcher is the edge between them |
| BinaryNumbers.Carry | protobuf-3.5.1/gmock/src/gmock-matchers.cc:362-367 | clearing leading ones and setting the next zero adds one; clearing all ones is the wrap to zero |
| BinaryNumbers.LittleEndianInjective | protobuf-3.5.1/gmock/include/gmock/gmock-matchers.h:3033-3035 | matrices of one shape with the same number are the same matrix |
| UnorderedElements.FindMaxBipartiteMatching | protobuf-3.5.1/gmock/src/gmock-matchers.cc:319-322 | returns a matching that no other matching outnumbers |
| UnorderedElements.FindPairing | protobuf-3.5.1/gmock/src/gmock-matchers.cc:337-357 | true exactly when the matchers can be given distinct elements that satisfy them |
| UnorderedElements.VerifyAllElementsAndMatchersAreMatched | protobuf-3.5.1/gmock/src/gmock-matchers.cc:443-495 | true exactly when no row and no column of the matrix is empty |
| UnorderedElements.PreCheckIsSafeIffNoExtraElements | protobuf-3.5.1/gmock/include/gmock/gmock-matchers.h:3159-3161 | the pre-check never rejects a pairable matrix of a given shape if and only if the shape has no more elements than matchers |
| UnorderedElements.PairingCovers | protobuf-3.5.1/gmock/include/gmock/gmock-matchers.h:3159-3161 | on equal sizes the pre-check accepts every matrix that FindPairing accepts |
| UnorderedElements.AnalyzeElements | protobuf-3.5.1/gmock/include/gmock/gmock-matchers.h:3167-3191 | the edge between an element and a matcher is the verdict of that matcher on that element |
| UnorderedElements.FillMatrix | protobuf-3.5.1/gmock/include/gmock/gmock-matchers.h:3184-3189 | verdicts consumed in loop order land in the cells in row-major order |
| UnorderedElements.CollectVerdicts | protobuf-3.5.1/gmock/include/gmock/gmock-matchers.h:3172-3181 | the verdicts come element by element, matcher by matcher |
| UnorderedElements.VerdictAt | protobuf-3.5.1/gmock/include/gmock/gmock-matchers.h:3178-3180 | where in that list the verdict of a matcher on an element stands |
| UnorderedElements.MatchAndExplain | protobuf-3.5.1/gmock/include/gmock/gmock-matchers.h:3135-3162 | true exactly when some permutation of the elements satisfies the matchers one by one |
| UnorderedElements.PairingIsPermutation | protobuf-3.5.1/gmock/include/gmock/gmock-matchers.h:3144-3161 | for equal sizes a pairing exists exactly when such a permutation exists |
| UnorderedElements.FullMatchingIsPairing | protobuf-3.5.1/gmock/src/gmock-matchers.cc:331-334 | a matching as large as the matcher side gives every matcher an element of its own |
| UnorderedElements.PairingIsMatching | protobuf-3.5.1/gmock/src/gmock-matchers.cc:331-334 | a pairing is a matching as large as the matcher side |
| PrerequisiteGraphs.Dag.NearestIffWay | protobuf-3.5.1/gmock/src/gmock-spec-builders.cc:129-147 | the walk reports exactly the unsatisfied prerequisites that a way of prerequisites leads to on which all others are satisfied and, with the shortcut, uncalled |
| PrerequisiteGraphs.Dag.DownClosedHoldsClosure | protobuf-3.5.1/gmock/src/gmock-spec-builders.cc:97-101 | in a down-closed set of retired expectations a retired one has all its transitive prerequisites retired, which is why the early return loses nothing |
| PrerequisiteGraphs.Dag.DownClosedAdd | protobuf-3.5.1/gmock/src/gmock-spec-builders.cc:95-111 | retiring the transitive prerequisites, with or without the expectation, keeps the retired set down-closed |
| PrerequisiteGraphs.Dag.ShortcutFindsTheSame | protobuf-3.5.1/gmock/src/gmock-spec-builders.cc:134-139 | if a satisfied, called expectation has all below it satisfied, the walk that stops there finds what the full walk finds |
| PrerequisiteGraphs.Dag.ShortcutDecides | protobuf-3.5.1/gmock/src/gmock-spec-builders.cc:115-147 | under that condition the walk finds nothing exactly when all transitive prerequisites are satisfied, and only unsatisfied transitive prerequisites |
| PrerequisiteGraphs.Dag.NearestIsSound | protobuf-3.5.1/gmock/src/gmock-spec-builders.cc:129-147 | everything the walk finds is an unsatisfied transitive prerequisite, with or without the condition |
| PrerequisiteGraphs.Dag.FullWalkIsComplete | protobuf-3.5.1/gmock/src/gmock-spec-builders.cc:129-147 | the walk without the shortcut finds nothing exactly when all transitive prerequisites are satisfied |
| PrerequisiteGraphs.ShortcutCanMiss | protobuf-3.5.1/gmock/src/gmock-spec-builders.cc:134-139 | without the condition the walk can find nothing although a transitive prerequisite is unsatisfied |
| PrerequisiteGraphs.Dag.ExtendIsAcyclic | protobuf-3.5.1/gmock/src/gmock-spec-builders.cc:784-792 | giving a new expectation older prerequisites keeps the graph acyclic and all other transitive prerequisites as they were |
| PrerequisiteGraphs.Dag.ClosureHasLowerRank | protobuf-3.5.1/gmock/src/gmock-spec-builders.cc:784-792 | the transitive prerequisites of an expectation are older than it, so it is not its own prerequisite |
| PrerequisiteGraphs.Dag.ClosureTransitive | protobuf-3.5.1/gmock/src/gmock-spec-builders.cc:95-111 | prerequisites of prerequisites are prerequisites |
| Expectations.Cardinality.Between | protobuf-3.5.1/gmock/src/gmock-cardinalities.cc:52-54 | each bound kept is the given one where that makes sense: a negative minimum counts as 0 and a maximum below the minimum as the minimum |
| Expectations.ExpectationBase.RetireAllPreRequisites | protobuf-3.5.1/gmock/src/gmock-spec-builders.cc:95-111 | retires exactly the transitive prerequisites, as a full walk would, and keeps the retired set down-closed |
| Expectations.ExpectationBase.RetireWithPreRequisites | protobuf-3.5.1/gmock/src/gmock-spec-builders.cc:105-109 | retires a prerequisite and all below it, the skip of one already retired included |
| Expectations.ExpectationBase.AllPrerequisitesAreSatisfied | protobuf-3.5.1/gmock/src/gmock-spec-builders.cc:115-126 | true exactly when every transitive prerequisite is satisfied |
| Expectations.ExpectationBase.FindUnsatisfiedPrerequisites | protobuf-3.5.1/gmock/src/gmock-spec-builders.cc:129-147 | adds to the result exactly the nearest unsatisfied prerequisites of the walk with the shortcut |
| Expectations.ExpectationBase.FindUnsatisfiedFrom | protobuf-3.5.1/gmock/src/gmock-spec-builders.cc:134-145 | what one immediate prerequisite contributes |
| Expectations.ExpectationBase.GetActionForArguments | protobuf-3.5.1/gmock/include/gmock/gmock-spec-builders.h:1188-1218 | counts the call; it is excessive if the count had reached the maximum; an excessive one retires nothing, any other retires exactly the transitive prerequisites, and the expectation too if it asked for that and is saturated |
| Expectations.ExpectationBase.RetireIfSaturated | protobuf-3.5.1/gmock/include/gmock/gmock-spec-builders.h:1211-1213 | retires the expectation if and only if it asked for that and is saturated |
| Expectations.ExpectationSet.Add | protobuf-3.5.1/gmock/include/gmock/gmock-spec-builders.h:601-604 | the set grows by this expectation |
| CallLogs.RetireesAre | protobuf-3.5.1/gmock/include/gmock/gmock-spec-builders.h:1188-1213 | who is retired after a run, exactly: those below an expectation that has handled a call that was not excessive, and those that retire on saturation and have been called as often as they allow |
| CallLogs.AcceptedUpToMax | protobuf-3.5.1/gmock/include/gmock/gmock-spec-builders.h:1195-1208 | over every run the calls of an expectation that are not excessive are its first ones, as many as its maximum allows |
| CallLogs.RetiresItselfAtMax | protobuf-3.5.1/gmock/include/gmock/gmock-spec-builders.h:1211-1213 | its own call retires an expectation exactly if it retires on saturation and the call is its last allowed one |
| CallLogs.CallsRespectTheOrder | protobuf-3.5.1/gmock/include/gmock/gmock-spec-builders.h:616-617 | over every run: an expectation handles a call only after all its transitive prerequisites are satisfied, and none of them handles a call after it, but for those that may come back |
| CallLogs.ComesBackIff | protobuf-3.5.1/gmock/include/gmock/gmock-spec-builders.h:1195-1213 | exactly when some run lets a prerequisite handle a call after its dependent: the dependent allows no call, and the prerequisite can be satisfied without having retired on saturation |
| CallLogs.RetireesAreDownClosed | protobuf-3.5.1/gmock/src/gmock-spec-builders.cc:97-101 | over every run the retired expectations are down-closed, which is the comment that justifies the early return |
| CallLogs.UnsatisfiedAreFound | protobuf-3.5.1/gmock/src/gmock-spec-builders.cc:129-147 | over every run the search for unsatisfied prerequisites, shortcut included, finds something exactly when a transitive prerequisite is unsatisfied |
| CallLogs.RunIsSettled | protobuf-3.5.1/gmock/src/gmock-spec-builders.cc:135-136 | over every run all below a satisfied, called expectation is satisfied |
| CallLogs.RunIsReachable | protobuf-3.5.1/gmock/include/gmock/gmock-spec-builders.h:1188-1218 | the invariant of all runs: order of the log, settled prerequisites, down-closed retirement, retirement on saturation |
| CallLogs.CallStaysReachable | protobuf-3.5.1/gmock/include/gmock/gmock-spec-builders.h:1188-1218 | handling one call keeps that invariant, whichever retirement it causes |
| CallLogs.NewExpectationStaysReachable | protobuf-3.5.1/gmock/include/gmock/gmock-spec-builders.h:1545-1564 | setting one more expectation keeps that invariant |
| CallLogs.PrerequisitesFirstAt | protobuf-3.5.1/gmock/include/gmock/gmock-spec-builders.h:1101 | at any point of an ordered log the prerequisites of the handler are satisfied by the calls before |
| CallLogs.NeverBackAt | protobuf-3.5.1/gmock/src/gmock-spec-builders.cc:95-111 | in such a log no prerequisite of an earlier handler comes later, but for those that may come back |
| MockFunctions.Sequence.AddExpectation | protobuf-3.5.1/gmock/src/gmock-spec-builders.cc:784-792 | appends the expectation to the sequence unless it is its last already, with the former last as a new prerequisite |
| MockFunctions.Mocks.InSequence | protobuf-3.5.1/gmock/include/gmock/gmock-spec-builders.h:936-945 | one more sequence keeps all sequences in line: each member has the one before it as a prerequisite |
| MockFunctions.Mocks.AddToSequences | protobuf-3.5.1/gmock/include/gmock/gmock-spec-builders.h:936-961 | for any list of sequences, repeats included, the prerequisites gained are the last members of those sequences, and each gains the expectation once |
| MockFunctions.Mocks.After | protobuf-3.5.1/gmock/include/gmock/gmock-spec-builders.h:963-976 | the named expectations become prerequisites and the sequences stay in line |
| MockFunctions.Mocks.ExpectCall | protobuf-3.5.1/gmock/include/gmock/gmock-spec-builders.h:1545-1564 | a new expectation carries the given cardinality, matcher and retirement flag, is the newest of its function, is put in the given sequences and no others, and depends on existing expectations only; the heap is in the state the run leads to |
| MockFunctions.Mocks.Register | protobuf-3.5.1/gmock/include/gmock/gmock-spec-builders.h:1552-1554 | the expectation becomes the newest of its mock function |
| MockFunctions.Mocks.ShouldHandleArguments | protobuf-3.5.1/gmock/include/gmock/gmock-spec-builders.h:1092-1102 | true exactly when the expectation is active, has all transitive prerequisites satisfied and matches |
| MockFunctions.Mocks.FindMatchingExpectationLocked | protobuf-3.5.1/gmock/include/gmock/gmock-spec-builders.h:1658-1672 | the newest expectation of the function that may handle the call, or none |
| MockFunctions.Mocks.Invoke | protobuf-3.5.1/gmock/include/gmock/gmock-spec-builders.h:1623-1647 | a call is one step of the run, handled by that expectation, or changes nothing; it is excessive exactly when the expectation has handled its maximum of calls before |
| MockFunctions.Mocks.HandleCall | protobuf-3.5.1/gmock/include/gmock/gmock-spec-builders.h:1634-1646 | the heap after the call is the state after the step of the run |
| MockFunctions.TakeCall | protobuf-3.5.1/gmock/include/gmock/gmock-spec-builders.h:1188-1218 | counts and retirements on the heap are those of the step |
| MockFunctions.FindUnsatisfied | protobuf-3.5.1/gmock/include/gmock/gmock-spec-builders.h:1128-1134 | in every state of a run the search on the heap reports something exactly when a transitive prerequisite is unsatisfied, and only such prerequisites |
| MockFunctions.Mocks.ExplainMatchResult | protobuf-3.5.1/gmock/include/gmock/gmock-spec-builders.h:1106-1148 | which of the four explanations is given, each exactly in its case; missing prerequisites are reported only if there are some, and a call is said to match only if the expectation may handle it |
| MockFunctions.NewestIsLast | protobuf-3.5.1/gmock/include/gmock/gmock-spec-builders.h:1658-1672 | the expectation found is one that may handle the call and no later one may; if none is found, none may |
| MockFunctions.EarlierMembersArePrerequisites | protobuf-3.5.1/gmock/src/gmock-spec-builders.cc:784-792 | all earlier members of a sequence are transitive prerequisites of a later one |
| PddmRoundTrip.ReadsBackIffClean | protobuf-3.5.1/objectivec/DevTools/pddm.py:447-507 | printed sections read back as the same sections if and only if no expansion contains a line that starts like a directive |
| PddmRoundTrip.CleanReadsBack | protobuf-3.5.1/objectivec/DevTools/pddm.py:571-587 | the direction of the above that processing relies on |
| PddmRoundTrip.CanonicalIffParsed | protobuf-3.5.1/objectivec/DevTools/pddm.py:571-603 | which section lists reading can yield: an exact characterisation |
| PddmRoundTrip.ParseIsCanonical | protobuf-3.5.1/objectivec/DevTools/pddm.py:571-603 | every parsed file is such a list |
| PddmRoundTrip.ParseKeepsDirectives | protobuf-3.5.1/objectivec/DevTools/pddm.py:438-553 | the sections account for every directive line of the file, none lost and none made up |
| PddmRoundTrip.PrintWeight | protobuf-3.5.1/objectivec/DevTools/pddm.py:475-507 | a printed file has at least the directives of its sections, and exactly those only if no expansion contains one |
| PddmRoundTrip.CollapsePrints | protobuf-3.5.1/objectivec/DevTools/pddm.py:605-611 | without a macro collection printing never fails |
| PddmRoundTrip.EndMarkerEnds | protobuf-3.5.1/objectivec/DevTools/pddm.py:499-505 | the end marker, whatever the macro, is read as the end of the expansion |
| PddmProcess.ProcessedIsResult | protobuf-3.5.1/objectivec/DevTools/pddm.py:605-618 | the processed content is the sections of the content, each printed as described above, with the macros that all its sections define |
| PddmProcess.ProcessIsIdempotent | protobuf-3.5.1/objectivec/DevTools/pddm.py:605-618 | processing the processed content changes nothing, for every file and every macro collection, if no generated line starts like a directive |
| PddmProcess.CollapseAbsorbsProcess | protobuf-3.5.1/objectivec/DevTools/pddm.py:605-618 | collapsing a processed file gives what collapsing the original gives, under the same condition |
| PddmProcess.ProcessAbsorbsCollapse | protobuf-3.5.1/objectivec/DevTools/pddm.py:605-618 | processing, or collapsing, a collapsed file gives what it gives on the original, errors included and without any condition |
| PddmProcess.ProcessedReadsBack | protobuf-3.5.1/objectivec/DevTools/pddm.py:571-618 | a collapsed file, and under that condition a processed one, has the sections of the original |
| PddmProcess.ProcessedLines | protobuf-3.5.1/objectivec/DevTools/pddm.py:434-436 | splitting the written content gives back the printed lines |
| PddmIdempotence.IdempotentIffClean | protobuf-3.5.1/objectivec/DevTools/pddm.py:605-618 | if no generated line starts or imports a definition, processing again changes nothing exactly when no generated line looks like a directive at all |
| PddmIdempotence.PrintedAgain | protobuf-3.5.1/objectivec/DevTools/pddm.py:472-507 | printing, reading and printing again gives the same lines exactly when no expansion contains a line that starts like a directive |
| PddmIdempotence.ProcessKeepsAuthored | protobuf-3.5.1/objectivec/DevTools/pddm.py:438-507 | all lines outside of generated code, and the EXPAND lines, are kept verbatim and in order, and no other line joins them, under the same condition or when collapsing |
| PddmIdempotence.ParseKeepsAuthored | protobuf-3.5.1/objectivec/DevTools/pddm.py:438-553 | reading keeps exactly those lines |
| PddmIdempotence.ParseCapturesExpands | protobuf-3.5.1/objectivec/DevTools/pddm.py:454-460 | every EXPAND line of a file that parses ends up in an expansion, even one inside generated code |
| PddmIdempotence.ReadKeepsDefinitions | protobuf-3.5.1/objectivec/DevTools/pddm.py:571-587 | if no generated line starts or imports a definition, a processed file that is accepted has the definitions and imports of the original, in order, however its expansions are read |
| PddmIdempotence.BindSeesDefinitions | protobuf-3.5.1/objectivec/DevTools/pddm.py:612-614 | the table depends on the definitions and imports of a file only |
| PddmEndMacro.UncleanFileBreaks | protobuf-3.5.1/objectivec/DevTools/pddm.py:454-467 | without the condition the law fails: a file that expands a macro and defines its body to be an end marker is processed once and then rejected |
| PddmPrinting.ExpansionIsPrinted | protobuf-3.5.1/objectivec/DevTools/pddm.py:475-507 | what is printed for an expansion: for each EXPAND line that line, the notice, an empty line and the lines of the text its reference expands to, in order and without trailing white space, and at last the end marker; or some reference does not expand |
| PddmPrinting.EndMarkerIsEnd | protobuf-3.5.1/objectivec/DevTools/pddm.py:499-505 | the end marker names the single reference, or the number of expansions in decimal |
| PddmPrinting.NatToStringIsNumeral | protobuf-3.5.1/objectivec/DevTools/pddm.py:504-505 | that number is written in decimal without leading zeros |
| PddmPrinting.PrintIsPrinted | protobuf-3.5.1/objectivec/DevTools/pddm.py:615-618 | a file is printed section by section, every other section as its own lines |
| PddmDefinitions.DefineLineIff | protobuf-3.5.1/objectivec/DevTools/pddm.py:235-258 | a DEFINE line is accepted exactly if it is a name and, in parentheses, distinct words between commas, with any white space around each; it yields these words in this order |
| PddmDefinitions.InsideIff | protobuf-3.5.1/objectivec/DevTools/pddm.py:243-258 | the part of that about the parentheses |
| PddmDefinitions.AcceptedIff | protobuf-3.5.1/objectivec/DevTools/pddm.py:204-233 | which lines are accepted in a block of definitions, exactly |
| PddmDefinitions.DefinitionsAreRead | protobuf-3.5.1/objectivec/DevTools/pddm.py:195-233 | definitions of new macros, one after the other, ended or not, each enter a macro with its arguments in order and the lines of its body |
| PddmBinding.DefinitionsAreOneSection | protobuf-3.5.1/objectivec/DevTools/pddm.py:509-523 | a file of such definitions, each line after its prefix, is read as one section |
| PddmBinding.DefinitionsAreBound | protobuf-3.5.1/objectivec/DevTools/pddm.py:525-533 | that section binds exactly these macros |
| PddmBinding.ImportBindsFile | protobuf-3.5.1/objectivec/DevTools/pddm.py:549-567 | an import binds what the sections of the file with the name on its line bind |
| PddmBinding.ImportNeedsFile | protobuf-3.5.1/objectivec/DevTools/pddm.py:556-569 | an import fails if there is no such file or it cannot be read |
| PddmBinding.BindAppend | protobuf-3.5.1/objectivec/DevTools/pddm.py:613-614 | the sections are bound in order, each on top of those before |
| PddmSourceFile.SectionObject.TryAppend | protobuf-3.5.1/objectivec/DevTools/pddm.py:438-553 | each kind of section takes, refuses or rejects a line as specified, and changes only when it takes it |
| PddmSourceFile.StepIsParse | protobuf-3.5.1/objectivec/DevTools/pddm.py:575-584 | one round of the reading loop is one step of the recursive description of reading |
| PddmSourceFile.SourceFile.MakeSection | protobuf-3.5.1/objectivec/DevTools/pddm.py:589-603 | the kind of section a line starts, or the error |
| PddmSourceFile.SourceFile.ReadLine | protobuf-3.5.1/objectivec/DevTools/pddm.py:575-584 | the section objects after a line are those of the step |
| PddmSourceFile.SourceFile.ParseFile | protobuf-3.5.1/objectivec/DevTools/pddm.py:571-587 | the loop yields the sections of the recursive description, or its error |
| PddmSourceFile.SourceFile.SectionText | protobuf-3.5.1/objectivec/DevTools/pddm.py:434-436 | the text of a section, its joined blocks included, is its printed lines each ended by a line break |
| PddmSourceFile.SourceFile.BindSections | protobuf-3.5.1/objectivec/DevTools/pddm.py:612-614 | all definitions, imported ones included, are in the table before anything is expanded |
| PddmSourceFile.SourceFile.BindImported | protobuf-3.5.1/objectivec/DevTools/pddm.py:549-569 | an import adds the definitions of the imported file, and its failures count as failures of the import |
| PddmSourceFile.SourceFile.PrintAll | protobuf-3.5.1/objectivec/DevTools/pddm.py:615-618 | the sections are written in order, or the first failing expansion is the error |
| PddmSourceFile.SourceFile.ProcessContent | protobuf-3.5.1/objectivec/DevTools/pddm.py:605-618 | the processed content, or the error, is that of the functions the laws are about |
| PddmMacros.MacroDefinition.AppendLine | protobuf-3.5.1/objectivec/DevTools/pddm.py:165-169 | the body is the lines so far with a line break between any two |
| PddmMacros.MacroCollection.ParseLines | protobuf-3.5.1/objectivec/DevTools/pddm.py:195-233 | the table after the loop is that of the definitions, or the lines are rejected |
| PddmMacros.DefinitionsAreKept | protobuf-3.5.1/objectivec/DevTools/pddm.py:206-210 | no macro is ever redefined or lost |
| PddmMacros.BlocksMayBeSplit | protobuf-3.5.1/objectivec/DevTools/pddm.py:51-57 | several macros in one block mean the same as one block each |
| Text.StripIff | protobuf-3.5.1/objectivec/DevTools/pddm.py:480-491 | stripping removes exactly the white space around a text |
| Text.SplitBreaksJoins | protobuf-3.5.1/objectivec/DevTools/pddm.py:491 | the pieces between line breaks, joined, are the text |
| Text.SplitUnlines | protobuf-3.5.1/objectivec/DevTools/pddm.py:434-436 | splitting undoes ending every line with a break |
| Fuser.FusedLinesAreDealtWith | protobuf-3.5.1/gmock/scripts/fuse_gmock_files.py:134-153 | of every line of a fused file, by its include and its text alone: the file it includes has been fused too, or the include of the fused header stands in the output, or the line itself does, unchanged |
| Fuser.Fuse | protobuf-3.5.1/gmock/scripts/fuse_gmock_files.py:119-156 | terminates on every include graph, cycles included; succeeds exactly when all reachable files exist; then the files processed are exactly the reachable ones, each ordinary line of each is written exactly once, in file order, the fused include at most once, and what a file includes is written before it is used unless the two include each other |
| Fuser.Fuser.ProcessFile | protobuf-3.5.1/gmock/scripts/fuse_gmock_files.py:125-153 | the recursion keeps all of that while files are open, adds only what the path leads to and fails only if a file it leads to is missing |
| Fuser.Fuser.ProcessLine | protobuf-3.5.1/gmock/scripts/fuse_gmock_files.py:134-153 | one line keeps it, whichever of the four cases applies |
| Fuser.Fuser.WriteOnce | protobuf-3.5.1/gmock/scripts/fuse_gmock_files.py:144-150 | the include of the fused header is written once and noted under the name of its seed |
| Fuser.Fuser.InlineFile | protobuf-3.5.1/gmock/scripts/fuse_gmock_files.py:136-139 | the recursive call for an include |
| Fuser.SettledIsFused | protobuf-3.5.1/gmock/scripts/fuse_gmock_files.py:155-156 | a traversal with no file left open has fused the tree |
| Fuser.IncludedIsUsable | protobuf-3.5.1/gmock/scripts/fuse_gmock_files.py:134-139 | all that the files included so far lead to is written, unless they lead back |
| Fuser.OnceKeepsGood | protobuf-3.5.1/gmock/scripts/fuse_gmock_files.py:176-182 | noting an include in the set of processed files disturbs no file |
| HeaderFusion.ActionsAreRight | protobuf-3.5.1/gmock/scripts/fuse_gmock_files.py:136-153 | a line is inlined, replaced, copied unchanged or left out just as its include and the mode call for |
| HeaderFusion.LinesAreSorted | protobuf-3.5.1/gmock/gtest/scripts/fuse_gtest_files.py:189-211 | each line is of exactly one sort, and only the gtest includes in the sources of gmock have no effect |
| HeaderFusion.TokensAreNotInlined | protobuf-3.5.1/gmock/gtest/scripts/fuse_gtest_files.py:189-208 | the names noted for includes written once are never names of files to inline, in any of the four traversals, so the one set can hold both |
| HeaderFusion.Tree.ClosedHoldsReachable | protobuf-3.5.1/gmock/scripts/fuse_gmock_files.py:125-139 | a set closed under inclusion holds all that is reachable from its members |
| Primes.PrimeAbove | protobuf-3.5.1/gmock/gtest/samples/prime_tables.h:69-75 | there is a prime above any number, so the search ends |
| Primes.PrimeDivisor | protobuf-3.5.1/gmock/gtest/samples/prime_tables.h:58-67 | every number from 2 on has a prime divisor |
| Primes.OnTheFlyPrimeTable.IsPrime | protobuf-3.5.1/gmock/gtest/samples/prime_tables.h:58-67 | trial division up to the square root decides primality |
| Primes.OnTheFlyPrimeTable.GetNextPrime | protobuf-3.5.1/gmock/gtest/samples/prime_tables.h:69-75 | terminates; returns the smallest prime above p if and only if p is not negative, and -1 otherwise |
| Primes.PreCalculatedPrimeTable.CalculatePrimesUpTo | protobuf-3.5.1/gmock/gtest/samples/prime_tables.h:102-114 | the sieve marks a number exactly when it is prime |
| Primes.PreCalculatedPrimeTable.MarkMultiples | protobuf-3.5.1/gmock/gtest/samples/prime_tables.h:109-112 | clearing multiples of i removes exactly the numbers with i as a proper divisor |
| Primes.PreCalculatedPrimeTable.constructor | protobuf-3.5.1/gmock/gtest/samples/prime_tables.h:83-86 | the table is right for all numbers up to its maximum |
| Primes.PreCalculatedPrimeTable.IsPrime | protobuf-3.5.1/gmock/gtest/samples/prime_tables.h:89-91 | true exactly for the primes within the table |
| Primes.PreCalculatedPrimeTable.GetNextPrime | protobuf-3.5.1/gmock/gtest/samples/prime_tables.h:93-99 | the smallest prime above p if the table holds one, else -1 |
| Primes.TablesAgree | protobuf-3.5.1/gmock/gtest/samples/prime_tables.h:50-52 | the two tables give the same next prime up to the capacity of the second, which gives -1 beyond |
| Primes.CompositeAddsNothing | protobuf-3.5.1/gmock/gtest/samples/prime_tables.h:107 | skipping a number already cleared changes nothing |
| Primes.NoSmallDivisor | protobuf-3.5.1/gmock/gtest/samples/prime_tables.h:61 | a number without divisors up to its square root is prime |
| Primes.IsPrime | protobuf-3.5.1/gmock/gtest/samples/sample1.cc:47-68 | trial division by 2 and odd numbers up to the square root decides primality |
| CommandLine.FlagValueIff | protobuf-3.5.1/gmock/src/gmock.cc:58-84 | a string gives a flag a value exactly if it is the prefix, the name, an equals sign and the value, or, where that is allowed, prefix and name alone for the empty value |
| CommandLine.KeptIsSifted | protobuf-3.5.1/gmock/src/gmock.cc:131-155 | what is kept are the arguments at exactly the positions of those that are no flags, in order |
| CommandLine.LastValues | protobuf-3.5.1/gmock/src/gmock.cc:136-138 | each flag ends with the value of the last string that sets it; the bool flag is false just if that value starts with 0, f or F |
| CommandLine.InitGoogleMockImpl | protobuf-3.5.1/gmock/src/gmock.cc:127-157 | argv keeps its first argument and otherwise exactly the arguments that are no strings of the two flags, in order, with the null at the new count; each flag has the value that the last such string gives it, or the one it had; entries beyond are untouched |
| CommandLine.VisitArg | protobuf-3.5.1/gmock/src/gmock.cc:131-155 | one round of the loop: a flag is taken out and the index steps back, any other argument is kept |
| CommandLine.ShiftLeft | protobuf-3.5.1/gmock/src/gmock.cc:143-145 | moves the rest of argv, the null included, one place down |
| CommandLine.ParseBoolFlag | protobuf-3.5.1/gmock/src/gmock.cc:91-102 | on success the flag holds the value, on failure it is unchanged |
| CommandLine.ParseStringFlag | protobuf-3.5.1/gmock/src/gmock.cc:109-120 | on success the flag holds the value, on failure it is unchanged |
| CommandLine.ParseFlags | protobuf-3.5.1/gmock/src/gmock.cc:136-138 | at most one of the two flags is set by an argument, and neither by one that is no flag |
| CommandLine.FlagsDoNotOverlap | protobuf-3.5.1/gmock/src/gmock.cc:58-84 | no argument is a value for both flags |
| CommandLine.KeptIsExact | protobuf-3.5.1/gmock/src/gmock.cc:131-155 | what is kept contains no flag and every other argument as often as before |
| IdentifierWords.ConversionKeepsLetters | protobuf-3.5.1/gmock/src/gmock-internal-utils.cc:59-70 | the letters and digits of the result are those of the name, one by one and in order, each with its place in the alphabet |
| IdentifierWords.ConvertIdentifierNameToWords | protobuf-3.5.1/gmock/src/gmock-internal-utils.cc:50-71 | the result is the lower-case words of the name, each the longest match of the pattern, with one space between each two |
| IdentifierWords.WordsSnoc | protobuf-3.5.1/gmock/src/gmock-internal-utils.cc:59-64 | cutting a name into longest matches is the same as looking at each two neighbouring characters |
| IdentifierWords.ConversionIsTidy | protobuf-3.5.1/gmock/src/gmock-internal-utils.cc:66-70 | only lower-case letters, digits and single inner spaces |
| IdentifierWords.ConversionIsIdempotent | protobuf-3.5.1/gmock/src/gmock-internal-utils.cc:50-53 | converting again changes nothing |
| IdentifierWords.WordsOfSpoken | protobuf-3.5.1/gmock/src/gmock-internal-utils.cc:50-53 | the words of the result are the words of the name in lower case |
| ZigZag.RoundTrips | protobuf-3.5.1/objectivec/GPBUtilities_PackagePrivate.h:109-136 | encoding and decoding are inverse to each other, in both orders, on all words of two or more bits |
| ZigZag.EncodingAlternates | protobuf-3.5.1/objectivec/GPBUtilities_PackagePrivate.h:121-127 | the encoding of n is 2n, or -2n-1 if n is negative |
| ZigZag.SmallStaysSmall | protobuf-3.5.1/objectivec/GPBUtilities_PackagePrivate.h:121-127 | n fits j bits signed exactly when its encoding fits j bits unsigned |
| ZigZag.NegatedBitFills | protobuf-3.5.1/objectivec/GPBUtilities_PackagePrivate.h:109-111 | minus the lowest bit is all zeros or all ones |

## Left out

- Listener output, descriptions, logging, printing and mutexes of Google Mock: only boolean results and state are modelled.
- Machine integers: sizes, call counts, offsets and the numbers of the prime samples are unbounded, so overflow of `i*i`, `n++` or `call_count_` is not modelled. Left-shifting a negative number, undefined in older C, is taken to shift the bits.
- The order in which a `std::set` of expectations is walked: it depends on addresses, and the model leaves the choice open.
- The clauses `Times`, `WillOnce` and `WillRepeatedly`: the cardinality, the matcher and the retirement flag of an expectation are fixed when it is created, before its first call as the interface demands. User-defined cardinalities are not modelled.
- Expectations that are put in a sequence, or given prerequisites, after a newer expectation has been set; a cycle would then be possible.
- The implicit sequence of `InSequence` objects (it is one more sequence in the list), verification at destruction, and actions.
- The text substitution behind macro expansion (`_Expand`, `_ReplaceArgValues`, `_EvalMacrosRefs`): its loop can diverge for recursive macros, and the laws hold for whatever it yields.
- Line breaks other than '\n' that `splitlines` knows, and white space outside ASCII; line numbers and wording in error messages.
- Nesting of imports is bounded by the parameter `depth`, as the interpreter's stack bounds it; a cyclic import fails in both.
- PddmMacros.MacroCollection.ParseLines: does not say what the collection holds after an error, because the original abandons it then.
- The regular expressions and the file handling of the fusion scripts: a line arrives with the include pattern it matches and the name captured. The recursion limit of the interpreter is not modelled.
- Primes.PreCalculatedPrimeTable.constructor: requires a maximum of at least 1, below which the original writes outside of its array.
- Primes.PreCalculatedPrimeTable.GetNextPrime: requires p of at least -1, below which the original reads outside of its array.
- `InitGoogleTest`, which runs before the loop over argv and removes its own flags, and the conversion of wide strings.
- Floating point reinterpretation, the Objective-C runtime classes and the music application: headers only, or nothing to prove.
- `Randomize` and the description of cardinalities: random or easy.
