# Verified models of the graph tooling and its test framework

The repository is a script that turns the FB15k-237 knowledge graph into a compressed
adjacency and measures hops on it, together with the GoogleTest and GoogleMock sources it
vendors. This project models the algorithms in both that are hard to get right and proves
what they are for. It is self-contained: `dafny verify dfyconfig.toml` checks everything.

What the source changes step by step (the matching arrays, the cost table, hunks, the
filter flags, expectations, the sieve, index vectors) is written as classes and methods
over fields and arrays, each proved against a specification; the theorems are about those
specifications.

| file | subject |
|---|---|
| BipartiteMatching, UnorderedElements, FiniteSets | maximum matching and the unordered-elements matchers |
| EditScripts, OptimalEdits | least-cost edit scripts |
| Hunks, HunkShapes, UnifiedDiffWriter, DiffUniqueness, PosixHunks | unified diffs |
| Glob, TestFilter, TestSelection | glob patterns, filters, selection and sharding of tests |
| RegexLanguage, SimpleRegex, RegularExpression | the fallback regular expression engine |
| Digraphs, Expectations | prerequisites between mock expectations |
| Int128Printer, HexNumerals, Utf8, WideStrings, StringLiterals, Base64 | printers and codecs |
| PrimeNumbers, PrimeTables | the sample prime tables |
| IdMaps, CsrGraph | numbering, compressed rows and hop queries of the knowledge graph |
| Shuffling, TestRegistry | the shuffle, its generator and the registry of suites |
| SharedTypes | optional values and bytes |

## Main results

* **Matching.** `FindMaxBipartiteMatching` returns a matching that no matching exceeds. A
  failed search closes a region of right nodes; later augmentations cannot enter it, and
  at the end the region is a König cover. The contract of `TryAugment` describes the one
  stale entry that exists while a successful recursion unwinds, and says that the search
  succeeds exactly if an augmenting path avoids what was seen before. `FindPairing` is right for
  all three requirements, and the quick test before it never rejects a feasible matrix.
  `MatchAndExplain` fills the matrix from the matchers' answers and decides the requirement
  on the elements themselves.
* **Edit scripts.** The walk back is a script whose cost is the table's. The table is
  minimal everywhere exactly when it never takes its replace branch although adding or
  removing would not cost more; for total lengths below 100000 that misjudgement is
  exactly a tie of adding and removing below replacing. Replacing in a tie is what the code
  does, so three replacements are returned where two edits suffice (`MisjudgedExample`).
  The script returned is a cheapest one exactly when, by least costs, every branch taken on
  the walk back is a cheapest one there; so without misjudged cells it is one, and with a
  misjudged cell on the walk it is not (`MinimalityChain`). A walk without misjudged cells
  need not be a cheapest script, though (`CleanWalkExample`).
* **Unified diffs.** The hunks turn left into right, and reversed turn right into left,
  exactly when there is context or nothing to do: with no context the writer stops before
  the first hunk. The numbers of the lines they remove and add are those of the lines that
  the script removes and adds. Edits whose contexts overlap share a hunk, others do not, and
  removed lines come before added ones: for a given script and context only one list of
  hunks is a complete diff (`OneDiffOnly`).
* **Glob, filter, shards.** The loop with one backtracking point decides the recursive
  meaning, which is a split of the name into one fitting piece per character. Filtering
  decides every test by that meaning; names are disabled exactly if they start with
  `DISABLED_` or hold `/DISABLED_`. The shards partition the runnable tests into shares that
  differ by at most one.
* **Regular expressions.** The validator accepts exactly the grammar, the matchers decide
  the language of the grammar's pattern, whose atoms are given by character codes, and a full match is one exactly for the patterns
  that do not end in an escaped dollar sign (`Init` takes that dollar for an end anchor).
* **Expectations.** The graph stays acyclic; the traversal without a visited set ends and
  is right; the shortcut on retired nodes is sound; expectations get prerequisites from
  sequences and from `After`; the state of every run satisfies
  what the search for unsatisfied prerequisites relies on, so it finds something exactly
  when some prerequisite is unsatisfied.
* **Printers and codecs.** 128-bit decimals, UTF-8 against section 3 and section 4 of
  RFC 3629, UTF-16 of section 2.1 of RFC 2781, string literals against sections [lex.ccon]
  and [lex.string] of ISO C++17, Base64 against sections 4 and 5 of RFC 4648, each with
  uniqueness or a round trip. What is printed as a literal is fixed character by character:
  text that needs no escape is printed as it is (`OneLiteralOnly`).
* **Fast forms.** The sieve, the on-the-fly table, the combined table and the odd trial
  division agree with the definition of a prime; the compressed adjacency agrees with the
  triple list; a profile of two hops counts walks.
* **Registry.** Registering tests, shuffling and unshuffling keep an order in which every
  suite has one place and death test suites come first. A shuffle arranges both parts of
  the list and then the tests of every suite by the draws of the generator, and its choices
  correspond one to one to the arrangements.

## Where code and documentation differ

* `CodePointToUtf8` and `WideStringToUtf8` document that values above U+10FFFF become an
  "Invalid Unicode" text (gtest.cc:2136-2138), but the code encodes values up to 0x1FFFFF
  in four bytes, 0x110000 for one (`AboveUnicode`). `ValidOutput` states exactly which values
  give valid text, and `WideStringToUtf8` which strings do.
* The documented mutual-reference invariant of the matching state (gmock-matchers.cc:101-105)
  does not hold inside a successful recursion of `TryAugment` from a node that had a partner;
  `ReferentIfWasUnused` states that it holds exactly if there was none.
* `CreateUnifiedDiff` documents the unified diff format (gtest.cc:1540), where an empty range
  starts with the number of the line before it (POSIX.1-2008, utility diff, section "Diff -u
  or -U Output Format"). The code starts it one line later. Headers are right, and a reader
  of the format can apply the diff, exactly if there is nothing to do or neither side is empty
  (`HeaderFollowsFormat`, `AppliesAsRead`); `EmptySideExample` is one line added to nothing.
* `GetTestSuite(int)` documents the i-th suite but takes it from the unshuffled list
  (gtest-internal-inl.h:586-591); `ReportsFollowTheRun` says when that is the i-th to run, and
  `RunAgainstTheReports` shows a shuffle after which it is not.

## Model

| member | source | states |
|---|---|---|
| BipartiteMatching.MaxBipartiteMatchState.constructor | googletest/googlemock/src/gmock-matchers.cc:126-129 | nothing is linked at the start |
| BipartiteGraphs.NewMatrix | googletest/googlemock/include/gmock/gmock-matchers.h:3776-3779 | a new matrix has no edge |
| BipartiteGraphs.MatchMatrix.SetEdge | googletest/googlemock/include/gmock/gmock-matchers.h:3783-3802 | reading the cell gives what was entered, and every other cell reads as before |
| BipartiteMatching.MaxBipartiteMatchState.TryAugment | googletest/googlemock/src/gmock-matchers.cc:184-206 | succeeds exactly if an augmenting path from the node exists that avoids everything seen on entry; on success only the old partner of the start is left stale; on failure nothing moved and the newly seen region is closed; marks nothing unseen again and leaves closed regions alone |
| BipartiteMatching.MaxBipartiteMatchState.Compute | googletest/googlemock/src/gmock-matchers.cc:132-163 | trying each left node once gives a matching no matching exceeds, and unmatched left nodes have no augmenting path in the end; the check that a node is unmatched before its turn never fires |
| BipartiteMatching.FindMaxBipartiteMatching | googletest/googlemock/src/gmock-matchers.cc:228-230 | the list is a matching without repetition, and every matching is at most as large |
| BipartiteGraphs.FlowIsMatching | googletest/googlemock/src/gmock-matchers.cc:98-105 | mutually referent links form a matching |
| BipartiteGraphs.ClosedBlocksPaths | googletest/googlemock/src/gmock-matchers.cc:139-149 | no augmenting path leaves a closed region |
| BipartiteGraphs.ClosedRegionBoundsMatchings | googletest/googlemock/src/gmock-matchers.cc:139-149 | a closed region that holds the neighbours of all unmatched left nodes bounds every matching (König cover) |
| BipartiteMatching.RerouteStep | googletest/googlemock/src/gmock-matchers.cc:195-205 | overwriting the stale entry restores mutual reference for the caller |
| BipartiteMatching.ReferentIfWasUnused | googletest/googlemock/src/gmock-matchers.cc:101-105 | after a successful search from a node the links are mutually referent exactly if the node had no partner before |
| BipartiteMatching.ConfinedAfterFailure | googletest/googlemock/src/gmock-matchers.cc:144-149 | a failed node joins the closed region |
| BipartiteMatching.ConfinedAfterSuccess | googletest/googlemock/src/gmock-matchers.cc:144-149 | an augmentation leaves the region closed, so failed nodes stay unaugmentable and matched nodes stay matched |
| BipartiteMatching.FailedSearchHasNoPath | googletest/googlemock/src/gmock-matchers.cc:173-183 | after a failed search every augmenting path meets a node that was seen before it |
| BipartiteMatching.ConfinedIsMaximum | googletest/googlemock/src/gmock-matchers.cc:132-163 | when all nodes were tried, no matching is larger |
| UnorderedElements.FindPairing | googletest/googlemock/src/gmock-matchers.cc:436-475 | true exactly if the required assignment exists: an injection of matchers, of elements, or a bijection |
| UnorderedElements.VerifyMatchMatrix | googletest/googlemock/src/gmock-matchers.cc:369-434 | true exactly if every matcher and every element that has to be matched has an edge |
| UnorderedElements.QuickTestIsNecessary | googletest/googlemock/src/gmock-matchers.cc:369-434 | the quick test never rejects a matrix that has an assignment |
| UnorderedElements.MaximumDecides | googletest/googlemock/src/gmock-matchers.cc:436-462 | comparing the size of a maximum matching with both sides decides the requirement |
| UnorderedElements.MatchAndExplain | googletest/googlemock/include/gmock/gmock-matchers.h:3903-3913 | true exactly if the elements can be assigned to matchers that match them as required: an injection of matchers, of elements, or a bijection |
| UnorderedElements.AnalyzeElements | googletest/googlemock/include/gmock/gmock-matchers.h:3917-3943 | the matrix has an edge exactly where the matcher matches the element |
| UnorderedElements.MatrixDecides | googletest/googlemock/include/gmock/gmock-matchers.h:3903-3913 | what the matrix meets holds of the elements and matchers it shows |
| EditScripts.LeastIsMinimum | googletest/googletest/src/gtest.cc:1378-1421 | the recursively least cost is the minimum over all scripts, and no other number is |
| EditScripts.EagerMatchIsLeast | googletest/googletest/src/gtest.cc:1401-1406 | consuming a match at once loses nothing |
| EditScripts.LeastIsSteady | googletest/googletest/src/gtest.cc:1396-1421 | dropping an item changes the least cost by at most one step |
| EditScripts.AppendMove | googletest/googletest/src/gtest.cc:1423-1433 | a move appended to a script for the shortened inputs is a script |
| OptimalEdits.BestPathTransforms | googletest/googletest/src/gtest.cc:1423-1433 | the walk back is a script from left to right, pairs equal items on a match and unequal ones on a replacement, and costs what the table says |
| OptimalEdits.FillTable | googletest/googletest/src/gtest.cc:1380-1421 | every cell of both tables holds the cost and the move of its prefixes |
| OptimalEdits.FillCell | googletest/googletest/src/gtest.cc:1398-1420 | the next cell holds the cost and the move of its prefixes if its neighbours do, and no other cell changes |
| OptimalEdits.WalkBack | googletest/googletest/src/gtest.cc:1423-1433 | the walk stays in the table, ends, and lists the moves |
| OptimalEdits.CalculateOptimalEdits | googletest/googletest/src/gtest.cc:1378-1433 | returns a script from left to right whose cost is the last entry of the table |
| OptimalEdits.CostAtLeast | googletest/googletest/src/gtest.cc:1396-1421 | the table never goes below the least cost |
| OptimalEdits.CellIsLeast | googletest/googletest/src/gtest.cc:1396-1421 | with minimal neighbours a cell is minimal exactly if it is not misjudged |
| OptimalEdits.TableMinimality | googletest/googletest/src/gtest.cc:1396-1421 | every entry is the minimum over all scripts exactly if no cell is misjudged |
| OptimalEdits.BestPathIsMinimal | googletest/googletest/src/gtest.cc:1378-1434 | if no cell is misjudged the script returned is a cheapest one |
| OptimalEdits.ReturnedScriptIsMinimal | googletest/googletest/src/gtest.cc:1396-1433 | the script returned is a cheapest one exactly if every branch taken on the walk back is a cheapest one by least costs |
| OptimalEdits.WalkCostsLeast | googletest/googletest/src/gtest.cc:1396-1433 | the last entry is the least cost exactly if every branch taken on the walk back is a cheapest one by least costs |
| OptimalEdits.MisjudgedOnWalk | googletest/googletest/src/gtest.cc:1423-1433 | a walk back is misjudged exactly if it comes to a misjudged cell |
| OptimalEdits.MisjudgedWalkIsNotMinimal | googletest/googletest/src/gtest.cc:1408-1433 | a misjudged cell on the walk back always makes the script returned cost more than the least |
| OptimalEdits.MinimalityChain | googletest/googletest/src/gtest.cc:1396-1433 | none misjudged anywhere implies that every branch taken on the walk back is a cheapest one, which implies that none is misjudged on the walk |
| OptimalEdits.CleanWalkExample | googletest/googletest/src/gtest.cc:1408-1420 | 1 2 1 and 2 1 1 3: no cell on the walk back is misjudged, and yet the script returned is not a cheapest one |
| OptimalEdits.MisjudgedExample | googletest/googletest/src/gtest.cc:1408-1420 | 1 2 1 and 2 1 2: three replacements although two edits suffice |
| OptimalEdits.CostShape | googletest/googletest/src/gtest.cc:1396-1421 | a cost is a number of steps of the parity of the lengths and at most as many replacements as items |
| OptimalEdits.MisjudgedMeansTie | googletest/googletest/src/gtest.cc:1408-1420 | for total length under 100000 a cell is misjudged exactly if adding and removing tie below replacing |
| OptimalEdits.InternalStrings.GetId | googletest/googletest/src/gtest.cc:1438-1450 | equal strings get equal numbers and different strings different ones |
| OptimalEdits.BestPathSamePattern | googletest/googletest/src/gtest.cc:1454-1468 | the script depends only on which items are equal |
| OptimalEdits.CalculateOptimalLineEdits | googletest/googletest/src/gtest.cc:1454-1468 | numbering the lines first gives the script of the lines themselves |
| Hunks.AccountsMeansPatch | googletest/googletest/src/gtest.cc:1546-1553 | hunks that account for all differences patch left into right |
| Hunks.PatchChecksHeaders | googletest/googletest/src/gtest.cc:1521-1535 | a diff applies only if its header numbers are right |
| Hunks.PatchBothWays | googletest/googletest/src/gtest.cc:1546-1553 | the same hunks patch both ways |
| Hunks.AccountsReversed | googletest/googletest/src/gtest.cc:1546-1553 | reversed hunks account for the differences the other way round |
| Hunks.PlacesHoldTexts | googletest/googletest/src/gtest.cc:1503-1535 | the text of a removed or added line stands at its place on its side of the hunk |
| UnifiedDiffWriter.Hunk.constructor | googletest/googletest/src/gtest.cc:1478-1483 | an empty hunk with the given starts |
| UnifiedDiffWriter.Hunk.PushLine | googletest/googletest/src/gtest.cc:1485-1501 | adds the line to the sides it belongs to, with the next line number of its side, and counts it; unchanged lines at both ends and their longest run grow as if it came last, although removed lines are moved before added ones |
| UnifiedDiffWriter.Hunk.FlushEdits | googletest/googletest/src/gtest.cc:1516-1519 | the pending lines join the body, removed before added |
| UnifiedDiffWriter.Hunk.PrintTo | googletest/googletest/src/gtest.cc:1503-1535 | header starts and lengths are those of the body, and removed lines come before added ones |
| UnifiedDiffWriter.InsertedLine | googletest/googletest/src/gtest.cc:1485-1501 | reordering within a hunk changes neither side of it |
| HunkShapes.InsertedLineEnds | googletest/googletest/src/gtest.cc:1485-1501 | a removed line put before pending added ones changes neither the unchanged lines at the ends nor their longest run otherwise than one put last |
| UnifiedDiffWriter.InsertedLinePlaces | googletest/googletest/src/gtest.cc:1485-1501 | reordering within a hunk changes no line numbers: a removed or added line gets the next one of its side |
| UnifiedDiffWriter.FillHunk | googletest/googletest/src/gtest.cc:1575-1603 | the hunk covers a window of both inputs, ends in the context asked for or at the end, has no run of unchanged lines as long as two contexts, and the next edit is far |
| UnifiedDiffWriter.BuildHunk | googletest/googletest/src/gtest.cc:1567-1610 | the hunk around an edit fits its header, without index underflow |
| UnifiedDiffWriter.NextHunk | googletest/googletest/src/gtest.cc:1559-1611 | one round keeps the hunks ordered, disjoint and complete so far |
| UnifiedDiffWriter.CreateUnifiedDiff | googletest/googletest/src/gtest.cc:1553-1614 | the hunks patch left into right and back exactly if there is context or nothing to do; the numbers of the lines they remove and add, one after the other, are those of the lines the script removes and adds; each hunk has an edit, is framed by the context, and joins edits exactly if their contexts overlap |
| UnifiedDiffWriter.CalledInOrder | googletest/googletest/src/gtest.cc:1553-1614 | the lines that a script removes or adds have increasing numbers within the side, so each is in one hunk only |
| UnifiedDiffWriter.HunkLinesAreTheirs | googletest/googletest/src/gtest.cc:1553-1614 | every removed or added line of a hunk holds the text of the left or right line with its number |
| DiffUniqueness.OneDiffOnly | googletest/googletest/src/gtest.cc:1540-1614 | only one list of hunks is a complete diff of a script with a context: its grouping, headers and lines |
| DiffUniqueness.LinesAreDetermined | googletest/googletest/src/gtest.cc:1485-1519 | both sides and the numbers of the changed lines determine all lines and their order |
| DiffUniqueness.HunksAreDetermined | googletest/googletest/src/gtest.cc:1544-1603 | lines can be cut into hunks with this context in one way only |
| PosixHunks.EmptyRanges | googletest/googletest/src/gtest.cc:1521-1535 | a hunk has an empty range exactly if its whole side is empty |
| PosixHunks.ReadWhereItStands | googletest/googletest/src/gtest.cc:1521-1535 | numbers that follow the format are read as the places where the hunk stands |
| PosixHunks.HeaderFollowsFormat | googletest/googletest/src/gtest.cc:1521-1535 | a header gives its ranges as the format asks exactly if neither side is empty |
| PosixHunks.AppliesAsRead | googletest/googletest/src/gtest.cc:1521-1535 | read by the format, the diff applies forwards and backwards exactly if left equals right or neither is empty |
| PosixHunks.EmptySideExample | googletest/googletest/src/gtest.cc:1521-1535 | one line added to nothing: the header does not follow the format, and a reader of the format cannot apply it |
| Glob.PatternMatchesString | googletest/googletest/src/gtest.cc:769-814 | true exactly if the recursive meaning of `?` and `*` holds |
| Glob.MatchesByPieces | googletest/googletest/src/gtest.cc:763-814 | a name matches exactly if it falls into one piece for each character of the pattern: any for a star, a single character for a question mark, and the character itself otherwise |
| Glob.OlderStarIsCovered | googletest/googletest/src/gtest.cc:795-810 | restarting only from the most recent star loses no match |
| Glob.TextThenStar | googletest/googletest/src/gtest.cc:769-814 | a text before a star matches the names that start with it |
| Glob.StarThenText | googletest/googletest/src/gtest.cc:769-814 | a text after a star matches the names that end in it |
| Glob.StarTextStar | googletest/googletest/src/gtest.cc:769-814 | a text between two stars matches the names that hold it |
| TestFilter.SplitString | googletest/googletest/src/gtest.cc:1321-1336 | the pieces between delimiters |
| TestFilter.SplitJoin | googletest/googletest/src/gtest.cc:1321-1336 | joining the pieces gives the text back, and no piece holds the delimiter |
| TestFilter.PlainPatternIsExact | googletest/googletest/src/gtest.cc:818-854 | a pattern without wildcards matches its own text only, so a set lookup suffices |
| TestFilter.UnitTestFilter.MatchesName | googletest/googletest/src/gtest.cc:844-854 | true exactly if some pattern of the list matches |
| TestFilter.MakeFilter | googletest/googletest/src/gtest.cc:827-842 | partitioning into wildcard and exact patterns loses none |
| TestFilter.FirstPiece | googletest/googletest/src/gtest.cc:868-893 | the pieces around the first dash are the positive and the negative part |
| TestFilter.PositiveAndNegativeUnitTestFilter.MatchesTest | googletest/googletest/src/gtest.cc:895-912 | full names are matched by some positive and no negative pattern |
| TestFilter.MakePositiveAndNegativeFilter | googletest/googletest/src/gtest.cc:863-893 | everything before an initial dash is replaced by the universal pattern, and later dashes belong to the negative part |
| TestFilter.SelectedAroundDash | googletest/googletest/src/gtest.cc:863-893 | with the first dash in place k, a name is selected by a pattern before it, or by anything if nothing is before it, and excluded by the patterns after it |
| TestFilter.SelectedWithoutDash | googletest/googletest/src/gtest.cc:863-893 | a filter without a dash selects what one of its patterns matches |
| Sharding.ShardsPartition | googletest/googletest/src/gtest.cc:6273-6279 | every runnable test runs on exactly one shard, other tests on none |
| Sharding.ShardSizeIsFair | googletest/googletest/src/gtest.cc:6273-6279 | the exact size of every shard |
| Sharding.ShardsAreBalanced | googletest/googletest/src/gtest.cc:6273-6279 | sizes differ by at most one |
| Sharding.ShardsCoverAll | googletest/googletest/src/gtest.cc:6273-6279 | the sizes add up to the number of runnable tests |
| TestSelection.FilterTest | googletest/googletest/src/gtest.cc:6308-6335 | the flags of a test say what filter, disabled rule and shard imply |
| TestSelection.FilterSuites | googletest/googletest/src/gtest.cc:6298-6338 | every test of every suite is decided by the runnable tests before it, and the result counts those to run |
| TestSelection.FilterTests | googletest/googletest/src/gtest.cc:6288-6339 | the same with the rules of the flags; a test is marked disabled exactly if its name or that of its suite starts with `DISABLED_` or holds `/DISABLED_`, and is to run exactly if it is selected, enabled and on this shard |
| TestSelection.DisabledByName | googletest/googletest/src/gtest.cc:181 | the filter for disabled tests matches exactly the names that start with `DISABLED_` or hold `/DISABLED_` |
| TestSelection.SelectedIsShardSize | googletest/googletest/src/gtest.cc:6277-6339 | what a process selects is the size of its shard of all runnable tests |
| RegexValidator.ValidateRegex | googletest/googletest/src/gtest-port.cc:839-890 | accepts exactly the texts of the grammar |
| RegexValidator.ScanMeansGrammar | googletest/googletest/src/gtest-port.cc:839-890 | the scan's local checks amount to the grammar |
| RegexLanguage.ClassesByCode | googletest/googletest/src/gtest-port.cc:780-828 | the class escapes stand for digits, white space and word characters by their codes, in upper case for all others |
| RegexLanguage.ControlsByCode | googletest/googletest/src/gtest-port.cc:798-828 | the control escapes stand for their codes |
| RegexLanguage.OtherAtoms | googletest/googletest/src/gtest-port.cc:798-828 | punctuation that is escaped stands for itself, a dot for all but the line feed, other characters for themselves |
| RegexLanguage.SyntaxByCode | googletest/googletest/src/gtest-port.cc:781-795 | which characters repeat an atom, may be escaped, and stand for themselves, by their codes |
| RegexMatcher.MatchRepetitionAndRegexAtHead | googletest/googletest/src/gtest-port.cc:892-918 | some admissible number of repetitions followed by a match of the rest |
| RegexMatcher.MatchRegexAtHead | googletest/googletest/src/gtest-port.cc:920-947 | true exactly if some prefix is in the language, the whole string under an end anchor |
| RegexMatcher.MatchRegexAnywhere | googletest/googletest/src/gtest-port.cc:949-967 | true exactly if some substring is in the language, anchors honoured |
| RegexLanguage.SomewhereByHeads | googletest/googletest/src/gtest-port.cc:949-967 | matching somewhere is matching at the head of some suffix |
| RegexLanguage.HeadByFirstItem | googletest/googletest/src/gtest-port.cc:920-947 | a head match splits at the first item |
| RegularExpression.TextIsUnambiguous | googletest/googletest/src/gtest-port.cc:839-890 | a text is the text of one pattern only |
| RegularExpression.RE.Init | googletest/googletest/src/gtest-port.cc:985-1012 | valid exactly for texts of the grammar, and then the full pattern is the text of the anchored pattern |
| RegularExpression.FullPatternText | googletest/googletest/src/gtest-port.cc:1002-1011 | what adding the two characters makes of the pattern |
| RegularExpression.RE.PartialMatch | googletest/googletest/src/gtest-port.cc:978-982 | true exactly if the regex is valid and matches somewhere |
| RegularExpression.RE.FullMatch | googletest/googletest/src/gtest-port.cc:973-976 | true exactly if the regex is valid and its anchored pattern matches |
| RegularExpression.FullMatchMeaning | googletest/googletest/src/gtest-port.cc:974-1012 | without an escaped dollar at the end a full match is membership in the language; with one, some prefix is a word |
| RegularExpression.FullMatchIsExact | googletest/googletest/src/gtest-port.cc:973-1012 | full matches are exact for exactly the patterns that do not end in an escaped dollar |
| Digraphs.NewEdgeKeepsAcyclic | googletest/googlemock/src/gmock-spec-builders.cc:758-767 | an edge keeps a graph acyclic exactly if its end does not lead back to its start |
| Digraphs.HeightFalls | googletest/googlemock/src/gmock-spec-builders.cc:136-152 | in an acyclic graph prerequisites are lower, which bounds the visits of a walk without a visited set |
| Digraphs.FrontierDecides | googletest/googlemock/src/gmock-spec-builders.cc:156-183 | if every good node that is not entered has only good successors, the walk meets a bad node exactly if there is one |
| Expectations.Expectation.RetireAllPreRequisites | googletest/googlemock/src/gmock-spec-builders.cc:109-132 | retires exactly the direct and indirect prerequisites and keeps the retired set closed |
| Expectations.Expectation.AllPrerequisitesAreSatisfied | googletest/googlemock/src/gmock-spec-builders.cc:136-152 | ends, and is true exactly if all direct and indirect prerequisites are satisfied |
| Expectations.Expectation.FindUnsatisfiedPrerequisites | googletest/googlemock/src/gmock-spec-builders.cc:156-183 | adds exactly the unsatisfied expectations next to satisfied uncalled ones it can reach |
| Expectations.SearchFindsCulprits | googletest/googlemock/src/gmock-spec-builders.cc:155-183 | in every state of a run the search finds something exactly if some prerequisite is unsatisfied |
| Expectations.Expectation.ShouldHandleArguments | googletest/googlemock/include/gmock/gmock-spec-builders.h:1124-1134 | not retired, all prerequisites satisfied, arguments match |
| Expectations.Expectation.GetActionForArguments | googletest/googlemock/include/gmock/gmock-spec-builders.h:1218-1244 | a call keeps the run invariant; an excessive call only counts, any other retires the prerequisites, and itself if it is to retire when saturated |
| Expectations.SoundAfterCall | googletest/googlemock/include/gmock/gmock-spec-builders.h:1218-1244 | counting a call of an unretired expectation with satisfied prerequisites keeps what called expectations rely on |
| Expectations.ExpectCall | googletest/googlemock/src/gmock-spec-builders.cc:82-96 | a new expectation keeps the run invariant |
| Expectations.EdgeFromNew | googletest/googlemock/src/gmock-spec-builders.cc:758-767 | an edge from an expectation nothing depends on keeps the graph acyclic and all other prerequisites as they were |
| Expectations.Expectation.AddPrerequisite | googletest/googlemock/src/gmock-spec-builders.cc:758-767 | one more edge closes a cycle exactly if its end depends on its start; from a newly built expectation it keeps the run invariant |
| Expectations.Expectation.After | googletest/googlemock/include/gmock/gmock-spec-builders.h:971-983 | adds just the edges to the set; the graph stays acyclic exactly if no member of the set depends on this expectation, and a newly built expectation keeps the run invariant |
| Expectations.Sequence.AddExpectation | googletest/googlemock/src/gmock-spec-builders.cc:759-767 | adds just the edge to the last expectation; acyclic exactly if that one does not depend on the new one; a newly built expectation keeps the run invariant |
| DecimalText.DecimalDenotes | googletest/googletest/src/gtest-printers.cc:291-323 | the decimal text denotes its number and has no leading zero |
| DecimalText.DecimalIsUnique | googletest/googletest/src/gtest-printers.cc:291-323 | no other such text denotes it |
| Int128Printer.DivideBy10 | googletest/googletest/src/gtest-printers.cc:309-319 | two 64-bit words are divided by ten without overflow |
| Int128Printer.LowSumFits | googletest/googletest/src/gtest-printers.cc:316-317 | the low word never exceeds its largest value, and attains it |
| Int128Printer.FitsIn39Digits | googletest/googletest/src/gtest-printers.cc:297-299 | 39 digits suffice |
| Int128Printer.PrintUInt128 | googletest/googletest/src/gtest-printers.cc:291-323 | the buffer is large enough and the text is the decimal of the value |
| Int128Printer.PrintInt128 | googletest/googletest/src/gtest-printers.cc:324-331 | sign and magnitude, the least value included |
| Utf8.IsValidUTF8 | googletest/googletest/src/gtest-printers.cc:481-514 | accepts exactly the concatenations of encodings of Unicode scalar values |
| Utf8.PrefixCode | googletest/googletest/src/gtest-printers.cc:483-514 | no encoding is a proper prefix of another |
| Utf8.EncodingIsUnique | googletest/googletest/src/gtest.cc:2079-2099 | a number has one encoding |
| Utf8.EncodesAllIsUnique | googletest/googletest/src/gtest-printers.cc:483-514 | a byte string decodes in one way only |
| WideStrings.CodePointToUtf8 | googletest/googletest/src/gtest.cc:2068-2100 | the encoding, up to the largest four-byte value; text for larger values |
| WideStrings.ValidOutput | googletest/googletest/src/gtest.cc:2068-2100 | the output is valid UTF-8 exactly unless the value is a surrogate or lies in 0x110000 to 0x1FFFFF |
| WideStrings.AboveUnicode | googletest/googletest/src/gtest.cc:2092-2099 | 0x110000 is written in four bytes that are not valid UTF-8 |
| WideStrings.InvalidTextIs | googletest/googletest/src/gtest.cc:2074-2077 | the text for a number too large is its upper-case hexadecimal numeral in fixed words |
| WideStrings.WideCodePoints | googletest/googletest/src/gtest.cc:2102-2127 | reading the UTF-16 or UTF-32 form of NUL-free scalars gives them back |
| WideStrings.UnitsByCode | googletest/googletest/src/gtest.cc:2109-2127 | of two-byte units, 0xD800 to 0xDBFF before 0xDC00 to 0xDFFF make one code point, and any other unit is one of its own |
| WideStrings.WideUnitsByCode | googletest/googletest/src/gtest.cc:2141-2161 | four-byte units are code points as they are, up to the terminator |
| WideStrings.UnpairedSurrogate | googletest/googletest/src/gtest.cc:2145-2158 | a high surrogate before an M is a code point of its own |
| WideStrings.WideStringToUtf8 | googletest/googletest/src/gtest.cc:2141-2161 | what is written for the code points up to the limit or the first NUL; valid UTF-8 exactly if none of them is a surrogate or lies in 0x110000 to 0x1FFFFF |
| WideStrings.ValidConcat | googletest/googletest/src/gtest.cc:2141-2161 | pieces written one after the other are valid together exactly if each code point is written as valid text |
| WideStrings.ConvertText | googletest/googletest/src/gtest.cc:2129-2161 | the conversion of any NUL-free scalar sequence is valid and decodes to just that sequence |
| LiteralPrinter.PrintCharsAsStringTo | googletest/googletest/src/gtest-printers.cc:341-363 | each character is written as itself, after a backslash, by its letter, or as an upper-case hexadecimal number without leading zeros; a new literal starts exactly where a hexadecimal digit follows such a number, and the result says whether there is one; text that needs no escape is written as it is |
| LiteralPrinter.WrittenByKind | googletest/googletest/src/gtest-printers.cc:145-211 | how each character is written, and that a hexadecimal number is used exactly for those that are neither printable nor have an escape |
| LiteralPrinter.OneLiteralOnly | googletest/googletest/src/gtest-printers.cc:341-363 | the literal of a text is one text |
| LiteralPrinter.PrintedReadsBack | googletest/googletest/src/gtest-printers.cc:341-363 | what a C++ compiler reads from the literals |
| LiteralPrinter.PrintedLiteralDenotes | googletest/googletest/src/gtest-printers.cc:150-211 | the literals denote the characters exactly if no NUL stands before an octal digit |
| LiteralPrinter.SwallowedDigit | googletest/googletest/src/gtest-printers.cc:152-158 | NUL and the digit one are read as one character |
| Base64.Base64Unescape | googletest/googlemock/src/gmock-internal-utils.cc:229-255 | fails exactly on characters outside both alphabets; otherwise six bits a symbol up to the last whole byte; any spelling of an encoding, padded or not and spaced anyhow, gives the bytes back |
| Base64.MachineStep | googletest/googlemock/src/gmock-internal-utils.cc:244-252 | a symbol completes the byte in progress and starts the next one |
| Base64.TableIsStandard | googletest/googlemock/src/gmock-internal-utils.cc:203-227 | the table decodes exactly the characters of both alphabets to their values |
| Base64.SkippedByCode | googletest/googlemock/src/gmock-internal-utils.cc:236-239 | exactly the six white-space codes and `=` are skipped |
| Base64.DecodesInverts | googletest/googlemock/src/gmock-internal-utils.cc:229-255 | decoding the symbols of a byte string gives that string and no other |
| PrimeNumbers.PrimeAbove | googletest/googletest/samples/prime_tables.h:66-72 | there is a prime above every number, so the unbounded search ends |
| PrimeNumbers.NextPrimeIsUnique | googletest/googletest/samples/sample8_unittest.cc:68-74 | the least prime above is one number, so all implementations agree on it |
| PrimeNumbers.SmallDivisor | googletest/googletest/samples/prime_tables.h:55-64 | a composite number has a divisor up to its root |
| PrimeTables.OnTheFlyPrimeTable.IsPrime | googletest/googletest/samples/prime_tables.h:55-64 | true exactly for primes |
| PrimeTables.OnTheFlyPrimeTable.GetNextPrime | googletest/googletest/samples/prime_tables.h:66-72 | the least prime above, or -1 below zero |
| PrimeTables.PreCalculatedPrimeTable.CalculatePrimesUpTo | googletest/googletest/samples/prime_tables.h:100-116 | the sieve over two and the odd candidates marks exactly the numbers that are not prime |
| PrimeTables.PreCalculatedPrimeTable.constructor | googletest/googletest/samples/prime_tables.h:80-84 | the table is correct up to its maximum |
| PrimeTables.CompositeMarksNothing | googletest/googletest/samples/prime_tables.h:106-114 | skipping a marked candidate leaves nothing unmarked |
| PrimeTables.EvenMarksNothing | googletest/googletest/samples/prime_tables.h:104-106 | skipping even candidates leaves nothing unmarked |
| PrimeTables.PreCalculatedPrimeTable.IsPrime | googletest/googletest/samples/prime_tables.h:87-89 | true exactly for primes within the table |
| PrimeTables.PreCalculatedPrimeTable.GetNextPrime | googletest/googletest/samples/prime_tables.h:91-97 | the least prime above within the table, else -1 |
| PrimeTables.HybridPrimeTable.IsPrime | googletest/googletest/samples/sample8_unittest.cc:61-66 | true exactly for primes, whichever implementation is asked |
| PrimeTables.HybridPrimeTable.GetNextPrime | googletest/googletest/samples/sample8_unittest.cc:68-74 | the least prime above for every p from zero on; below zero the table shows |
| PrimeTables.IsPrime | googletest/googletest/samples/sample1.cc:45-66 | trial division by two and odd numbers is true exactly for primes |
| IdMaps.BuildIdMaps | phase1_fb15k.py:30-42 | the names that occur are numbered from zero in the order of a dictionary |
| IdMaps.LessMeans | phase1_fb15k.py:40-41 | names are compared by the first place where they differ, and a proper prefix comes first |
| IdMaps.NumberingIsUnique | phase1_fb15k.py:40-41 | the numbering does not depend on the order of the sets |
| IdMaps.RowsToTriples | phase1_fb15k.py:51-56 | rows become triples of numbers, in order |
| IdMaps.TriplesDetermineRows | phase1_fb15k.py:51-56 | the triples determine the rows, and their numbers are in range |
| CsrGraph.BuildCsr | phase1_fb15k.py:65-80 | row i lists exactly the edges out of i in input order; the pointers are monotone; they end at the number of triples exactly if all heads are in range |
| CsrGraph.RowAppended | phase1_fb15k.py:74-78 | a new row leaves the rows before it alone |
| CsrGraph.OneHopIsFilter | phase1_fb15k.py:88-95 | one hop equals filtering the triple list by head and relation |
| CsrGraph.TwoHop | phase1_fb15k.py:97-103 | the keys are exactly the filtered neighbours, each with all its edges |
| CsrGraph.ProfileCountsDegree | phase1_fb15k.py:117-125 | the pointers give the degree |
| CsrGraph.ProfileTwoHop | phase1_fb15k.py:127-135 | random reads count the source and its edges, sequential reads its edges and all walks of two steps, and the total is their sum |
| CsrGraph.WalksAreCounted | phase1_fb15k.py:127-135 | the degrees of the neighbours, with multiplicity, add up to the number of walks of two steps |
| Shuffling.Random.Generate | googletest/googletest/src/gtest.cc:436-450 | the next state and a number within the range |
| Shuffling.DrawIsCongruent | googletest/googletest/src/gtest.cc:436-450 | the new state is congruent to 1103515245 times the old one plus 12345 modulo two to the 31st, and the draw to the new state modulo the range |
| Shuffling.StepIsReversible | googletest/googletest/src/gtest.cc:436-439 | the generator's step is a bijection on its range |
| Shuffling.ShuffleRange | googletest/googletest/src/gtest-internal-inl.h:301-322 | the range is arranged as the generator's draws say; nothing outside it moves and nothing is lost |
| Shuffling.Shuffle | googletest/googletest/src/gtest-internal-inl.h:324-328 | the same for a whole vector |
| Shuffling.ArrangedRearranges | googletest/googletest/src/gtest-internal-inl.h:312-322 | any choices rearrange the range |
| Shuffling.ChoicesAreDetermined | googletest/googletest/src/gtest-internal-inl.h:312-322 | different choices give different arrangements of distinct items |
| Shuffling.EveryArrangementOccurs | googletest/googletest/src/gtest-internal-inl.h:312-322 | every arrangement is the result of some choices |
| TestRegistry.TestSuite.AddTestInfo | googletest/googletest/src/gtest.cc:3045-3048 | a test is added last while the suite is unshuffled |
| TestRegistry.TestSuite.ShuffleTests | googletest/googletest/src/gtest.cc:3159-3161 | the order is arranged as the generator draws, and every test still has its place |
| TestRegistry.TestSuite.UnshuffleTests | googletest/googletest/src/gtest.cc:3164-3168 | the original order is back |
| TestRegistry.UnitTestImpl.GetTestSuite | googletest/googletest/src/gtest.cc:5871-5911 | finds the suite by its name or inserts a new one after the death test suites or at the end, changes no other name, and keeps the registry unshuffled |
| TestRegistry.UnitTestImpl.AddTestSuite | googletest/googletest/src/gtest.cc:5889-5910 | the insertion keeps death test suites first and all names and index vectors apart |
| TestRegistry.UnitTestImpl.AddTestInfo | googletest/googletest/src/gtest-internal-inl.h:672-693 | the test joins the suite of its name, which is inserted at its place if it is new; the tests of the others and the unshuffled registry stay |
| TestRegistry.DeathTestByName | googletest/googletest/src/gtest.cc:186 | the filter for death test suites matches exactly the names that end in `DeathTest` or hold `DeathTest/` |
| TestRegistry.UnitTestImpl.ShuffleTests | googletest/googletest/src/gtest.cc:6483-6495 | both parts of the order are shuffled, then the tests of every suite, from successive states of the generator; the order stays a permutation with death test suites first |
| TestRegistry.UnitTestImpl.ShuffleEachSuite | googletest/googletest/src/gtest.cc:6491-6494 | the order of each suite is arranged by the draws from the state the suites before it leave; the order of the suites stays |
| TestRegistry.EachIsShuffled | googletest/googletest/src/gtest.cc:6491-6494 | every suite's order is arranged by the draws from its own state of the generator and rearranges the old one |
| TestRegistry.UnitTestImpl.UnshuffleTests | googletest/googletest/src/gtest.cc:6498-6505 | the identity is back for suites and tests |
| TestRegistry.OrderMeans | googletest/googletest/src/gtest.cc:6483-6495 | in such an order every number occurs once and those of death test suites come first |
| TestRegistry.UnitTestImpl.EverySuiteRuns | googletest/googletest/src/gtest-internal-inl.h:600-603 | every suite has a place to run in |
| TestRegistry.UnitTestImpl.DeathTestSuitesRunFirst | googletest/googletest/src/gtest-internal-inl.h:600-603 | no suite runs twice and no death test suite after another suite |
| TestRegistry.UnitTestImpl.ReportsFollowTheRun | googletest/googletest/src/gtest-internal-inl.h:586-603 | the two accessors agree exactly if nothing is shuffled |
| TestRegistry.RunAgainstTheReports | googletest/googletest/src/gtest-internal-inl.h:586-603 | two suites of one kind, shuffled from generator state 1, run in the other order than they are reported in |

## Left out

- BipartiteGraphs.MatchMatrix.SetEdge: the matrix is a value, so setting an edge gives a new one; the functions that enumerate or randomise matrices are left out.
- UnorderedElements.MatchAndExplain: matching an element is a function of matcher and element; printouts and explanations are left out.
- OptimalEdits.FillTable: edit costs are exact integers in units of 0.00001 instead of doubles, so rounding is not modelled.
- OptimalEdits.MisjudgedMeansTie: holds for total lengths under 100000, where the parity argument separates the costs.
- UnifiedDiffWriter.CreateUnifiedDiff: hunks are records of header numbers and tagged lines; their formatting as text is not modelled.
- TestSelection.FilterTests: the records of tests are values kept in a sequence of their suite, the sharding variables and the disabled flag are parameters, and their validation is left out.
- TestSelection.FilterSuites: suites carry the fields that the selection reads and writes; those that the order of running needs are in TestRegistry.
- TestFilter.MakeFilter: the partition into wildcard and exact patterns keeps no order, since no answer depends on it.
- RegexMatcher.MatchRepetitionAndRegexAtHead: the repetition bound of the largest machine word is unbounded.
- Expectations.Expectation.ShouldHandleArguments: the result of matching the arguments is a parameter, and the check of the number of actions is left out; sets of expectations are walked in any order.
- Expectations.Expectation.GetActionForArguments: a cardinality is an interval of call counts, and the choice of the action and all messages are left out.
- Utf8.IsValidUTF8: bytes are numbers and bit operations are written as arithmetic; so in WideStrings and Base64.
- Base64.Base64Unescape: ASCII input only; the original indexes its table with a sign-extended character otherwise.
- PrimeTables.PreCalculatedPrimeTable.constructor: a maximum of zero or less is excluded, because the original then writes beyond its table.
- PrimeTables.PreCalculatedPrimeTable.GetNextPrime: searches from below -1 are excluded, because the original then reads before its table.
- PrimeTables.HybridPrimeTable.GetNextPrime: searches from below -1 are excluded if there is a table, as they are for the table; integers are unbounded, so 32-bit overflow of squares and of the search is not modelled.
- CsrGraph.BuildCsr: indices are unbounded instead of 32-bit, arrays are sequences, and ids are in range as the script provides them.
- CsrGraph.TwoHop: the insertion order of the dictionary is not modelled.
- IdMaps.BuildIdMaps: rows come parsed into head, relation and tail; reading and splitting the downloaded lines is left out.
- Expectations.Expectation.After: the check of the order of clauses is left out; an expectation is added to a set of expectations before it is passed.
- TestRegistry.UnitTestImpl.AddTestInfo: the working directory it remembers and the fixture functions of suites are left out; a test is its name.
- TestRegistry.TestSuite.AddTestInfo: the stable sort of the tests by file and line at the start of a run is left out.
- Death test processes, capture of streams, files, sockets, clocks and stack traces: operating system.
- Actions, mock macros, matcher overloads and other templates: selected by the compiler.
- Console, XML and JSON reports, colours, help and failure messages: presentation.
- Mutexes and the global registry of mocks: the functions modelled assume the lock is held.
- The dataset download, numpy statistics and printing of the script.
- The linked-list queue, counter, string class, cardinalities, path normalisation and identifier splitting: they would add only easy members.
