# Verified models of WebKit's keyword compiler, generator, option parser and cairo's report tools

A Dafny model of the algorithms that the repository's other code relies on, and proofs of what they
are for. Code that works in place is modelled in place: a class for the objects and static variables
that change, arrays for the buffers; each method is proved against functions, and the properties are
lemmas about those functions.

* **The keyword compiler** (`KeywordLookupGenerator.py`). `KeywordTrie`, `KeywordWeights` and
  `KeywordWeightSums` define what the passes do to a trie; `KeywordGenerator` is the class `Trie`
  that does it in place. `KeywordCode` is the output: a syntax tree of nested tests with the `COMPARE_n`
  macros on every kind of processor, and an interpreter that crashes on reads outside the buffer.
  `KeywordCompiler` is the code generator with its proof, `KeywordStops` says which keyword lists
  compile, and `KeywordMatcher` puts all of it together: the printed matcher returns a keyword exactly
  when the buffer starts with it and the identifier ends there.
* **The Mersenne Twister** (`mt19937ar.c`). `MersenneWords` has 32-bit words bit by bit,
  `MersenneRecurrence` the infinite sequence of section 26.5.3.2 of ISO/IEC 14882:2011,
  `MersenneSeeding` both seedings, `MersenneTwister` the array that is refilled in place, and
  `MersenneReals` the 53-bit fractions. `MersenneMatrix` and `MersenneNumbers` say what all of its functions
  are in tables of bits and in plain arithmetic.
* **The option parser** (`cairo-boilerplate-getopt.c`). `OptionGrammar` is a one-pass parse after
  guidelines 5, 6 and 10 in section 12.2 of the base definitions of POSIX.1-2017, with operands moved
  behind the options; every command line is the writing of some options, mistakes and operands, and is parsed
  into them. `Getopt` is the parser with its static variables, called again and again.
* **Performance reports** (`cairo-perf-*.c`). `PerfReports`, `PerfGroups` and `PerfPlaces` have what the tools share,
  `PerfDiffFiles` the merge join of an old and a new report, `PerfCompareBackends` the grouping of any
  number of reports, `PerfChart`, `PerfChartTrim` and `PerfChartColor` the chart, `PerfChangeBar` the bars.
* **PPM images** (`cairo-boilerplate.c`). `PpmRows` reads rows and widens three-byte pixels to four
  bytes in the same memory.

Where the code differs from its comments or from what one would expect of it, the model follows the code:

* Line 213 of the generator drops the result of `coalesce()`: the root is never merged away, even when
  it has one child. `KeywordMatcher.Matcher` keeps it.
* A list of keywords compiles only if every keyword comes to a stop (a keyword, or a place where keywords
  part ways) at least every eight characters, as there is no `COMPARE_9`: `KeywordMatcher.CompilesIffStops`,
  and for a keyword on its own `KeywordMatcher.LoneKeywordCompilesIff`.
* `init_by_array` is injective for keys of up to N - 2 words, and for every longer key another one of the
  same length gives the same state: `MersenneSeeding.SeedingByArrayIsInjectiveIff`.
* The option parser departs from the grammar on some command lines; which ones is decided by
  `OptionGrammar.WellFormed`: an argument in a word of its own that starts with a dash, or another `--`
  behind the first operand that follows the delimiter.
* In raw reports an entry that was condensed into another keeps a time of its own, and the grouping tool
  records it if it comes behind the first entry with stats: `PerfGroups.ContributionIsLiveIff`,
  `PerfGroups.CondensedEntryIsAdded` and, over all records, `PerfCompareBackends.OnlyLiveIsRecordedIff`.
* The chart's first walk compares ticks with milliseconds before it converts them, and does not leave out
  entries of no ticks as the second walk does. So the time that the range is made of can differ from the one
  that is drawn, and `PerfChart.WalksAgreeOnTimeIff` says when. If all entries have ticks it is never less, and
  an absolute chart covers all its bars (`PerfChart.RangeCoversBar`, `PerfChart.DrawChart`); with an entry of
  no ticks it is 0 whatever is drawn (`PerfChart.WalksDisagreeOnZero`).
* The grouping tool's array of records is as long as the longest report, which need not be enough for the names
  of all reports: `PerfCompareBackends.CompareReports` says when it is, `PerfCompareBackends.TwoNamesDoNotFit`
  is a case in which it is not.
* The comment on outliers speaks of quartiles and 1.5 times their distance; the code takes the values at
  one and five sixths and 3 times their distance.

## Model

| member | source | states |
|---|---|---|
| KeywordTrie.FindAfterInsert | webkit/JavaScriptCore/KeywordLookupGenerator.py:98-104 | inserting a keyword changes the lookup of that keyword only |
| KeywordTrie.FindAfterInsertAll | webkit/JavaScriptCore/KeywordLookupGenerator.py:210-212 | after all insertions every string has the token of its last insertion, or none |
| KeywordTrie.FindAfterCoalesce | webkit/JavaScriptCore/KeywordLookupGenerator.py:106-121 | merging chains keeps the lookup of every string |
| KeywordTrie.FindAtAfterCoalesce | webkit/JavaScriptCore/KeywordLookupGenerator.py:112-121 | the same for a node that is itself merged with its only child, lookup starting in front of its prefix |
| KeywordTrie.CoalesceShape | webkit/JavaScriptCore/KeywordLookupGenerator.py:106-121 | siblings still differ in their first characters, so no dictionary entry is overwritten, and no valueless node with one child is left |
| KeywordWeights.StableOrderIsPermutation | webkit/JavaScriptCore/KeywordLookupGenerator.py:132 | the sort is a permutation into non-increasing weight |
| KeywordWeights.FindIgnoresSiblingOrder | webkit/JavaScriptCore/KeywordLookupGenerator.py:132 | no order of siblings changes any lookup |
| KeywordWeights.FillOutShape | webkit/JavaScriptCore/KeywordLookupGenerator.py:123-133 | every full prefix is the path from the root, siblings are in non-increasing weight, and merged tries stay merged |
| KeywordWeights.FindAfterFillOut | webkit/JavaScriptCore/KeywordLookupGenerator.py:123-133 | weighing and sorting keep the lookup of every string |
| KeywordWeightSums.FillOutSumsWeights | webkit/JavaScriptCore/KeywordLookupGenerator.py:125-133 | if only keywords are weighted, each node's weight is the sum over the keywords below it |
| KeywordWeightSums.WeightAdds | webkit/JavaScriptCore/KeywordLookupGenerator.py:125-133 | for any table: one more weighted word adds its weight once to every node at or above the node it names, and to no other |
| KeywordCode.PackedConstants | webkit/JavaScriptCore/KeywordLookupGenerator.py:232-254 | each character of a packed constant is at its own shift |
| KeywordCode.TestIsComparison | webkit/JavaScriptCore/KeywordLookupGenerator.py:217-297 | each macro compares its characters one by one, on aligned-access, big-endian and both little-endian processors, for 8-bit and 16-bit characters, and reads nothing else |
| KeywordCompiler.TestIsSuffix | webkit/JavaScriptCore/KeywordLookupGenerator.py:147-152 | a test compares the end of the child's full prefix, backed up by one for three characters, so three are only compared at the start |
| KeywordCompiler.EdgeTest | webkit/JavaScriptCore/KeywordLookupGenerator.py:147-159 | the test for an edge holds exactly when the buffer goes on with the edge's characters, also when a three-character edge is backed up by one |
| KeywordCompiler.ChainPicksThePath | webkit/JavaScriptCore/KeywordLookupGenerator.py:160-169 | the if-else chain enters exactly the child on the buffer's path |
| KeywordCompiler.RunNode | webkit/JavaScriptCore/KeywordLookupGenerator.py:135-169 | the code of a node returns at its own keyword if the identifier ends there, and otherwise runs the code of the child on the path |
| KeywordCompiler.EmittedCodeIsCorrect | webkit/JavaScriptCore/KeywordLookupGenerator.py:135-169 | the code of a subtree returns its shortest hit in the buffer, falls through if there is none, and never reads out of bounds |
| KeywordStops.ShortEdgesIffStops | webkit/JavaScriptCore/KeywordLookupGenerator.py:106-121 | a merged trie has edges of up to eight characters exactly when all keywords stop every eight characters |
| KeywordStops.NodesIffStops | webkit/JavaScriptCore/KeywordLookupGenerator.py:106-121 | the nodes of a merged trie are its root and the stops of its keywords |
| KeywordStops.MaxLengthCoversKeyword | webkit/JavaScriptCore/KeywordLookupGenerator.py:171-177 | maxLength() is at least the length of each keyword |
| KeywordStops.MaxLengthIsReached | webkit/JavaScriptCore/KeywordLookupGenerator.py:171-177 | some keyword is as long as maxLength() |
| KeywordGenerator.TrieNode.constructor | webkit/JavaScriptCore/KeywordLookupGenerator.py:93-96 | a new node is the empty trie |
| KeywordGenerator.TrieNode.Insert | webkit/JavaScriptCore/KeywordLookupGenerator.py:98-104 | inserting in place is insertion into the trie the nodes stand for |
| KeywordGenerator.TrieNode.Coalesce | webkit/JavaScriptCore/KeywordLookupGenerator.py:106-121 | merging in place leaves the node with merged children and returns the merged node, the same object or a new one |
| KeywordGenerator.TrieNode.FillOut | webkit/JavaScriptCore/KeywordLookupGenerator.py:123-133 | full prefixes, weights and the sorted list are filled in on the existing nodes |
| KeywordGenerator.SortChildren | webkit/JavaScriptCore/KeywordLookupGenerator.py:132 | sorting the list of children by weight, stably and without copying nodes |
| KeywordGenerator.TrieNode.PrintSubTreeAsC | webkit/JavaScriptCore/KeywordLookupGenerator.py:135-169 | the printed code is the code that is proved correct for the trie |
| KeywordGenerator.TrieNode.MaxLength | webkit/JavaScriptCore/KeywordLookupGenerator.py:171-177 | the recursive walk finds the maximum of all full prefix lengths |
| KeywordMatcher.Generate | webkit/JavaScriptCore/KeywordLookupGenerator.py:209-214 | the script as a whole prints the code of the filled-out matcher and one more than its maxLength() |
| KeywordMatcher.MatcherFinds | webkit/JavaScriptCore/KeywordLookupGenerator.py:209-214 | the printed trie holds each keyword with its last token and nothing else |
| KeywordMatcher.MatcherShape | webkit/JavaScriptCore/KeywordLookupGenerator.py:209-214 | all invariants of the passes hold of the printed trie at once |
| KeywordMatcher.CompilesIffShortEdges | webkit/JavaScriptCore/KeywordLookupGenerator.py:147-159 | the code below a node uses only existing macros if and only if no edge is longer than eight characters; a three-character edge with its back-up still is a test of four |
| KeywordMatcher.CompilesIffStops | webkit/JavaScriptCore/KeywordLookupGenerator.py:135-169 | the output uses only existing macros if and only if the keywords stop every eight characters |
| KeywordMatcher.LoneKeywordCompilesIff | webkit/JavaScriptCore/KeywordLookupGenerator.py:154-159 | a keyword on its own compiles if and only if it has at most eight characters, so one of nine does not |
| KeywordMatcher.MatcherReturnsShortest | webkit/JavaScriptCore/KeywordLookupGenerator.py:179-205 | for any keywords and any buffer of maxTokenLength characters, the matcher returns the shortest keyword that qualifies with its token and length, or IDENT |
| KeywordMatcher.AtMostOneQualifies | webkit/JavaScriptCore/KeywordLookupGenerator.py:138-144 | of keywords made of identifier characters at most one qualifies |
| KeywordMatcher.MatcherIsCorrect | webkit/JavaScriptCore/KeywordLookupGenerator.py:98-205 | such a keyword is returned if and only if the buffer starts with it and no identifier character follows |
| KeywordMatcher.OnlyLastTokensMatter | webkit/JavaScriptCore/KeywordLookupGenerator.py:129-132 | weights, order and repetition of keywords never change what the matcher returns |
| KeywordMatcher.MaxTokenLengthIsTight | webkit/JavaScriptCore/KeywordLookupGenerator.py:184-185 | maxTokenLength is one more than the longest keyword, no more and no less |
| KeywordMatcher.MatcherReadsOnlyMaxTokenLength | webkit/JavaScriptCore/KeywordLookupGenerator.py:184-204 | cutting the buffer to maxTokenLength characters changes nothing and crashes nothing, so every read is below it |
| KeywordMatcher.MatcherWeights | webkit/JavaScriptCore/KeywordLookupGenerator.py:123-133 | for distinct keywords the printed trie has summed weights, siblings sorted by them |
| KeywordMatcher.MatcherWeightAdds | webkit/JavaScriptCore/KeywordLookupGenerator.py:123-133 | for any weights: what is weighted counts, once, if it is empty, a keyword, or a place where keywords part ways |
| MersenneWords.TemperIsBijective | webkit/ThirdParty/mt19937ar.c:127-135 | tempering is a bijection on 32-bit words, with the inverse written out |
| MersenneMatrix.TemperIsMatrix | webkit/ThirdParty/mt19937ar.c:127-135 | each of the 32 bits of a tempered word is the sum of the bits that a table lists for it |
| MersenneMatrix.TemperIsLinear | webkit/ThirdParty/mt19937ar.c:127-135 | tempering a sum of words modulo 2 is tempering each |
| MersenneMatrix.TemperOfOneAndTwo | webkit/ThirdParty/mt19937ar.c:127-135 | two images as numbers: 1 is tempered to 0x400091, and 2 to itself |
| MersenneMatrix.TwistIsHalving | webkit/ThirdParty/mt19937ar.c:115-116 | the twist halves even words, takes 1 to 0x9908b0df, and is linear, which is all of it |
| MersenneWords.TwistIsInjective | webkit/ThirdParty/mt19937ar.c:115-116 | different words are twisted to different words |
| MersenneWords.SpliceDetermines | webkit/ThirdParty/mt19937ar.c:115 | a spliced word tells the top bit of the first word and the other bits of the second |
| MersenneNumbers.SpliceIsSum | webkit/ThirdParty/mt19937ar.c:114 | a spliced word is the top half of the first word plus the second word's remainder by 2^31 |
| MersenneNumbers.SequenceIsMt19937 | webkit/ThirdParty/mt19937ar.c:113-122 | each word is made of those 624, 623 and 227 places before it |
| MersenneRecurrence.StepIsInjective | webkit/ThirdParty/mt19937ar.c:113-122 | the 19937 bits before a step can be recovered from those behind it |
| MersenneRecurrence.StepIsFunctional | webkit/ThirdParty/mt19937ar.c:113-122 | the 19937 bits determine those behind the step |
| MersenneRecurrence.WindowsAgreeAlways | webkit/ThirdParty/mt19937ar.c:113-122 | two runs that agree on the window at one time agree on it at every earlier and later time |
| MersenneRecurrence.OutputsDetermineTheRun | webkit/ThirdParty/mt19937ar.c:101-135 | any N consecutive outputs determine every word of the run but the first |
| MersenneRecurrence.NeverAllZero | webkit/ThirdParty/mt19937ar.c:97-122 | a window that is not zero at the start is never zero |
| MersenneNumbers.FoldIsNumber | webkit/ThirdParty/mt19937ar.c:61-90 | a word folded by its shift by 30 is the word with its two low bits toggled by its two high ones |
| MersenneNumbers.NextSeedWordIsNumber | webkit/ThirdParty/mt19937ar.c:61-67 | the next seeded word in plain arithmetic: the folded word times 1812433253, plus the place |
| MersenneNumbers.MixKeyIsNumber | webkit/ThirdParty/mt19937ar.c:82-84 | a step of the first pass is the word, toggled by 1664525 times the folded one before it, plus the key word and its place |
| MersenneNumbers.MixIndexIsNumber | webkit/ThirdParty/mt19937ar.c:90-92 | a step of the second pass is the word, toggled by 1566083941 times the folded one before it, minus its place |
| MersenneNumbers.MixingWithZero | webkit/ThirdParty/mt19937ar.c:82-92 | with 0 before it, a word is counted up by key word and place, or down by its place |
| MersenneNumbers.ArrayStateIsMixing | webkit/ThirdParty/mt19937ar.c:75-98 | the state is the end of one sequence in which each word is mixed from those 623 places and 1 place before it, with 2^31 in front |
| MersenneSeeding.SeedStateIsNotZero | webkit/ThirdParty/mt19937ar.c:57-69 | no seed gives the zero window |
| MersenneSeeding.ArrayStateIsNotZero | webkit/ThirdParty/mt19937ar.c:97 | no key gives the zero window |
| MersenneSeeding.FirstPassIsInjective | webkit/ThirdParty/mt19937ar.c:81-88 | after the first pass every key of up to N - 2 words can be recovered |
| MersenneSeeding.SecondPassIsInjective | webkit/ThirdParty/mt19937ar.c:89-95 | the second pass with its copies into mt[0] loses nothing but mt[0] |
| MersenneSeeding.LongKeysCollide | webkit/ThirdParty/mt19937ar.c:80-97 | each key of N - 1 words or more has a different key of the same length with the same final state |
| MersenneSeeding.SeedingByArrayIsInjectiveIff | webkit/ThirdParty/mt19937ar.c:75-98 | for keys of a fixed length the final state determines the key if and only if the length is at most N - 2 |
| MersenneTwister.Generator.constructor | webkit/ThirdParty/mt19937ar.c:53-54 | before any seeding the run continues from the default seed |
| MersenneTwister.Generator.InitGenrand | webkit/ThirdParty/mt19937ar.c:57-69 | the array becomes the state of the seed, and a run starts from it |
| MersenneTwister.Generator.InitByArray | webkit/ThirdParty/mt19937ar.c:75-98 | both passes over the array in place, ending in the state of the key |
| MersenneTwister.Generator.Refill | webkit/ThirdParty/mt19937ar.c:113-124 | overwriting the block yields the next N words of the infinite sequence, although later places read overwritten ones |
| MersenneTwister.Generator.ArrayIsNeverZero | webkit/ThirdParty/mt19937ar.c:97-122 | in every state after a seeding the bits of the array mt that count are not all zero |
| MersenneTwister.Generator.DrawWord | webkit/ThirdParty/mt19937ar.c:106-127 | drawing from the block, refilled or seeded when needed, gives the words of the infinite sequence in turn |
| MersenneTwister.Generator.GenrandInt32 | webkit/ThirdParty/mt19937ar.c:101-136 | the n-th call after any seeding, or none, returns the tempered word N + n of the infinite sequence |
| MersenneTwister.Generator.GenrandRes53 | webkit/ThirdParty/mt19937ar.c:166-170 | two draws of the run make one fraction |
| MersenneReals.Res53TellsItsBits | webkit/ThirdParty/mt19937ar.c:165-170 | the fraction is a multiple of 2^-53 in [0, 1) from which all 53 bits can be read back |
| OptionGrammar.ParseInterleaves | WebKitLibraries/cairo/boilerplate/cairo-boilerplate-getopt.c:70-91 | options and operands interleave to the command line, each in its original order |
| OptionGrammar.InterleavingIsPermutation | WebKitLibraries/cairo/boilerplate/cairo-boilerplate-getopt.c:70-91 | an interleaving has the words of both parts, each as often |
| OptionGrammar.ParseWritten | WebKitLibraries/cairo/boilerplate/cairo-boilerplate-getopt.c:155-230 | flags and at most one option with an argument in a word, attached or in the next word, stray letters, missing arguments and operands, written out as a command line, are parsed back; and which such lines the program follows |
| OptionGrammar.EveryLineIsWritten | WebKitLibraries/cairo/boilerplate/cairo-boilerplate-getopt.c:155-230 | every command line is one that can be written so |
| OptionGrammar.KindOfLetter | WebKitLibraries/cairo/boilerplate/cairo-boilerplate-getopt.c:161-186 | none, one or two colons behind the first place of a letter in the option string decide its kind, also at the end of the string |
| OptionGrammar.UnknownIff | WebKitLibraries/cairo/boilerplate/cairo-boilerplate-getopt.c:161-175 | exactly the letters that the option string does not have are unknown |
| OptionGrammar.IllFormedExamples | WebKitLibraries/cairo/boilerplate/cairo-boilerplate-getopt.c:118-122 | command lines that the program does not parse by the grammar, and one with two delimiters that it does |
| Getopt.Parser.IncrementIndex | WebKitLibraries/cairo/boilerplate/cairo-boilerplate-getopt.c:57-67 | the next word, or the one behind the argument that was looked up |
| Getopt.Parser.PermuteArgvOnce | WebKitLibraries/cairo/boilerplate/cairo-boilerplate-getopt.c:74-91 | the present word joins the operands at the end in order, unless only operands are left |
| Getopt.Parser.LookUpArgument | WebKitLibraries/cairo/boilerplate/cairo-boilerplate-getopt.c:188-197 | the next word is found if it does not start with a dash, and an argument never starts with one |
| Getopt.Parser.GetOpt | WebKitLibraries/cairo/boilerplate/cairo-boilerplate-getopt.c:94-243 | one call reports the grammar's next item, or -1 with argv[optind..] the operands, and regroups argv, whenever that step is tame |
| Getopt.Parser.CompareCall | WebKitLibraries/cairo/boilerplate/cairo-boilerplate-getopt.c:94-243 | a call agrees with the grammar if and only if the step is tame |
| Getopt.Parser.CallAtEnd | WebKitLibraries/cairo/boilerplate/cairo-boilerplate-getopt.c:124-128 | at the end every further call returns -1 and changes nothing |
| Getopt.Parser.CompareWithGrammar | WebKitLibraries/cairo/perf/cairo-perf-micro.c:366-370 | a client's loop agrees with the one-pass parse if and only if the command line is well formed, and then argv is the options followed by the operands |
| PerfReports.SkipDead | WebKitLibraries/cairo/perf/cairo-perf-diff-files.c:257-263 | every cursor stops at the next entry with stats, and the open reports are counted |
| PerfReports.FindMin | WebKitLibraries/cairo/perf/cairo-perf-diff-files.c:268-282 | the least of all current entries |
| PerfReports.TimeTimesPace | WebKitLibraries/cairo/perf/cairo-perf-diff-files.c:292-294 | a time at the test's pace is the test's ticks, or the time is the ticks themselves |
| PerfReports.Record | WebKitLibraries/cairo/perf/cairo-perf-diff-files.c:291-304 | a test is added to a record, and the least and greatest times so far stay true |
| PerfReports.FinishRecord | WebKitLibraries/cairo/perf/cairo-perf-diff-files.c:295-308 | a filled record has the extreme times of its tests, attained and positive, and the change is their quotient |
| PerfReports.LiveNamesAreUnique | WebKitLibraries/cairo/perf/cairo-perf-chart.c:162-176 | the list of names with stats, each once and in order, is unique |
| PerfDiffFiles.ChangeIsAntisymmetric | WebKitLibraries/cairo/perf/cairo-perf-diff-files.c:325-327 | swapping the reports negates the change, which is 1 just for equal times and never below 1 in size |
| PerfDiffFiles.ChangeOfTests | WebKitLibraries/cairo/perf/cairo-perf-diff-files.c:319-327 | the faster test times the change is the slower one, negated for slowdowns, in ticks or in ticks at the product of both paces |
| PerfDiffFiles.PairChange | WebKitLibraries/cairo/perf/cairo-perf-diff-files.c:319-327 | the recorded change is that factor from the old time to the new one |
| PerfDiffFiles.SpeedupsDescend | WebKitLibraries/cairo/perf/cairo-perf-diff-files.c:50-84 | on recorded changes the comparator with its cases is the descending order |
| PerfDiffFiles.RecordCurrent | WebKitLibraries/cairo/perf/cairo-perf-diff-files.c:284-308 | exactly the current entries of the least name are recorded, and only their cursors move |
| PerfDiffFiles.TakeNext | WebKitLibraries/cairo/perf/cairo-perf-diff-files.c:264-331 | one round keeps the join complete up to one more name, with at most one record, inside the array |
| PerfDiffFiles.CompareReports | WebKitLibraries/cairo/perf/cairo-perf-diff-files.c:223-332 | the records are exactly the common tests, old entry first, in order and within max_diffs, and the messages are one for each lone entry before the end of the other report, in order |
| PerfGroups.ContributionIsLiveIff | WebKitLibraries/cairo/perf/cairo-perf-compare-backends.c:222-246 | a report adds exactly its entries with stats to a group if and only if no timed entry without stats follows one |
| PerfGroups.CondensedEntryIsAdded | WebKitLibraries/cairo/perf/cairo-perf-compare-backends.c:225-246 | a raw entry that was condensed into the one before it is added with its own time |
| PerfGroups.ContributionKeepsLive | WebKitLibraries/cairo/perf/cairo-perf-compare-backends.c:225-246 | whatever else a report adds to a group, its entries with stats of the name are added, each once and in order |
| PerfGroups.CollectElements | WebKitLibraries/cairo/perf/cairo-perf-compare-backends.c:225-246 | a group holds entries of its name only |
| PerfPlaces.ContributionPlaces | WebKitLibraries/cairo/perf/cairo-perf-compare-backends.c:225-246 | a report adds exactly the entries of the name that have a time and stand at or behind one with stats, in its order |
| PerfPlaces.GroupPlaces | WebKitLibraries/cairo/perf/cairo-perf-compare-backends.c:222-247 | a group is exactly these entries of all reports, report by report |
| PerfGroups.NextLeast | WebKitLibraries/cairo/perf/cairo-perf-compare-backends.c:184-205 | the walk visits the live names in order and stops when there are no more |
| PerfCompareBackends.CountTests | WebKitLibraries/cairo/perf/cairo-perf-compare-backends.c:207-220 | the count pass adds up the runs of the name |
| PerfCompareBackends.FillFrom | WebKitLibraries/cairo/perf/cairo-perf-compare-backends.c:226-246 | the fill pass takes a run test by test, adding those with a time, no more than were counted |
| PerfCompareBackends.FillGroup | WebKitLibraries/cairo/perf/cairo-perf-compare-backends.c:222-247 | the record is not empty, holds what all reports contribute to the name, and has their true extremes |
| PerfCompareBackends.EveryLiveEntryIsRecordedOnce | WebKitLibraries/cairo/perf/cairo-perf-compare-backends.c:177-251 | over all recorded groups, every entry with stats of every report is recorded exactly once |
| PerfCompareBackends.OnlyLiveIsRecordedIff | WebKitLibraries/cairo/perf/cairo-perf-compare-backends.c:225-246 | the records hold nothing else if and only if no timed entry without stats follows one with stats of the same name |
| PerfCompareBackends.MaxDiffs | WebKitLibraries/cairo/perf/cairo-perf-compare-backends.c:167-174 | the length of the array of records is that of the longest report |
| PerfCompareBackends.OneReportSuffices | WebKitLibraries/cairo/perf/cairo-perf-compare-backends.c:167-174 | the array is long enough if one of the reports has all the names |
| PerfCompareBackends.TwoNamesDoNotFit | WebKitLibraries/cairo/perf/cairo-perf-compare-backends.c:167-174 | for any two reports of one test each, with different names, it is not |
| PerfCompareBackends.CompareReports | WebKitLibraries/cairo/perf/cairo-perf-compare-backends.c:153-251 | one record of what the reports contribute for each live name, in strictly increasing order; all records are inside the array if and only if there are no more live names than the longest report has entries, and then they hold every entry with stats exactly once |
| PerfChart.RangeTimeIsLeast | WebKitLibraries/cairo/perf/cairo-perf-chart.c:194-207 | the first walk's time is the least of those it converts |
| PerfChart.BarTimeIsLeast | WebKitLibraries/cairo/perf/cairo-perf-chart.c:878-890 | the second walk's time is the least of the positive ones |
| PerfChart.WalksAgreeOnTimeIff | WebKitLibraries/cairo/perf/cairo-perf-chart.c:194-207 | for runs of non-negative ticks both are the same if and only if no entry has zero ticks and a fastest entry comes first or has fewer ticks than the milliseconds found before it |
| PerfChart.RangeCoversBar | WebKitLibraries/cairo/perf/cairo-perf-chart.c:194-207 | if all entries of a run have ticks, the first walk's time is never below the one drawn |
| PerfChart.WalksAgreeIfClearlyFastest | WebKitLibraries/cairo/perf/cairo-perf-chart.c:194-207 | in a run without zero ticks they are the same, if a fastest entry has fewer ticks than each entry before it has milliseconds |
| PerfChart.WalksAgreeOnlyIfBelowFirst | WebKitLibraries/cairo/perf/cairo-perf-chart.c:194-207 | they are the same only if no entry has zero ticks and a fastest entry is the first or has fewer ticks than the first has milliseconds |
| PerfChart.WalksDisagree | WebKitLibraries/cairo/perf/cairo-perf-chart.c:199-205 | an example where they are not |
| PerfChart.WalksDisagreeOnZero | WebKitLibraries/cairo/perf/cairo-perf-chart.c:199-205 | any condensed entry of no ticks behind a timed one makes the first walk's time 0 and leaves the drawn one |
| PerfChart.FindRanges | WebKitLibraries/cairo/perf/cairo-perf-chart.c:133-256 | the column count is the number of live names, plus one in relative mode; each report's count is that of the groups it has a time for; the range of an absolute chart goes from 0 to the extreme times that the walk takes, no further |
| PerfChart.DrawColumns | WebKitLibraries/cairo/perf/cairo-perf-chart.c:807-934 | the columns are those of the live names in order, with the least time of each report that has one |
| PerfChart.DrawChart | WebKitLibraries/cairo/perf/cairo-perf-chart.c:1075-1088 | exactly as many columns are drawn as were counted, and as many bars of each report as its average is over; in an absolute chart of entries that all have ticks every bar is within the range |
| PerfChartTrim.OrderIsUnique | WebKitLibraries/cairo/perf/cairo-perf-chart.c:107-108 | there is only one way to sort the values, so any sort gives the same fences |
| PerfChartTrim.InsideIff | WebKitLibraries/cairo/perf/cairo-perf-chart.c:110-116 | of n sorted values those inside are between four times one fence value less three times the other, which have n / 6 and 5 n / 6 values before them |
| PerfChartTrim.TrimOutliers | WebKitLibraries/cairo/perf/cairo-perf-chart.c:87-130 | for values in any order, the range is that of the values inside both fences, which always are some |
| PerfChartColor.HsvToRgb | WebKitLibraries/cairo/perf/cairo-perf-chart.c:267-308 | for every hue the loops end, and the colour is that of the hue modulo 6 and the clamped saturation and value |
| PerfChartColor.ClampIsNearest | WebKitLibraries/cairo/perf/cairo-perf-chart.c:281-289 | saturation and value are taken to the nearest number from 0 to 1 |
| PerfChartColor.HsvIsPeriodic | WebKitLibraries/cairo/perf/cairo-perf-chart.c:276-279 | whole turns do not change the colour, also at hue 6 which has a sector of its own |
| PerfChartColor.Extremes | WebKitLibraries/cairo/perf/cairo-perf-chart.c:281-307 | the brightest component is the value, the darkest the value times one minus the saturation |
| PerfChartColor.HsvCanBeRead | WebKitLibraries/cairo/perf/cairo-perf-chart.c:291-307 | hue, saturation and value can be read back off every colour that is not grey |
| PerfChartColor.SameColorIff | WebKitLibraries/cairo/perf/cairo-perf-chart.c:291-307 | two settings give the same colour if and only if they are the same but for the hue of grey and the hue and saturation of black |
| PerfChartColor.ReportColorIs | WebKitLibraries/cairo/perf/cairo-perf-chart.c:310-316 | each report's colour has brightness and saturation 0.7 and the report's hue |
| PerfChartColor.ReportHueIs | WebKitLibraries/cairo/perf/cairo-perf-chart.c:310-316 | the hues of the reports are equally far apart, once around |
| PerfChartColor.ReportColorsDiffer | WebKitLibraries/cairo/perf/cairo-perf-chart.c:310-316 | no two reports of a chart have the same colour |
| PerfChangeBar.UnitsAreLeast | WebKitLibraries/cairo/perf/cairo-perf-diff-files.c:110 | a cell stands for the least whole number of units with which 70 cells are enough for the largest change |
| PerfChangeBar.PrintChangeBar | WebKitLibraries/cairo/perf/cairo-perf-diff-files.c:104-147 | the loop ends, at most 70 cells are printed up to the largest change, and the bar has as many eighths as the change above 1, rounded, a half down |
| PerfChangeBar.BarIsUnique | WebKitLibraries/cairo/perf/cairo-perf-diff-files.c:104-147 | there is only one such bar |
| PerfChangeBar.FindMaxChange | WebKitLibraries/cairo/perf/cairo-perf-diff-files.c:342-346 | the largest change bounds the size of every recorded change, and is 1 or one of them |
| PerfChangeBar.PrintBinary | WebKitLibraries/cairo/perf/cairo-perf-diff-files.c:152-180 | each bar of an old report against a new one shows the size of its change, scaled to the largest, within 70 cells |
| PerfChangeBar.ChangeOfTest | WebKitLibraries/cairo/perf/cairo-perf-diff-files.c:204-208 | the factor from each test of a record to its slowest one is at least 1 and at most the recorded change |
| PerfChangeBar.PrintGroups | WebKitLibraries/cairo/perf/cairo-perf-diff-files.c:183-220 | each bar of each test of each record shows the factor from the test to the slowest one, scaled to the largest change, within 70 cells |
| PpmRows.Store | WebKitLibraries/cairo/boilerplate/cairo-boilerplate.c:1018-1019 | storing a word on either byte order and loading it gives it back |
| PpmRows.OnePixel | WebKitLibraries/cairo/boilerplate/cairo-boilerplate.c:1016-1020 | writing a pixel leaves all bytes that are still to be read and all pixels behind it |
| PpmRows.PackedIsPixel | WebKitLibraries/cairo/boilerplate/cairo-boilerplate.c:1018-1019 | a packed word has blue, green, red and 0 in its bytes on little-endian processors, the reverse on others |
| PpmRows.WidenRow | WebKitLibraries/cairo/boilerplate/cairo-boilerplate.c:1015-1020 | the four bytes of every pixel are those of the original row in the processor's order, and nothing outside the row changes |
| PpmRows.FreadN | WebKitLibraries/cairo/boilerplate/cairo-boilerplate.c:955-973 | it succeeds just when the file has the bytes, and then they are in place |
| PpmRows.ReadRows | WebKitLibraries/cairo/boilerplate/cairo-boilerplate.c:1005-1027 | reading succeeds if and only if the file has all rows, each pixel at 4 x + y stride (or x + y stride) then has the bytes of the pixel y width + x of the file; in either case no byte between the rows or behind them changes |

## Left out

* The keyword file's syntax (`parseKeywords`), file and standard output, indentation and the text around the tests: keywords are given as a list, the output is a syntax tree.
* The table of observed word weights: it is a parameter, and so is the lexer's `isIdentPart`. The field `selfWeight` is not kept, as nothing reads it.
* The order in which Python 2 walks a dictionary: it is insertion order here. `KeywordMatcher.OnlyLastTokensMatter` shows that no order of insertion changes the matcher.
* `UCHARQUAD_TOUINT64` on big-endian processors, which does not expand to an expression and is used on X86_64 only.
* Keywords outside of ASCII: the generator prints them between quotes as they are.
* `internalShift` and the identifier created by the generated lexer code: the model returns the shift and the name.
* Bits of `unsigned long` above the 32nd: every store masks them, so words are 32 bits. Key words are taken as 32-bit words.
* `genrand_int31` and `genrand_real1` to `genrand_real3`: one division or shift of a word that is modelled.
* MersenneTwister.Generator.GenrandRes53: exact numbers instead of `double`, which has exactly the 53 bits for it.
* The modes of the option parser for option strings that start with `+` or `-`, the variable POSIXLY_CORRECT, and messages on standard error.
* OptionGrammar.WellFormed: after the first call that departs from the grammar nothing is claimed about the calls behind it.
* Command lines with an argv that is longer than argc, empty, or replaced between calls by another of the same length at the same address.
* Getopt.Parser.CompareWithGrammar: the client's own work with the options is not part of it.
* Loading and parsing of reports; names are ranks in the order of the comparator that the tool sorts by, `test_report_cmp_name` or `test_report_cmp_backend_then_name`.
* Rounding of times, changes and colours: numbers are exact.
* PerfDiffFiles.CompareReports: two reports, the case in which the tool joins an old with a new report; the grouping of more reports in this tool is not modelled.
* PerfCompareBackends.CompareReports: a record that does not fit into the array is not stored; what the program would do is not modelled.
* PerfChart.DrawColumns: the walk that finds the best time of a column for the printed table, and restores the cursors, is not part of it.
* PerfChart.FindRanges: averages and sums, and the factors that the range of a relative chart is made of; the range of an absolute chart and the trimming are modelled.
* PerfChartTrim.TrimOutliers: the library sort is an insertion into a sorted sequence, and the caller's array is not reordered.
* `qsort`, the headings, the thresholds for printing, and all drawing.
* PerfChangeBar.PrintChangeBar: the boxes are numbers; the strings for them are tables.
* PpmRows.FreadN: a read comes up short only at the end of the file, in which case the bytes read so far stay in the row.
* Header of PPM files, creation of surfaces, and the alignment of 32-bit stores.
* The other cairo back ends and boilerplate, drivers over JavaScriptCore and generated declarations: wrappers around libraries that are not part of this model.
