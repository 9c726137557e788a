# fstalign word alignment core, modelled in Dafny

fstalign aligns a reference transcript against a hypothesis transcript and reports the word error
rate (WER). Both transcripts become token graphs: linear chains, with branches for entity
normalisations and synonyms. A Levenshtein pre-pass marks tokens that surely match. A lazily built
composition of the two graphs is then searched best-first for the cheapest alignment. The best path
is read back into a `wer_alignment` with nested entity sections. It is flattened into stitches
and matched with the rows of the NLP input. Finally it is counted per speaker, per speaker
switch, per tag, by casing and per word and bigram.

This project models that core with the source's own structure:

| file | models |
|---|---|
| `wrappers.dfy` | `Option`/`Result` and small sequence lemmas |
| `strings.dfy` | the label and string helpers of `src/utilities.cpp` |
| `alignment.dfy` | `wer_alignment` (`src/utilities.h`) and `get_bigrams` |
| `fst.dfy` | the transducer values and the `StdVectorFst` mutators the loaders use |
| `symbols.dfy` | the symbol table and `FstAlignOption` |
| `fastd.dfy` | the Levenshtein pre-pass of `src/fast-d.cpp` on arrays |
| `loaders.dfy` | the one-best, CTM and NLP graph builders |
| `nlpfields.dfy` | the NLP field parsers |
| `synonyms.dfy` | the synonym engine |
| `composition.dfy` | the lazy composed graph of `src/AdaptedComposition.cpp` |
| `pathheap.dfy` | the search frontier of `src/PathHeap.h`/`src/PathHeap.cpp` |
| `walker.dfy` | the layered best-first walk and the alignment backtrack of `src/Walker.cpp` |
| `traversor.dfy` | the `AlignmentTraversor` cursor |
| `stitching.dfy` | `make_stitches` and `align_stitches_to_nlp` |
| `fstalign.dfy` | the match-map relaxation and best-alignment selection of `Fstalign` |
| `wer.dfy` | the counting loops of `src/wer.cpp` |

Pure code is written as functions and lemmas. Code that updates state step by step is written as
methods: classes for objects whose fields change, arrays for the fast-d tables, and `while`/`for`
loops with invariants. Where a method computes something, its postcondition ties the result or
the new state to a specification function of the inputs, and the properties the source promises
are lemmas about that function. Constructors and the small mutators of the data model state their
new state outright. Some of the properties are only proved for restricted inputs; "## Left out"
lists them. Floats are modelled as integers or exact ratios where they matter; composition costs
are doubled to integers (insertion 2, deletion 2, substitution 3).

## Model

| member | source | states |
|---|---|---|
| Strings.FindFrom | src/utilities.cpp:128-129 | `std::string::find`: a found position is an occurrence at or after the start with none before it; npos (None) means no occurrence from the start on |
| Strings.FindIsFirst | src/utilities.cpp:184 | the first occurrence is the one `find` returns |
| Strings.FoundIffContains | src/utilities.cpp:128-129 | `find` succeeds exactly when the pattern occurs |
| Strings.FindCharSpec | src/utilities.cpp:203 | a one-character `find` returns the first such character, and none means it does not occur |
| Strings.FindCharFirst | src/utilities.cpp:203 | the first occurrence of a character is the one found |
| Strings.IsEntityLabel | src/utilities.cpp:184 | `isEntityLabel` holds exactly when the token starts with `___` |
| Strings.IsSynonymLabel | src/utilities.cpp:186-189 | every synonym label is an entity label |
| Strings.IsSynonymLabelIff | src/utilities.cpp:186-189 | `isSynonymLabel` holds exactly when the token starts with `___` and contains `_SYN_` |
| Strings.NoisecodeShape | src/utilities.cpp:191 | the first `>` is the last character exactly when the token ends in `>` and has no earlier `>` |
| Strings.IsNoisecodeToken | src/utilities.cpp:191 | `IsNoisecodeToken` holds exactly when the token starts with `<` and its only `>` is its last character |
| Strings.ReplaceChar | src/utilities.cpp:233 | `std::replace` keeps the length and swaps exactly the replaced character |
| Strings.GetClassLabel | src/utilities.cpp:227-235 | `GetClassLabel("")` is `""`; otherwise the result is an entity label six characters longer with no `:` left |
| Strings.ClassLabelShape | src/utilities.cpp:227-235 | the class label of `id:name` is `___id_name___`, with every `:` of the name turned into `_` |
| Strings.UnderscoreAfterId | src/utilities.cpp:203-205 | the first `_` of `id_rest` is the one after an id without `_` |
| Strings.ClassLabelRoundTrip | src/utilities.cpp:193-235 | `getLabelIdFromToken` and `GetLabelNameFromClassLabel` give back the id and the name a class label was built from |
| Strings.IsValidNgramIff | src/utilities.cpp:127-134 | `isValidNgram` is false exactly when the token contains `<ins>`, `<del>`, `<eps>` or `___` |
| Strings.NgramPart | src/utilities.cpp:161-166 | a pattern absent from `a b` is absent from both words |
| Strings.ValidNgramParts | src/utilities.cpp:161-176 | a valid bigram is made of valid words, and its first word is not an entity label |
| Strings.TerminatedHead | src/utilities.cpp:121 | the ostream copy writes the first element and a separator, then the rest |
| Strings.StringJoinIsJoinRef | src/utilities.cpp:113-125 | `string_join` equals the head-first join: `[]` gives `""`, `[x]` gives `x`, otherwise the elements with one separator between each and none trailing |
| Strings.JoinPair | src/utilities.cpp:162-163 | joining two words gives `a + sep + b` |
| Strings.StringJoinLength | src/utilities.cpp:113-125 | the joined length is the sum of the element lengths plus one separator per gap |
| Strings.LowerString | src/utilities.cpp:248-249 | character-wise `tolower`, same length |
| Strings.UpperLowerAgree | src/utilities.cpp:62 | two characters agree under `toupper` exactly when they agree under `tolower` |
| Strings.EqualFrom | src/utilities.cpp:61-74 | the `std::equal` scan with `iequal` holds exactly when every remaining position agrees under `toupper` |
| Strings.UpperEqualIffLowerEqual | src/utilities.cpp:61-74 | comparing under `toupper` at every position is comparing the lower-cased strings |
| Strings.IEquals | src/utilities.cpp:65-75 | `iequals` holds exactly when the lengths agree and the lower-cased strings are equal |
| Strings.UpperUpperEqualIff | src/utilities.cpp:70-74 | the `str1 == str2` shortcut does not change the answer |
| Strings.IEqualsSymmetric | src/utilities.cpp:65-75 | `iequals` is symmetric |
| Strings.TailEqual | src/utilities.cpp:248-249 | the reverse scan holds exactly when the last characters agree under `tolower` |
| Strings.TailEqualIffLower | src/utilities.cpp:248-249 | that is the lower-cased suffix equal to the lower-cased ending |
| Strings.EndsWithCaseInsensitive | src/utilities.cpp:244-250 | false when the ending is longer; otherwise true exactly when the value ends with the ending up to case |
| Strings.SkipSpaces | src/utilities.cpp:79 | `find_if` stops at the first non-space at or after the start, or at the end |
| Strings.SkipSpacesSpec | src/utilities.cpp:79 | everything it skips is whitespace |
| Strings.BackSpaces | src/utilities.cpp:84 | the reverse `find_if` stops after the last non-space before the end |
| Strings.BackSpacesSpec | src/utilities.cpp:84 | everything it skips is whitespace |
| Strings.LTrim | src/utilities.cpp:78-80 | `ltrim` leaves a suffix of the string that does not start with whitespace |
| Strings.LTrimSpaces | src/utilities.cpp:78-80 | what `ltrim` erases is whitespace |
| Strings.RTrim | src/utilities.cpp:83-85 | `rtrim` leaves a prefix of the string that does not end with whitespace |
| Strings.RTrimSpaces | src/utilities.cpp:83-85 | what `rtrim` erases is whitespace |
| Strings.TrimSpec | src/utilities.cpp:88-97 | `trim` leaves a middle slice; everything cut is whitespace and neither end of the result is |
| Strings.TrimEnds | src/utilities.cpp:88-91 | a non-empty trimmed string neither starts nor ends with whitespace |
| Strings.TrimParts | src/utilities.cpp:88-91 | `rtrim` after `ltrim` leaves a slice of the original followed only by whitespace |
| Strings.LTrimNoLeading | src/utilities.cpp:78-80 | `ltrim` changes nothing without leading whitespace |
| Strings.RTrimNoTrailing | src/utilities.cpp:83-85 | `rtrim` changes nothing without trailing whitespace |
| Strings.RTrimKeepsHead | src/utilities.cpp:83-85 | `rtrim` keeps a non-blank first character |
| Strings.TrimIdempotent | src/utilities.cpp:88-97 | trimming twice is trimming once |
| Alignment.Wer | src/utilities.h:95-106 | `WER()`: errors over reference words when there are any; +infinity exactly when there are no reference words but some hypothesis words; 0 when both are empty; the ratio is 0 exactly when there are no errors |
| Alignment.Rev | src/utilities.h:109-114 | `std::reverse`: same length, element i comes from the mirrored position |
| Alignment.RevRev | src/utilities.h:109-114 | reversing twice gives back the vector |
| Alignment.RevMultiset | src/utilities.h:109-114 | reversal keeps the elements |
| Alignment.Reverse | src/utilities.h:108-118 | `Reverse()` keeps the class label, every counter, the bigram tallies and the elements of the tokens, and the number of nested alignments |
| Alignment.ReverseTwice | src/utilities.h:108-118 | reversing twice gives back the alignment, nested sections included |
| Alignment.BigramPairs | src/utilities.cpp:161-180 | one pair per pair of consecutive flattened tokens: the reference words joined by a space and the hypothesis words joined by a space |
| Alignment.TallyCounts | src/utilities.cpp:166-177 | a valid n-gram's tally grows by its number of occurrences; an invalid one is never counted or added |
| Alignment.Firsts | src/utilities.cpp:161-163 | the reference side of each pair, in order |
| Alignment.Seconds | src/utilities.cpp:170-171 | the hypothesis side of each pair, in order |
| Alignment.ValidSetMembers | src/utilities.cpp:166-176 | a bigram joins `all_bigrams` exactly when it occurs and is a valid n-gram |
| Alignment.GetBigrams | src/utilities.cpp:136-182 | `get_bigrams` tallies the valid reference and hypothesis bigrams of the flattened tokens into the alignment, appends every bigram pair, and returns the valid bigrams; None exactly when there is no token to pair |
| Alignment.TallyBigrams | src/utilities.cpp:161-180 | the loop of `get_bigrams` is the tally, the append and the set of valid bigrams over all pairs |
| Alignment.BigramWords | src/utilities.cpp:161-176 | each recorded reference bigram is two words joined by a space; a counted one is made of valid, non-entity words |
| Fst.PartialChain | src/Ctm.cpp:46-67 | after i tokens the chain has i + 1 states |
| Fst.ChainGraph | src/Ctm.cpp:46-70 | the finished chain has one state more than the tokens |
| Fst.ChainStep | src/Ctm.cpp:54-66 | one more token puts one arc on the old last state and adds a fresh empty state |
| Fst.ChainFinals | src/Ctm.cpp:69 | the last state of a chain is its only final state |
| Fst.ChainArc | src/Ctm.cpp:58-62 | the state k of a chain has exactly the arc for token k |
| Fst.ChainWalk | src/Ctm.cpp:46-70 | from state k, the walk along the only arcs reads the remaining labels, sums the remaining weights and ends in the final state |
| Fst.ChainOnlyPath | src/Ctm.cpp:46-70 | and it is the only walk from k that reaches a final state |
| Fst.VectorFst.AddState | src/Ctm.cpp:46 | `AddState` adds a state with no arcs that is not final; its id is the old number of states |
| Fst.VectorFst.AddArc | src/Ctm.cpp:58-62 | `AddArc` appends one arc to one state and changes nothing else |
| Fst.VectorFst.SetStart | src/Ctm.cpp:47 | `SetStart` changes the start state only |
| Fst.VectorFst.SetFinal | src/Ctm.cpp:69 | `SetFinal` sets one state's final weight only |
| Symbols.IndexOf | src/utilities.h:165 | `SymbolTable::Find`: -1 exactly for a missing symbol, otherwise a position holding it |
| Symbols.IndexOfFirst | src/utilities.h:165 | the position found is the first |
| Symbols.IndexOfPrefix | src/utilities.h:165-167 | adding symbols keeps the key of every symbol already present |
| Symbols.KeysOfStep | src/utilities.h:165-203 | adding a missing symbol keeps every key already handed out and names the new one |
| Symbols.SymbolTable.KeyIsIndex | src/utilities.h:165 | in a table without duplicates a symbol's key is its position |
| Symbols.SymbolTable.FindName | src/utilities.h:165 | keys and names are inverse |
| Symbols.SymbolTable.AddSymbol | src/utilities.h:167 | `AddSymbol` returns the existing key of a known symbol; otherwise it appends the symbol with the next key |
| Symbols.SymbolTable.AddSymbolIfNeeded | src/OneBestFstLoader.cpp:34-44 | the symbol is added exactly when it is missing |
| Symbols.WithAllSpec | src/utilities.h:162-204 | registering a list keeps the old table as a prefix, contains exactly the old and listed symbols, and adds nothing when all are present |
| Symbols.WithAllSnoc | src/utilities.h:162-204 | registering one more symbol is one more find-or-add |
| Symbols.FstAlignOption.constructor | src/utilities.h:147-160 | the defaults: no forced entry and exit, costs 0, 3, 3 and 4, and the eight reserved spellings in registration order |
| Symbols.FstAlignOption.RegisterSymbols | src/utilities.h:162-204 | each reserved symbol is found or added in order, and each remembered key names its symbol; the costs are unchanged |
| Symbols.FstAlignOption.RegisterAll | src/utilities.h:162-204 | the table gains the missing symbols of the list in order, and the returned keys name the listed symbols |
| Symbols.FstAlignOption.Register | src/utilities.h:165-168 | find, or add when missing; the key names the symbol |
| Symbols.RegisterTwice | src/utilities.h:162-204 | a second `RegisterSymbols` adds nothing |
| FastD.Min3 | src/fast-d.cpp:14-26 | `min` returns one of its arguments, and none is smaller |
| FastD.LevAdjacent | src/fast-d.cpp:83-113 | neighbouring cells of the Levenshtein table differ by at most one |
| FastD.DIsLev | src/fast-d.cpp:83-113 | the row recurrence (diagonal on equal tokens, otherwise one more than the least neighbour) computes the Levenshtein distance in every cell |
| FastD.DIsLevOnMatch | src/fast-d.cpp:100-101 | on equal tokens the diagonal is never worse than a deletion or an insertion |
| FastD.DIsLevOnMismatch | src/fast-d.cpp:102-103 | on different tokens both recurrences agree |
| FastD.AgreeOnMatch | src/fast-d.cpp:100-101 | on equal tokens the diagonal is the Levenshtein minimum |
| FastD.AgreeOnMismatch | src/fast-d.cpp:102-103 | on different tokens both add one to the least neighbour |
| FastD.DAdjacent | src/fast-d.cpp:83-113 | neighbouring cells of the row table differ by at most one |
| FastD.DSymmetric | src/fast-d.cpp:51-54 | swapping the sequences transposes the table |
| FastD.DSymmetricOnMismatch | src/fast-d.cpp:51-54 | the same at a cell whose tokens differ |
| FastD.DistSymmetric | src/fast-d.cpp:51-54 | the distance is symmetric, so the swap that puts the shorter sequence first does not change it |
| FastD.DistSelf | src/fast-d.cpp:83-113 | a sequence is at distance 0 from itself |
| FastD.DBounds | src/fast-d.cpp:83-113 | every cell lies between the difference and the larger of its two prefix lengths |
| FastD.DBoundsOnMismatch | src/fast-d.cpp:102-103 | the same at a cell whose tokens differ |
| FastD.DZeroOfEqual | src/fast-d.cpp:100-101 | equal prefixes are at distance zero |
| FastD.DZeroOnlyEqual | src/fast-d.cpp:83-113 | only equal prefixes are at distance zero |
| FastD.DZero | src/fast-d.cpp:83-113 | a cell is zero exactly when its prefixes are equal |
| FastD.DistZeroIff | src/fast-d.cpp:47-113 | the distance is zero exactly when the sequences are equal |
| FastD.DAtMostMismatches | src/fast-d.cpp:83-113 | for equal lengths the distance is at most the number of differing positions |
| FastD.OneSubstitution | test/fast-d-tests.cc:7-13 | `{1,2,3,4,5}` against `{1,2,8,4,5}` is at distance 1 |
| FastD.OneSubstitutionSwapped | test/fast-d-tests.cc:11-13 | and the other way round |
| FastD.OneTargetExamples | test/fast-d-tests.cc:33-46 | `{1,2,3,4,5}` against each single token of it, 1 to 5, is at distance 4 |
| FastD.SingleInsertExample | test/fast-d-tests.cc:48-54 | one token inserted in front costs 1 |
| FastD.LeftInsertExamples | test/fast-d-tests.cc:56-66 | ten tokens in front of a common suffix cost 10 |
| FastD.EmptyDistances | src/fast-d.cpp:61-65 | against an empty sequence the distance is the other length |
| FastD.ShorterFirst | src/fast-d.cpp:51-54 | with the longer sequence first, the distance is the table with the sequences swapped |
| FastD.Resize | src/fast-d.cpp:56-59 | `resize(n, -1)` keeps the entries that fit and fills new slots with -1 |
| FastD.Mark | src/fast-d.cpp:159-160 | marking writes 1 into exactly the named slots |
| FastD.SwapPairing | src/fast-d.cpp:51-54 | the pairing of the swapped call is the mirrored pairing, with the map sides exchanged |
| FastD.GetEditDistanceNoMaps | src/fast-d.cpp:28-33 | the two-argument `GetEditDistance` returns the distance |
| FastD.GetEditDistance | src/fast-d.cpp:47-230 | returns the distance; the marked pairs are exactly the backtrack path (`BacktrackMarks`, mirrored when the shorter sequence went first), they link equal tokens without crossing, and the maps are resized to the sequence lengths with 1 written at exactly those pairs |
| FastD.GetEditDistanceOnly | src/fast-d.cpp:236-273 | the single-row variant returns the same distance |
| FastD.FillRows | src/fast-d.cpp:70-108 | the forward pass keeps every row of the table and leaves the last two rows in `distance` and `distancePrev` |
| FastD.NextRow | src/fast-d.cpp:95-106 | one pass of the inner loop turns row j - 1 into row j in place |
| FastD.Cell | src/fast-d.cpp:99-104 | the value of one cell from its three neighbours |
| FastD.CopyRow | src/fast-d.cpp:89 | `std::copy` of one row into the other |
| FastD.LoadRow | src/fast-d.cpp:222-225 | a kept row copied back into `distancePrev` |
| FastD.FreshMatch | src/fast-d.cpp:153-163 | a diagonal step whose value equals the current cell pairs equal tokens |
| FastD.StaleMatch | src/fast-d.cpp:171-203 | the same after a step to the left, when both arrays hold the row above |
| FastD.StepFacts | src/fast-d.cpp:134-186 | the four cells one backtrack step reads are the table cells `StepCells` names (the row above in both arrays after a step left); a match they show pairs equal tokens and a step left lands on a stale cell |
| FastD.AddMark | src/fast-d.cpp:159-160 | recording one more pair below and left of the earlier ones keeps the pairing and writes 1 into both maps |
| FastD.MarkOneMore | src/fast-d.cpp:159-160 | marking one more slot is an update of that slot to 1 |
| FastD.Backtrack | src/fast-d.cpp:118-227 | the loop records exactly the pairs of `BacktrackFrom` from the bottom-right cell, in order, they pair equal tokens without crossing, and the maps get 1 at exactly those pairs |
| FastD.Step | src/fast-d.cpp:153-186 | one step goes up-left when the diagonal is least (recording a match exactly when the score does not change), else left, else up; the marks and maps grow by that one pair and keep the pairing |
| FastD.ReloadRows | src/fast-d.cpp:201-225 | after a step the old row above moves down and the kept row above the new cell is loaded |
| FastD.StepSound | src/fast-d.cpp:153-182 | a pair one step records links equal tokens and moves up-left; a step left lands on a cell one below its upper neighbour |
| FastD.PairingCons | src/fast-d.cpp:159-160 | a pair of equal tokens recorded before pairs lying above and left of it keeps the pairing non-crossing |
| FastD.BacktrackFromBelow | src/fast-d.cpp:121-191 | every pair recorded from cell (i, j) on lies strictly above and left of it |
| FastD.BacktrackFromPairing | src/fast-d.cpp:121-191 | the pairs recorded from any reachable cell link equal tokens and never cross |
| FastD.BacktrackMarksPairing | src/fast-d.cpp:47-230 | the pairs `GetEditDistance` marks link equal tokens and never cross, for both orders of the arguments |
| FastD.Diagonal | src/fast-d.cpp:153-170 | the diagonal path from (i, i) holds i pairs, (i - 1, i - 1) first |
| FastD.BacktrackSelf | src/fast-d.cpp:153-170 | against itself the backtrack walks the diagonal and records every position |
| FastD.SelfMarksEverySlot | src/fast-d.cpp:159-160 | aligning a sequence with itself writes 1 into every slot of both maps |
| Loaders.WordEnd | src/OneBestFstLoader.cpp:17-21 | a word read from a stream ends at a blank or at the end of the text |
| Loaders.WordEndSpec | src/OneBestFstLoader.cpp:17-21 | the characters a word read from a stream covers hold no whitespace |
| Loaders.WordsFrom | src/OneBestFstLoader.cpp:17-21 | the words read from a position are no more than the characters left |
| Loaders.Words | src/OneBestFstLoader.cpp:17-21 | every item a stream extraction yields is a non-empty run of non-space characters |
| Loaders.WordsAreWords | src/OneBestFstLoader.cpp:17-21 | every word read from any position is a non-empty run of non-space characters |
| Loaders.WordsFromWord | src/OneBestFstLoader.cpp:17-21 | a word followed by a blank or the end is read as the next item |
| Loaders.WordEndAt | src/OneBestFstLoader.cpp:17-21 | the end of the word is the first blank after it |
| Loaders.WordsFromSpace | src/OneBestFstLoader.cpp:17-21 | leading blanks are skipped by the extraction |
| Loaders.JoinedAtOfJoin | src/OneBestFstLoader.cpp:17-21 | text that is the words joined by single spaces lays them out one after another |
| Loaders.WordsFromJoin | src/OneBestFstLoader.cpp:17-21 | words laid out one after another are read back in order |
| Loaders.JoinHeadParts | src/OneBestFstLoader.cpp:17-21 | a joined text splits into its first word, a space and the rest |
| Loaders.WordsOfJoin | src/OneBestFstLoader.cpp:17-21 | reading the words of a text written with single spaces between words gives back those words (round trip) |
| Loaders.Lowered | src/OneBestFstLoader.cpp:36-38 | lowercasing keeps one token per token |
| Loaders.MapWeight | src/Ctm.cpp:58-62 | an arc weighs 1 exactly when the match map has a positive entry at that word, else 0 |
| Loaders.MapWeights | src/Ctm.cpp:58-62 | one weight per token, each the match-map weight of its index |
| Loaders.Zeros | src/OneBestFstLoader.cpp:64-72 | every arc of the one-best graph weighs 0 |
| Loaders.ChainExtend | src/OneBestFstLoader.cpp:64-72 | one more arc on the last state extends the partial chain by one link |
| Loaders.ChainLink | src/OneBestFstLoader.cpp:64-72 | adding a state and the arc of token i turns the chain over i tokens into the chain over i + 1 |
| Loaders.ChainClose | src/OneBestFstLoader.cpp:77-80 | the closing epsilon arc into a final state completes the chain graph |
| Loaders.OneBestLabels | src/OneBestFstLoader.cpp:56-79 | one label per token plus the epsilon label |
| Loaders.OneBestFstLoader.constructor | src/OneBestFstLoader.cpp:14-15 | a new loader holds no tokens |
| Loaders.OneBestFstLoader.BuildFromString | src/OneBestFstLoader.cpp:17-21 | the tokens become the old tokens followed by the words of the text |
| Loaders.OneBestFstLoader.AddToSymbolTable | src/OneBestFstLoader.cpp:34-44 | the table gains the lowercased tokens it lacked, in order, and stays valid |
| Loaders.OneBestFstLoader.ConvertToFst | src/OneBestFstLoader.cpp:46-81 | the graph is the chain over the tokens' keys followed by the epsilon arc into the one final state, all weights 0 |
| Loaders.CtmLabels | src/Ctm.cpp:53-62 | one label per token |
| Loaders.CtmFstLoader.constructor | src/Ctm.cpp:20-29 | the loader keeps the rows and one lowercased word per row |
| Loaders.CtmFstLoader.AddToSymbolTable | src/Ctm.cpp:34-38 | the table gains the tokens it lacked, in order, and stays valid |
| Loaders.CtmFstLoader.ConvertToFst | src/Ctm.cpp:40-71 | the graph is the chain over the tokens' keys, each arc weighted by the match map, the last state final |
| Loaders.CtmFstLoader.ConvertToIntVector | src/Ctm.cpp:73-92 | every token is registered and gets the key that names it, one key per token in order |
| Loaders.ReadFormat | src/Ctm.cpp:147-177 | an empty file gives no rows; otherwise the confidence column is read exactly when the first line has more than five columns |
| Loaders.BlankRunsConcat | src/Ctm.cpp:155-170 | blank runs add up across a join that no run straddles |
| Loaders.FieldRuns | src/Ctm.cpp:155-170 | a field holds no blank run |
| Loaders.TerminatedRuns | src/Ctm.cpp:155-170 | fields each followed by a space hold one blank run per field |
| Loaders.ColumnsOfJoin | src/Ctm.cpp:155-170 | the column count of a line of blank-separated fields equals the number of fields |
| Loaders.GetProperSymbolId | src/Nlp.cpp:301-319 | a known token gives its own key; an unknown noisecode with a colon gives the key of its trimmed form; anything else gives the key of the unknown symbol |
| Loaders.ProperIdNamesEffective | src/Nlp.cpp:301-319 | once the trimmed form is registered, the key found names the token or its trimmed form |
| Loaders.NlpLabels | src/Nlp.cpp:198-212 | one backbone label per token plus the epsilon label |
| Loaders.NlpFstLoader.constructor | src/Nlp.cpp:21-26 | the loader keeps its (already fused) tokens, the normalisation candidates and the `use_case` flag |
| Loaders.NlpFstLoader.ConvertToFst | src/Nlp.cpp:178-299 | the graph is exactly `NlpGraph` of the tokens, candidates, case flag and match map (epsilon key 0 when `<eps>` is missing); it starts at 0, every arc stays inside it, only the last state is final and is entered only by an epsilon arc; without entity tokens it is exactly the weighted chain followed by the epsilon arc |
| Loaders.NlpFstLoader.AddTokens | src/Nlp.cpp:191-290 | the arcs and the last backbone state are exactly `TokenSections` of the tokens, weighted by the match map; no state is final; without entities it is the partial chain |
| Loaders.NlpFstLoader.Finish | src/Nlp.cpp:292-297 | the last backbone state gets the epsilon arc into a new state, the only final one, at weight One |
| Loaders.NlpFstLoader.AddToken | src/Nlp.cpp:199-289 | the arcs and the next backbone state are exactly `TokenSection` of the token: its own state and arc (its key, the unknown key when missing) and, for an entity, the class section over its candidates, lowercased unless case is kept |
| Loaders.NlpFstLoader.AddClass | src/Nlp.cpp:225-283 | the arcs are exactly `ClassSection`: the exit states, the exit arc repeating the label, and one path per candidate in order; earlier states are untouched and the exit end has no arcs |
| Loaders.NlpFstLoader.AddCandidatePath | src/Nlp.cpp:252-275 | the arcs are exactly `CandidatePath`: one fresh state per word chained by the words' keys from the class start, closed by an epsilon arc to the exit start; no other old state changes |
| Loaders.NlpFstLoader.AddWord | src/Nlp.cpp:261-271 | one word adds a fresh state reached from the previous one by the word's key, the unknown key when missing |
| Loaders.Cased | src/Nlp.cpp:257-260 | candidate words keep their shape and are lowercased exactly when case is not kept |
| Loaders.CasedStates | src/Nlp.cpp:257-262 | lowercasing does not change how many states the candidates add |
| Loaders.WordsPath | src/Nlp.cpp:256-272 | the words of a candidate add one state each and end at the last one (at the start when there are none) |
| Loaders.WordsPathShape | src/Nlp.cpp:256-272 | the words touch only their starting state among the old ones, which gains the first word's arc, and the last new state has no arcs |
| Loaders.CandidatePathShape | src/Nlp.cpp:252-275 | a candidate path adds exactly one arc to the class start (the epsilon arc when it has no words) and leaves the other old states alone |
| Loaders.CandidatePathsShape | src/Nlp.cpp:252-275 | the candidate paths fan out of the class start, one arc per candidate, and leave the other old states alone |
| Loaders.ClassSectionShape | src/Nlp.cpp:232-283 | a class section keeps the earlier states, gives the token's target one arc per candidate, the exit start only the exit arc, and leaves the exit end without arcs |
| Loaders.PlainSections | src/Nlp.cpp:198-290 | without entity tokens the sections of the first i tokens are the partial chain over their keys and match-map weights, ending at state i |
| Loaders.PlainNlpGraph | src/Nlp.cpp:178-299 | without entity tokens the NLP graph is the weighted chain over the tokens' keys followed by the epsilon arc into the final state |
| NlpFields.Quoted | src/Nlp.cpp:395 | each label of a list is written between single quotes |
| NlpFields.IsEmptyListIff | src/Nlp.cpp:392 | the empty-list test holds exactly for the text "[]" |
| NlpFields.BestLabelShort | src/Nlp.cpp:391-412 | "[]" gives the empty label and any other text of at most two characters comes back unchanged |
| NlpFields.LabelsInside | src/Nlp.cpp:395-396 | between its brackets a label list is its first quoted label, then a comma and the rest |
| NlpFields.NoCommaQuoted | src/Nlp.cpp:400 | a quoted label without commas holds no comma |
| NlpFields.CommaAfterQuoted | src/Nlp.cpp:400 | the first comma is the one right after the first quoted label |
| NlpFields.ChoppedLabel | src/Nlp.cpp:402-406 | cutting at the comma position minus two and dropping the quotes loses the label's last two characters |
| NlpFields.BestLabelOfOne | src/Nlp.cpp:391-412 | a list of one label gives that label |
| NlpFields.BestLabelBeforeComma | src/Nlp.cpp:396-406 | as written, a label followed by a comma loses its last two characters |
| NlpFields.BestLabelOfManyAsWritten | src/Nlp.cpp:391-412 | as written, a list of two or more labels gives the first label without its last two characters |
| NlpFields.BestLabelCounterexample | src/Nlp.cpp:395-406 | the list of the source's comment, ['0:CARDINAL','0:MONEY'], gives "0:CARDIN" as written |
| NlpFields.CounterexampleShape | src/Nlp.cpp:395 | the example list is its first quoted label followed by a comma and the rest |
| NlpFields.CounterexampleInside | src/Nlp.cpp:395 | the inside of the example list splits after its first quoted label |
| NlpFields.BestLabelIntendedRoundTrip | src/Nlp.cpp:391-412 | the corrected reading gives back the first label of any list of comma-free labels |
| NlpFields.GetLabelId | src/Nlp.cpp:376-389 | "" for ""; an error for one or two characters or a leading ':'; otherwise the prefix before the first ':', which holds no ':' |
| NlpFields.LabelIdOf | src/Nlp.cpp:376-389 | a label written id:name gives back its id |
| NlpFields.TagsFromLast | src/Nlp.cpp:420-430 | when no quote follows the closing one, the scan ends after this tag |
| NlpFields.TagsFromNext | src/Nlp.cpp:420-430 | when a further quote follows, the scan takes this tag and resumes past that quote |
| NlpFields.ScanNext | src/Nlp.cpp:422-429 | taking one more tag keeps the scan's invariant: found tags then remaining tags are all the tags |
| NlpFields.ScanLast | src/Nlp.cpp:422-428 | the last tag completes the tags |
| NlpFields.GetWerTags | src/Nlp.cpp:414-432 | the loop collects exactly the tags of the text |
| NlpFields.QuoteScan | src/Nlp.cpp:421 | a tag without quotes is found up to its closing quote |
| NlpFields.TagsFromEnd | src/Nlp.cpp:420-430 | the last tag before "']" is read alone |
| NlpFields.TagsFromStep | src/Nlp.cpp:420-430 | a tag followed by "', '" is read and the scan moves past the separator |
| NlpFields.QuotedAt | src/Nlp.cpp:419 | a quoted tag laid out at a position spans the tag and its closing quote |
| NlpFields.SeparatorAt | src/Nlp.cpp:419 | a separator is a comma and a space |
| NlpFields.QuotedTail | src/Nlp.cpp:419 | quoting commutes with dropping the first tag |
| NlpFields.ListHead | src/Nlp.cpp:420-430 | the first tag of a longer list is read and the rest of the list follows the separator |
| NlpFields.TagsFromList | src/Nlp.cpp:420-430 | the tags read from a quoted list are the list |
| NlpFields.TagsText | src/Nlp.cpp:419 | past its bracket a tag list is its quoted tags joined by ", " and the closing bracket |
| NlpFields.WerTagsRoundTrip | src/Nlp.cpp:414-432 | a tag list written as ['t1', 't2', ...] is read back unchanged |
| NlpFields.JoinLength | src/Nlp.cpp:419 | a join whose first element is not empty is not empty |
| NlpFields.WerTagsExample | src/Nlp.cpp:419 | ['89', '90', '100'] reads as 89, 90, 100 |
| NlpFields.WerTagsExampleRest | src/Nlp.cpp:419 | the example after its first tag reads as 90, 100 |
| NlpFields.WerTagsExampleLast | src/Nlp.cpp:419 | the last tag of the example reads as 100 |
| Synonyms.PieceLength | src/SynonymEngine.cpp:39 | the head run of a split holds no delimiter and stops at one or at the end |
| Synonyms.Split | src/SynonymEngine.cpp:39 | a split with compressed delimiters yields only non-empty pieces free of the delimiter |
| Synonyms.PieceLengthOfPiece | src/SynonymEngine.cpp:39 | a piece followed by a delimiter or the end is read whole |
| Synonyms.SplitOfPiece | src/SynonymEngine.cpp:39 | a lone piece splits into itself |
| Synonyms.SplitCons | src/SynonymEngine.cpp:39 | a piece, a delimiter and a rest split into the piece followed by the rest's pieces |
| Synonyms.SplitOfJoin | src/SynonymEngine.cpp:39-75 | pieces joined with the delimiter split back into the same pieces (round trip) |
| Synonyms.ParseKeepsRules | src/SynonymEngine.cpp:91-100 | the first definition of a key wins: parsing more lines never replaces a rule |
| Synonyms.JoinedWords | src/SynonymEngine.cpp:35-42 | plain words joined with spaces form a text without blanks at either end and without ';' or '\|' |
| Synonyms.WordsTextSpec | src/SynonymEngine.cpp:35-42 | the text of plain words is its own trimmed form and is read back as the same key |
| Synonyms.AlternativesTextSpec | src/SynonymEngine.cpp:44-63 | the written right side of a rule is read back as the same alternatives |
| Synonyms.ValuesOfJoinedTexts | src/SynonymEngine.cpp:44-63 | alternative texts joined with ';' are read back as their alternatives |
| Synonyms.JoinTextsSpec | src/SynonymEngine.cpp:47 | texts without '\|' joined with ';' hold no '\|' and end with the last text's last character |
| Synonyms.JoinTextsEnd | src/SynonymEngine.cpp:47 | the same for the join the rule text uses |
| Synonyms.ParseRuleLine | src/SynonymEngine.cpp:65-102 | a rule written as one line is parsed into that rule when its key is new (round trip) |
| Synonyms.ParseSides | src/SynonymEngine.cpp:84-94 | a line made of two trimmed sides around one '\|' adds the rule the sides spell |
| Synonyms.ParseLineParts | src/SynonymEngine.cpp:67-100 | a trimmed non-comment line with two '\|' parts adds their rule unless the key already has one |
| Synonyms.TrimLine | src/SynonymEngine.cpp:68 | a line starting and ending with a non-blank is not changed by trimming |
| Synonyms.SplitLine | src/SynonymEngine.cpp:75 | two sides without '\|' joined by one '\|' split back into the two sides |
| Synonyms.NatToString | src/SynonymEngine.cpp:257-258 | to_string of a number is a non-empty digit string |
| Synonyms.DigitsOfNat | src/SynonymEngine.cpp:257-258 | the digits of to_string spell the number back, so distinct numbers are spelled differently |
| Synonyms.SynLabelIsSynonym | src/SynonymEngine.cpp:257-258 | every label of a synonym path is a synonym label, hence an entity label |
| Synonyms.SynLabelInjective | src/SynonymEngine.cpp:221-257 | paths with different numbers get different labels |
| Synonyms.SynLabelAfterMark | src/SynonymEngine.cpp:257-258 | after "___" a synonym label is the path number, '_' and the tail |
| Synonyms.SepAt | src/SynonymEngine.cpp:257 | in a digit string followed by '_', the first '_' is at the string's length |
| Synonyms.DigitsBeforeSep | src/SynonymEngine.cpp:257 | two digit strings each followed by '_' in the same text are equal |
| Synonyms.GenerateForKeeps | src/SynonymEngine.cpp:146-189 | one symbol's generation never replaces a rule and never drops or renumbers a symbol |
| Synonyms.GenerateKeeps | src/SynonymEngine.cpp:138-194 | generation never replaces a rule and never drops or renumbers a symbol |
| Synonyms.CutoffRule | src/SynonymEngine.cpp:150-163 | a cutoff word "wor-" without a rule gets [wor-] -> [[wor]] and "wor" is in the table afterwards |
| Synonyms.CutoffShape | src/SynonymEngine.cpp:149-157 | the only '-' of a cutoff word is its last character and the word is a one-word key |
| Synonyms.ValuesOfWord | src/SynonymEngine.cpp:158 | a plain word read as a right side is one alternative of one word |
| Synonyms.CompoundRule | src/SynonymEngine.cpp:164-188 | a compound a-b-c adds its parts to the table and gets [a-b-c] -> [[a, b, c]] and [a, b, c] -> [[a-b-c]] where those keys have no rule yet |
| Synonyms.CompoundFacts | src/SynonymEngine.cpp:149-170 | a compound's first '-' is inside it, trimming leaves it alone, splitting at '-' gives back its parts and it is a one-word key |
| Synonyms.CompoundShape | src/SynonymEngine.cpp:149-164 | a compound's first '-' ends its first part and is not its last character, and it has no blanks |
| Synonyms.CompoundText | src/SynonymEngine.cpp:167 | parts joined with '-' hold no blank |
| Synonyms.StrTrichotomy | src/SynonymEngine.cpp:203 | the string order used by std::map is total |
| Synonyms.KeyTrichotomy | src/SynonymEngine.cpp:203 | the key order used by std::map is total |
| Synonyms.InsertKey | src/SynonymEngine.cpp:94 | putting a key among the keys adds exactly that key |
| Synonyms.InsertKeySorted | src/SynonymEngine.cpp:94 | a new key put in its place keeps the keys in map order |
| Synonyms.SeekForwardIff | src/SynonymEngine.cpp:104-136 | a state is found exactly when every word of the left side is known and the state is reached by reading their keys along arcs that are not self-loops |
| Synonyms.SeekForwardStep | src/SynonymEngine.cpp:115-133 | the search from a state is correct when it is correct from every state one arc further |
| Synonyms.SeekArcsIff | src/SynonymEngine.cpp:121-133 | the loop over a state's arcs finds exactly the states found through one of them |
| Synonyms.SeekForwardPadded | src/SynonymEngine.cpp:246-261 | states added without arcs change nothing the search finds |
| Synonyms.SeekArcsPadded | src/SynonymEngine.cpp:246-261 | the same for the loop over a state's arcs |
| Synonyms.Empties | src/SynonymEngine.cpp:261 | k new states have no arcs |
| Synonyms.Nones | src/SynonymEngine.cpp:261 | k new states are not final |
| Synonyms.FirstWordsSpec | src/SynonymEngine.cpp:202-215 | the lookup lists under each key of a known word exactly the rules starting with that word, in map order, and nothing else |
| Synonyms.StartingWithKnown | src/SynonymEngine.cpp:204-213 | a rule is listed under a key only when its first word is known with that key |
| Synonyms.AddWord | src/SynonymEngine.cpp:269-283 | one word of an alternative adds one state and one pending arc and keeps the earlier ones |
| Synonyms.AddWords | src/SynonymEngine.cpp:269-283 | the words of an alternative add one state and one pending arc each, and the path ends at the last new state |
| Synonyms.EnterPath | src/SynonymEngine.cpp:257-266 | entering a path uses one path number, one new state and one pending arc |
| Synonyms.ClosePath | src/SynonymEngine.cpp:286-291 | closing a path adds no state and keeps every pending arc on an existing state |
| Synonyms.LabelledPath | src/SynonymEngine.cpp:253-292 | a path adds one state per word plus one and uses one path number |
| Synonyms.AltPaths | src/SynonymEngine.cpp:253 | the alternatives of a rule use one path number each |
| Synonyms.RuleAt | src/SynonymEngine.cpp:245-292 | a rule at a state keeps pending arcs on existing states and never lowers the state count or the path number |
| Synonyms.RulesAt | src/SynonymEngine.cpp:245 | the same for all candidate rules of an arc |
| Synonyms.ArcAt | src/SynonymEngine.cpp:226-244 | the same for one arc of a state |
| Synonyms.ArcsFrom | src/SynonymEngine.cpp:225 | the same for all arcs of a state |
| Synonyms.StatesFrom | src/SynonymEngine.cpp:219-224 | the same for the scan of the original states |
| Synonyms.Rewrite | src/SynonymEngine.cpp:196-301 | every pending arc leaves an existing state, states are only added, and path numbers start at 100000 |
| Synonyms.AddArcs | src/SynonymEngine.cpp:297-300 | adding the pending arcs keeps the number of states |
| Synonyms.AddArcsKeeps | src/SynonymEngine.cpp:297-300 | adding arcs keeps every arc a state already had, in place |
| Synonyms.AddArcsExact | src/SynonymEngine.cpp:297-300 | a state ends with its old arcs followed by the pending arcs leaving it, in order |
| Synonyms.AddWordsTable | src/SynonymEngine.cpp:271-275 | the table after an alternative's words gains exactly the missing words, in order |
| Synonyms.AddWordTable | src/SynonymEngine.cpp:271-275 | one word adds itself to the table when missing |
| Synonyms.AddWordArc | src/SynonymEngine.cpp:277-281 | a word's arc goes from the current state to the new state with the word's key on both sides and weight 0 |
| Synonyms.AddWordsLast | src/SynonymEngine.cpp:277-281 | the last word's arc is the word arc of its position |
| Synonyms.LastWordArc | src/SynonymEngine.cpp:277-281 | the last word's arc, once the words before it are added |
| Synonyms.WordArcExtend | src/SynonymEngine.cpp:271-278 | a word arc does not change when the table grows or more words follow |
| Synonyms.WordArcsSnoc | src/SynonymEngine.cpp:269-283 | the word arcs of a list extend by the arc of one more word |
| Synonyms.AddWordsShape | src/SynonymEngine.cpp:269-283 | arc j of an alternative leaves the state before word j for a new state with word j's key |
| Synonyms.LabelledPathTable | src/SynonymEngine.cpp:260-275 | the table after a path gains the path label and then the missing words, and the label keeps its first key |
| Synonyms.LabelledPathArcs | src/SynonymEngine.cpp:254-292 | a path is the label arc into its first state, the word arcs, and the label arcs from its last state to every end state of the left side |
| Synonyms.FindOrAdd | src/SynonymEngine.cpp:271-275 | looking a word up adds it when missing and gives its key |
| Synonyms.SeekForwardIn | src/SynonymEngine.cpp:104-136 | the recursive search returns exactly the states its specification names |
| Synonyms.PadArcs | src/SynonymEngine.cpp:261 | k new states extend the arcs by k |
| Synonyms.PadFinals | src/SynonymEngine.cpp:261 | k new states extend the finals by k |
| Synonyms.PadIsEmpties | src/SynonymEngine.cpp:261 | the padded graph is the old graph followed by k states without arcs that are not final |
| Synonyms.MirrorsAgain | src/SynonymEngine.cpp:219-292 | the graph mirrors the rewrite so far whatever the pending arcs are |
| Synonyms.NewState | src/SynonymEngine.cpp:261-277 | adding a state during the scan gives the next state number |
| Synonyms.AddWordIn | src/SynonymEngine.cpp:270-282 | one word in place is the word step of the rewrite |
| Synonyms.EnterPathIn | src/SynonymEngine.cpp:257-266 | entering a path in place is the entering step of the rewrite |
| Synonyms.AddWordsIn | src/SynonymEngine.cpp:269-283 | the word loop in place is the words step of the rewrite |
| Synonyms.AddNextWordIn | src/SynonymEngine.cpp:269-283 | word j in place extends the words step by one word |
| Synonyms.CloseIn | src/SynonymEngine.cpp:286-291 | closing a path appends one label arc per end state, in order |
| Synonyms.AddPathIn | src/SynonymEngine.cpp:253-292 | one alternative in place is its path in the rewrite |
| Synonyms.SynonymEngine.constructor | src/SynonymEngine.cpp:14-18 | a new engine has no rules and keeps its two options |
| Synonyms.SynonymEngine.Put | src/SynonymEngine.cpp:94 | storing a rule under a new key adds exactly that rule |
| Synonyms.SynonymEngine.ParseStrings | src/SynonymEngine.cpp:65-102 | the rules become those of the lines, in order, each added unless its key has one |
| Synonyms.SynonymEngine.ParseLineIn | src/SynonymEngine.cpp:67-101 | one line adds its rule unless skipped |
| Synonyms.SynonymEngine.GenerateSynFromSymbolTable | src/SynonymEngine.cpp:138-194 | rules and table become the generation over the symbols the table held at the start |
| Synonyms.SynonymEngine.GenerateNext | src/SynonymEngine.cpp:146-190 | symbol i extends the generation over the symbols before it |
| Synonyms.SynonymEngine.GenerateFrom | src/SynonymEngine.cpp:147-189 | one symbol updates rules and table as its generation says |
| Synonyms.SynonymEngine.FirstWordsIn | src/SynonymEngine.cpp:202-215 | the loop builds exactly the first-word lookup |
| Synonyms.SynonymEngine.ApplyToFst | src/SynonymEngine.cpp:196-301 | the graph gains the rewrite's states, not final, and then every pending arc; the table is the rewrite's; the start is kept |
| Synonyms.SynonymEngine.ScanStates | src/SynonymEngine.cpp:219-224 | the scan of the original states is the rewrite's scan |
| Synonyms.SynonymEngine.ScanState | src/SynonymEngine.cpp:225-244 | the arcs of one state are the rewrite's step for that state |
| Synonyms.SynonymEngine.ApplyRules | src/SynonymEngine.cpp:245 | the candidate rules of an arc are the rewrite's step for them |
| Synonyms.SynonymEngine.ApplyRule | src/SynonymEngine.cpp:246-253 | one candidate rule is the rewrite's step for it |
| Synonyms.SynonymEngine.AddPathsIn | src/SynonymEngine.cpp:253 | the alternatives of a rule are their paths in the rewrite |
| Synonyms.SynonymEngine.AddNextPathIn | src/SynonymEngine.cpp:253-292 | alternative i extends the paths of those before it |
| Synonyms.SynonymEngine.AddAllArcs | src/SynonymEngine.cpp:297-300 | the last loop adds every pending arc in order and nothing else |
| Composition.InternKeeps | src/AdaptedComposition.cpp:87-114 | `GetOrCreateComposedState` keeps the ids dense and the two maps inverse; a new pair gets the counter, which moves on by one; a known pair gets its id and changes nothing |
| Composition.InternIdempotent | src/AdaptedComposition.cpp:87-114 | asking twice for the same pair gives the same id and the second call changes nothing |
| Composition.InternFirstIsZero | src/AdaptedComposition.cpp:49-58 | on a fresh composition the start pair becomes state 0 |
| Composition.PairExistsIff | src/AdaptedComposition.cpp:61-69 | the two-argument `DoesComposedStateExist` holds exactly when some id maps back to the pair |
| Composition.IdExistsIff | src/AdaptedComposition.cpp:72-84 | the one-argument check, as intended: an id exists exactly when it was handed out |
| Composition.FinalWeight | src/AdaptedComposition.cpp:116-134 | `Final` answers only One or Zero, and One for an unknown id |
| Composition.FinalOfPair | src/AdaptedComposition.cpp:122-133 | a composed state is final exactly when both of its states are |
| Composition.StaleStateAsWritten | src/AdaptedComposition.cpp:72-84 | as written, after `Start` a `Final(1)` query passes the check, plants (0, 0) under id 1, and the next new pair gets id 1 but maps back to (0, 0) |
| Composition.ExitFromFound | src/AdaptedComposition.cpp:170-205 | a successful reachability search names a reference state with an out-arc carrying the target label |
| Composition.ExitArcsFound | src/AdaptedComposition.cpp:171-202 | the same for the arcs of one state tried in order |
| Composition.ExitViaFound | src/AdaptedComposition.cpp:192-201 | the same through the hypothesis arcs matching one reference arc |
| Composition.ExitArcsSettled | src/AdaptedComposition.cpp:171-202 | the first arc that succeeds decides the answer: later arcs are not tried |
| Composition.ExitViaSettled | src/AdaptedComposition.cpp:192-201 | the first matching hypothesis arc that succeeds decides the answer |
| Composition.FuelFree | src/AdaptedComposition.cpp:170-205 | on an acyclic reference graph any fuel above a state's rank gives the same answer |
| Composition.ArcsFuelFree | src/AdaptedComposition.cpp:171-202 | the same for the arcs of one state |
| Composition.ViaFuelFree | src/AdaptedComposition.cpp:192-201 | the same through the matching hypothesis arcs |
| Composition.FuelSuffices | src/AdaptedComposition.cpp:170-205 | on an acyclic reference graph, as much fuel as there are reference states answers what the unbounded recursion answers |
| Composition.EmitSound | src/AdaptedComposition.cpp:301-302 | interning the target pair and pushing the arc keeps the tables sound, adds exactly that arc and points it at the pair |
| Composition.HypArcsSound | src/AdaptedComposition.cpp:294-329 | the hypothesis loop only adds priced arcs to existing composed states and only grows the tables |
| Composition.RefArcSound | src/AdaptedComposition.cpp:249-345 | the same for one reference arc |
| Composition.RefArcsSound | src/AdaptedComposition.cpp:240-346 | the same for all reference arcs of a state |
| Composition.InsTailSound | src/AdaptedComposition.cpp:348-357 | at the end of the reference graph the insertions keep the tables sound and are one per hypothesis arc |
| Composition.ArcsAtSound | src/AdaptedComposition.cpp:207-360 | every arc `TryGetArcsAtState` synthesises leads to an existing composed state and is a zero-cost arc, an insertion, a deletion or a substitution at its cost; the tables stay dense and only grow |
| Composition.NoRefArcsInsertEach | src/AdaptedComposition.cpp:348-357 | a reference state without arcs yields exactly one insertion per hypothesis arc, in order, each to (refA, that arc's target) |
| Composition.FirstMatch | src/AdaptedComposition.cpp:294-329 | the position of the first hypothesis arc carrying the label, with none before it |
| Composition.NoMatchCount | src/AdaptedComposition.cpp:294-303 | no hypothesis arc matches exactly when the first match is past the end |
| Composition.HypArcsCount | src/AdaptedComposition.cpp:294-329 | each match adds one zero-cost arc and bumps the state's counter; while the counter is 0, every hypothesis arc before the first match adds an insertion and a substitution |
| Composition.PlainArcDeletion | src/AdaptedComposition.cpp:294-345 | a plain reference arc adds a deletion at cost 2 to (next, refB) exactly when the state has no match so far and no hypothesis arc matches |
| Composition.PerfectMatchOneArc | src/AdaptedComposition.cpp:240-346 | one plain reference arc against one hypothesis arc with its label gives exactly one zero-cost arc, to the pair of their targets |
| Composition.FlagsEntity | src/AdaptedComposition.cpp:362-386 | a label id is flagged synonym or entity exactly when its name is an entity label, and never both |
| Composition.AdaptedCompositionFst.constructor | src/AdaptedComposition.cpp:15-19 | without a symbol table the composition is empty, no label is an entity and the marker ids are 1, 2 and 3 |
| Composition.AdaptedCompositionFst.WithSymbols | src/AdaptedComposition.cpp:21-31 | with a symbol table the composition is empty, the flags come from the table and the marker ids are looked up in it |
| Composition.AdaptedCompositionFst.SetSymbols | src/AdaptedComposition.cpp:362-386 | the flags are set from every symbol's name, entity only when not a synonym, and the tables do not change |
| Composition.AdaptedCompositionFst.IsSynonymLabelId | src/AdaptedComposition.cpp:42-47 | a label id is a synonym exactly when a table is set and its name is a synonym label |
| Composition.AdaptedCompositionFst.IsEntityLabelId | src/AdaptedComposition.cpp:35-40 | a label id is a plain entity exactly when a table is set and its name is an entity label but not a synonym |
| Composition.AdaptedCompositionFst.GetOrCreateComposedState | src/AdaptedComposition.cpp:87-114 | the tables and the id are those of `Intern` |
| Composition.AdaptedCompositionFst.Start | src/AdaptedComposition.cpp:49-58 | `Start` interns the pair of the two start states |
| Composition.AdaptedCompositionFst.DoesComposedStateExist | src/AdaptedComposition.cpp:61-69 | the pair check holds exactly when some id maps back to the pair |
| Composition.AdaptedCompositionFst.DoesComposedIdExist | src/AdaptedComposition.cpp:72-84 | the corrected id check holds exactly when the id was handed out |
| Composition.AdaptedCompositionFst.Final | src/AdaptedComposition.cpp:116-134 | `Final` is `FinalWeight` of the tables |
| Composition.AdaptedCompositionFst.IsEntityReacheable | src/AdaptedComposition.cpp:170-205 | the answer is whether `ExitFrom` succeeds, and the memo records exactly the exit it found |
| Composition.AdaptedCompositionFst.ReachArc | src/AdaptedComposition.cpp:171-201 | one reference arc of the search, as `ExitArc` says |
| Composition.AdaptedCompositionFst.ReachVia | src/AdaptedComposition.cpp:192-201 | the matching hypothesis arcs of the search, as `ExitVia` says |
| Composition.AdaptedCompositionFst.TryGetArcsAtState | src/AdaptedComposition.cpp:207-360 | false with no arcs and no change for an id not handed out; otherwise the arcs and tables `ArcsAt` gives for the id's pair |
| Composition.AdaptedCompositionFst.NextRefArc | src/AdaptedComposition.cpp:240-346 | one more reference arc extends the scan as `RefArcs` says |
| Composition.AdaptedCompositionFst.ExpandRefArc | src/AdaptedComposition.cpp:249-345 | one reference arc is scanned as `RefArc` says |
| Composition.AdaptedCompositionFst.ScanHypArcs | src/AdaptedComposition.cpp:294-329 | the hypothesis loop of a reference arc is `HypArcs` |
| Composition.AdaptedCompositionFst.ExpandHypArc | src/AdaptedComposition.cpp:295-328 | one hypothesis arc is scanned as `HypArc` says |
| Composition.AdaptedCompositionFst.InsertEachHyp | src/AdaptedComposition.cpp:348-357 | at the end of the reference graph the insertions are `InsTail` |
| PathHeaps.LessIsStrictOrder | src/PathHeap.h:43-59 | the comparator is a strict weak order whose equivalence is equality of (words, errors, cost, state) |
| PathHeaps.SortedPairwise | src/PathHeap.h:43-59 | in a sorted heap every entry is below every later one |
| PathHeaps.InsertSortedSpec | src/PathHeap.cpp:18-21 | `std::set::insert` keeps the order, adds the entry unless an equivalent one is present, and keeps every old entry |
| PathHeaps.KeepWithinMembers | src/PathHeap.cpp:88-112 | the erase loop keeps exactly the entries within the bound |
| PathHeaps.KeepWithinSorted | src/PathHeap.cpp:88-112 | and keeps their order |
| PathHeaps.PrunedSpec | src/PathHeap.cpp:59-117 | the prune keeps the first min(target, size) entries and the order, removes nothing when the target covers the heap, and beyond them keeps exactly the entries with at most 20 errors more than the last kept one |
| PathHeaps.PruneStep | src/PathHeap.cpp:104-111 | erasing or stepping over the entry under the cursor extends the filtered part by one entry |
| PathHeaps.WerOf | src/PathHeap.cpp:40 | a finite rate has a positive denominator |
| PathHeaps.RateOrder | src/PathHeap.cpp:48 | with positive word counts the rate comparison is a strict weak order |
| PathHeaps.BestOfIsEarliestMinimum | src/PathHeap.cpp:33-57 | the candidate exists exactly when the heap is non-empty, has a rate no entry beats, and every entry before it has a higher rate |
| PathHeaps.TakeLast | src/PathHeap.cpp:48-51 | a later entry with a strictly lower rate becomes the candidate |
| PathHeaps.KeepPrevious | src/PathHeap.cpp:48-51 | a later entry without a strictly lower rate leaves the candidate |
| PathHeaps.PathHeap.constructor | src/PathHeap.cpp:13-16 | a new heap is empty, with the default pruning fields |
| PathHeaps.PathHeap.Size | src/PathHeap.cpp:31 | the size is the number of entries |
| PathHeaps.PathHeap.Insert | src/PathHeap.cpp:18-21 | the heap becomes `InsertSorted` of the entry |
| PathHeaps.PathHeap.RemoveFirst | src/PathHeap.cpp:23-29 | the least entry is removed and returned; every entry left is above it |
| PathHeaps.PathHeap.GetBestWerCandidate | src/PathHeap.cpp:33-57 | the scan returns `BestOf` the heap |
| PathHeaps.PathHeap.Prune | src/PathHeap.cpp:59-117 | the heap becomes `Pruned` of the old heap and the answer is the number of entries erased |
| Walking.AdmitIff | src/Walker.cpp:145-209 | `enqueueIfNeeded` admits a node exactly when the target is another state that is new to the logbook or logged at no less than the new cost; the logbook changes only then and only at the target |
| Walking.AdmitNeverRaises | src/Walker.cpp:157-206 | with non-negative arc weights a logged cost never goes up and no state leaves the logbook |
| Walking.AdmittedConsistent | src/Walker.cpp:178-201 | a node admitted from a consistent parent, away from an anchor, has one more word, one more error exactly when the arc has a cost, and the parent's cost plus the arc's weight |
| Walking.ChainCounts | src/Walker.cpp:178-201 | a consistent node's word count is the length of its back-linked path, its cost the sum of the path's weights, its error count the number of costed arcs |
| Walking.RelaxKeeps | src/Walker.cpp:67-89 | relaxing the arcs of a consistent node keeps the next heap ordered and all its nodes consistent |
| Walking.KeepFinals | src/Walker.cpp:91-96 | a recorded final node stays final as the composition's tables grow |
| Walking.PrunedConsistent | src/Walker.cpp:103-106 | pruning keeps every remaining node consistent |
| Walking.StepKeeps | src/Walker.cpp:236-371 | one arc of the backtrack keeps the word lists paired and the entity sections labelled, and adds the arc's kind to the counters and its token to the section or the global alignment |
| Walking.FoldCounts | src/Walker.cpp:236-371 | over a whole path: insertions, deletions and substitutions are the arcs of each kind; reference words are deletions, substitutions and matches; hypothesis words are insertions, substitutions and matches; no token is lost |
| Walking.FoldFromStart | src/Walker.cpp:219-371 | from an empty alignment the backtrack yields paired word lists, one section per entity token and the counters by arc kind |
| Walking.DetailsCounts | src/Walker.cpp:211-383 | the alignment read back from a node has reference and hypothesis lists of equal length and the counters of its path's arcs |
| Walking.SectionLostAsWritten | src/Walker.cpp:248-258 | as written, the section is moved into the alignment before it gets its words, so the words of an entity are lost; the corrected backtrack keeps them in the section |
| Walking.PopStep | src/Walker.cpp:49-128 | one pop records at most the popped node, and only that node |
| Walking.SearchRunStep | src/Walker.cpp:48 | while the heap has nodes, fewer than `numBests` are recorded and pops are left, the search takes one more pop |
| Walking.SearchRunDone | src/Walker.cpp:48 | the search stops when the current heap is empty or enough nodes are recorded |
| Walking.SearchRunStops | src/Walker.cpp:48 | a search that stops with pops to spare has an empty current heap or enough recorded nodes |
| Walking.SearchRunAppends | src/Walker.cpp:92-96 | recorded nodes are only appended, at most one per pop, never dropped or reordered |
| Walking.SearchRunBound | src/Walker.cpp:48 | with a non-negative bound, no more than `numBests` nodes are recorded |
| Walking.Walker.constructor | src/Walker.h:16-30 | the two heaps are empty, the logbook is empty, and the tuning fields are 50 and 20 |
| Walking.Walker.EnqueueIfNeeded | src/Walker.cpp:145-209 | the node and the new logbook are those of `Admit`; the heaps are untouched |
| Walking.Walker.ExpandArcs | src/Walker.cpp:67-89 | the next heap and the logbook become `Relax` of the popped node's arcs |
| Walking.Walker.PruneNext | src/Walker.cpp:106 | the next heap becomes `Pruned` to the target size |
| Walking.Walker.EndOfPop | src/Walker.cpp:98-127 | nothing changes while the current heap has nodes; otherwise the next heap is pruned once enough layers have passed, which restarts the count, and the heaps swap |
| Walking.Walker.TakeFirst | src/Walker.cpp:50-51 | the popped node is the first of the current heap and consistent with its back-links |
| Walking.Walker.RelaxLayer | src/Walker.cpp:67-128 | the arcs are relaxed and the layer ends, as `EndLayer` of `Relax` |
| Walking.Walker.Pop | src/Walker.cpp:49-128 | the tables, heaps, logbook and recorded nodes move as `PopStep` says; every recorded node is final and consistent |
| Walking.Walker.Search | src/Walker.cpp:31-128 | the search from the first node is `SearchRun`; every recorded node is final and consistent; no more than `numBests` are recorded |
| Walking.Walker.SearchLoop | src/Walker.cpp:48-128 | the loop ends where `SearchRun` ends |
| Walking.Walker.SearchStep | src/Walker.cpp:49-128 | one round takes the run one pop further |
| Walking.Walker.GetDetailsFromTopCandidates | src/Walker.cpp:211-383 | the alignment is `Details` of the node: the backtrack along its back-links with every list reversed |
| Walking.Walker.WalkComposed | src/Walker.cpp:18-143 | one alignment per recorded node, in order, each its `Details`; no more than `numBests` |
| Walking.Walker.AllDetails | src/Walker.cpp:131-140 | one `Details` per recorded node, in order |
| Traversal.FirstSection | src/AlignmentTraversor.cpp:36-41 | the section found is the first whose class label is either side of the token; None means no section carries either |
| Traversal.RootFromFlat | src/AlignmentTraversor.cpp:31-50 | without entity tokens every root token comes in order as a global triple |
| Traversal.RootFromUnmatched | src/AlignmentTraversor.cpp:31-50 | without nested alignments entity tokens yield nothing and the others come in order as global triples |
| Traversal.LeftGlobal | src/AlignmentTraversor.cpp:46-50 | a root token without an entity label is the next triple, in the global class |
| Traversal.LeftEnter | src/AlignmentTraversor.cpp:32-43 | an entity root token stands for the section carrying its label, or for nothing |
| Traversal.LeftFallback | src/AlignmentTraversor.cpp:54-60 | an empty FALLBACK section yields one no-op pair in its class |
| Traversal.LeftToken | src/AlignmentTraversor.cpp:68-72 | inside a section its next token is the next triple, in the section's class |
| Traversal.LeftExit | src/AlignmentTraversor.cpp:61-66 | a used-up section hands over to the root tokens after it |
| Traversal.LeftAtEnd | src/AlignmentTraversor.cpp:26-29 | past the last root token nothing is left |
| Traversal.AlignmentTraversor.constructor | src/AlignmentTraversor.cpp:9-13 | a new cursor has all of `Triples` of the root still to come |
| Traversal.AlignmentTraversor.Restart | src/AlignmentTraversor.cpp:15-19 | a rewound cursor has all of `Triples` of the root to come again |
| Traversal.AlignmentTraversor.FindSection | src/AlignmentTraversor.cpp:36-41 | the loop finds `FirstSection` |
| Traversal.AlignmentTraversor.NextTriple | src/AlignmentTraversor.cpp:21-74 | the triple returned is the first of those still to come, which lose it; once none are left, every call answers false |
| Traversal.AlignmentTraversor.NextInRoot | src/AlignmentTraversor.cpp:22-50 | as `NextTriple`, from outside a section |
| Traversal.AlignmentTraversor.NextInSection | src/AlignmentTraversor.cpp:51-73 | as `NextTriple`, from inside a section |
| Stitching.EditCommentKinds | src/fstalign.cpp:248-275 | the comment starts with "ins" exactly for an insertion that is not also a deletion; it is "del" exactly for a deletion; it is empty exactly for a match |
| Stitching.InsertionStitch | src/fstalign.cpp:249-250 | a new stitch's comment starts with "ins" exactly for an insertion that is not a deletion |
| Stitching.HypCount | src/fstalign.cpp:272-340 | no more hypothesis rows are consumed than there are pairs |
| Stitching.ClassRows | src/fstalign.cpp:262-264 | no more alignment rows are counted than there are pairs |
| Stitching.StitchAt | src/fstalign.cpp:237-341 | stitch i carries pair i's words, class and edit comment; when the pair consumes a hypothesis row it takes the row numbered by the consuming pairs before it |
| Stitching.ClassRowsGlobal | src/fstalign.cpp:262-264 | with every pair global, each pair is an alignment row of its own |
| Stitching.FlatRowsInSync | src/fstalign.cpp:343-346 | for an alignment without entity tokens the row count equals the number of alignment tokens, so the sync warning is not logged |
| Stitching.Snoc | src/fstalign.cpp:237-341 | one more pair adds one stitch and moves both counters as the loop does |
| Stitching.Stitches | src/fstalign.cpp:237-341 | there is one stitch per pair |
| Stitching.HypOrig | src/fstalign.cpp:283-338 | the original spelling is that of the last non-empty source: one-best over NLP over CTM |
| Stitching.MakeStitches | src/fstalign.cpp:221-349 | the stitches are `Stitches` of the traversal; the two counters are `ClassRows` and `HypCount` of it |
| Stitching.StitchRunCovers | src/fstalign.cpp:415-433 | every stitch the run passes over carries the label |
| Stitching.StitchRunEnds | src/fstalign.cpp:415-433 | the run stops at the end or at the first stitch with another label |
| Stitching.RowRunCovers | src/fstalign.cpp:435-443 | every NLP row the run passes over is of the class |
| Stitching.RowRunEnds | src/fstalign.cpp:435-443 | the run stops at the end or at the first row of another class |
| Stitching.DigitsLen | src/fstalign.cpp:413 | `%d` reads the longest run of leading digits |
| Stitching.SynCountsOfLabel | src/fstalign.cpp:413 | the scan reads back the two row counts the synonym engine writes into a synonym path's label |
| Stitching.Place | src/fstalign.cpp:446-553 | a placement moves the stitch index past the class run and keeps the number of stitches |
| Stitching.Step | src/fstalign.cpp:361-553 | a turn moves the stitch index forward and keeps the number of stitches |
| Stitching.Align | src/fstalign.cpp:361-553 | the pass keeps the number of stitches |
| Stitching.PlaceKeeps | src/fstalign.cpp:446-553 | a placement changes only the stitches of the run, and only their rows and comments |
| Stitching.StepKeeps | src/fstalign.cpp:361-553 | a turn changes only the stitches it passes, and only their rows and comments |
| Stitching.AlignKeeps | src/fstalign.cpp:351-554 | the pass keeps the words, classes and original spellings of every stitch and adds at most one tag to each comment |
| Stitching.GlobalNotSynonym | src/fstalign.cpp:378-382 | the global class is never taken for a synonym path |
| Stitching.PlainAlign | src/fstalign.cpp:361-406 | without classes the pass succeeds exactly when there are NLP rows for every stitch that is not an insertion; it skips the insertions and gives each other stitch the next row in order |
| Stitching.StitchRunAt | src/fstalign.cpp:415-433 | the loop computes `StitchRun` |
| Stitching.RowRunAt | src/fstalign.cpp:435-443 | the loop computes `RowRun` |
| Stitching.DirectAt | src/fstalign.cpp:458-471 | the array becomes `Direct`: the k stitches get the k rows, in order |
| Stitching.PushLastAt | src/fstalign.cpp:476-511 | the array becomes `PushLast`: the first stitch keeps the row's casing, the middle ones a copy without punctuation, the last the full row lower-cased |
| Stitching.SplitWorstAt | src/fstalign.cpp:517-550 | the array becomes `SplitWorst`: first row to the first stitch, last row to the last, a filler in between |
| Stitching.PlaceAt | src/fstalign.cpp:446-553 | the placement on the array is `Place`, failing exactly where it is None |
| Stitching.StepAt | src/fstalign.cpp:362-553 | one turn on the array is `Step`, failing exactly where it is None |
| Stitching.AlignStitchesToNlp | src/fstalign.cpp:351-554 | the pass fails exactly where the source would read past the end of the NLP rows or of the stitches, and otherwise leaves the stitches as `Align` computes them |
| FstAlign.RelaxShape | src/fstalign.cpp:85-95 | the relaxation keeps the slots it does not visit; a visited slot becomes -1 when its already relaxed left neighbour and its untouched right neighbour are negative, else it keeps its value; a slot only ever changes to -1 |
| FstAlign.HitsCleared | src/fstalign.cpp:85-90 | the count the loop adds is the number of visited slots whose relaxed left and original right neighbours are negative |
| FstAlign.RelaxMatches | src/fstalign.cpp:85-90 | the array becomes `Relax` of its old contents and the count grows by `Hits` |
| FstAlign.RelaxBoth | src/fstalign.cpp:79-95 | the reference map is relaxed over 1 .. size-2 with its cleared slots counted; the hypothesis map over 1 .. size-3, uncounted |
| FstAlign.LevenshteinFirstPass | src/fstalign.cpp:73-102 | with ten tokens or fewer on either side, nothing is computed; otherwise the distance is fast-d's, its marks are a pairing of equal words, and both match maps are the marked maps relaxed |
| FstAlign.RateBelowTransitive | src/fstalign.cpp:45 | `sort_alignment` compares WERs by a transitive order |
| FstAlign.FirstBestIsMinimal | src/fstalign.cpp:213-218 | an alignment is chosen exactly when there is one; it is one of the candidates and none has a lower WER |
| FstAlign.Walk | src/fstalign.cpp:195-207 | the walk's candidates are the `Details` of the nodes `SearchRun` records from the start of the composition, with the given pruning target; no more than `numBests` |
| FstAlign.AlignGraphs | src/fstalign.cpp:195-218 | "adapted" walks the composition and returns the candidate of lowest WER, "no alignment produced" when there is none; any other approach is "invalid composition approach specified" |
| Wer.ErrorsPlus | src/wer.cpp:120-123 | the errors of summed counters are the sum of the errors |
| Wer.PutLookup | src/wer.cpp:95-101 | adding counters under a key, starting from zero for a new key, adds them to that key only |
| Wer.SwitchRowsSorted | src/wer.cpp:162-180 | the switch rows are non-decreasing and lie between 0 and the number of non-insertion stitches |
| Wer.SwitchRowsSnoc | src/wer.cpp:167-178 | a stitch adds a switch row, the non-insertions before it, exactly when it opens a new non-empty speaker after another one |
| Wer.GetSpeakerSwitchIndices | src/wer.cpp:162-180 | the loop returns `SwitchRows` |
| Wer.SegStepConserves | src/wer.cpp:89-115 | a stitch's counters go to the open segment or to a flushed one, and none are lost |
| Wer.SegmentScanSpeakers | src/wer.cpp:89-115 | the scan's speaker is the last non-empty one and every flushed segment has a non-empty speaker |
| Wer.SegmentScanConserves | src/wer.cpp:89-115 | the flushed segments plus the open one add up to the counters of all stitches |
| Wer.SegmentScanSwitches | src/wer.cpp:89-109 | there are as many flushed segments as speaker switches |
| Wer.AddAllLookup | src/wer.cpp:95-123 | each speaker's entry is the sum of the segments flushed to it |
| Wer.AddAllKeys | src/wer.cpp:95-123 | a speaker has an entry exactly when a segment was flushed to it |
| Wer.SpeakerWersLookup | src/wer.cpp:77-123 | each speaker's counters are the sum of its segments, and the speakers with an entry are those of the segments |
| Wer.SpeakerFlushesTotal | src/wer.cpp:77-123 | all speakers together get the counters of all stitches |
| Wer.SpeakerWersNoSpeaker | src/wer.cpp:117-123 | the empty speaker has an entry exactly when no stitch has a speaker |
| Wer.SpeakerTurn | src/wer.cpp:90-114 | one stitch moves the map, the speaker and the open counters as `SegStep` does |
| Wer.RecordSpeakerWer | src/wer.cpp:77-123 | the map built is `SpeakerWers` |
| Wer.SwitchTurn | src/wer.cpp:193-217 | a stitch moves the switch index on by at most one |
| Wer.SwitchScanBounds | src/wer.cpp:182-221 | the window counters are non-negative and bounded by the counts of the whole stitch list; no hypothesis words are counted |
| Wer.SwitchScanEmptyWindow | src/wer.cpp:197-198 | with a context size of zero or less, or no speaker switch, nothing is counted |
| Wer.SwitchScanStops | src/wer.cpp:193-220 | once the switches are used up, later stitches change nothing |
| Wer.SwitchStep | src/wer.cpp:193-217 | the loop body is `SwitchTurn` |
| Wer.RecordSpeakerSwitchWer | src/wer.cpp:182-221 | the counters are `SwitchWer` |
| Wer.FindNotChar | src/wer.cpp:330 | `find_first_not_of`: the first position from the start holding another character; None when there is none |
| Wer.TagIdFails | src/wer.cpp:330-332 | the tag id cannot be read exactly when the tag is all '#' |
| Wer.TagIdOf | src/wer.cpp:330-332 | the id of "#…#id" or "#…#id_suffix" is id |
| Wer.TagsIntoOk | src/wer.cpp:329-344 | a stitch's tags are counted without error exactly when each has an id |
| Wer.TagsIntoLookup | src/wer.cpp:333-343 | each id's counters grow by the stitch's contribution once per tag carrying it |
| Wer.TagsIntoKeys | src/wer.cpp:333 | an id has an entry exactly when it had one or a tag carries it |
| Wer.TagWersOk | src/wer.cpp:327-346 | the count succeeds exactly when every tag of every stitch has an id |
| Wer.TagWersLookup | src/wer.cpp:327-346 | each id's counters are the sum of the contributions of the stitches tagged with it, never reset |
| Wer.TagWersKeys | src/wer.cpp:327-346 | an id has an entry exactly when some stitch carries a tag with it |
| Wer.TagEntry | src/wer.cpp:335-343 | an insertion, deletion or substitution by comment head is counted, and a non-insertion is a reference word |
| Wer.TagTurn | src/wer.cpp:328-345 | one stitch is `TagsInto` its tags |
| Wer.RecordTagWer | src/wer.cpp:321-354 | the map is `TagWers`, an error exactly where a tag has no id |
| Wer.HasUpperIff | src/wer.cpp:257-262 | the scan for an upper-case letter succeeds exactly when the count of them is positive |
| Wer.CaseScanTotals | src/wer.cpp:239-298 | every considered stitch lands in exactly one of true positive, false positive, false negative or no score, for matches and for substitutions |
| Wer.LowerCaseOnlyFalsePositive | src/wer.cpp:256-262 | with a lower-case reference, a stitch is a false positive exactly when the hypothesis has an upper-case letter, and scores nothing otherwise |
| Wer.CountUppers | src/wer.cpp:264-271 | the loop counts the upper-case letters |
| Wer.FindUpper | src/wer.cpp:257-262 | the loop finds an upper-case letter exactly when there is one |
| Wer.CaseStep | src/wer.cpp:240-297 | one stitch moves the counters as `CaseTurn` |
| Wer.RecordCaseWer | src/wer.cpp:231-298 | the counters are `CaseScan` of the stitches |
| Wer.AddErrorGroup | src/wer.cpp:491-507 | one group is appended, "ref<->hyp" with "*** " and " ***" for empty sides; the line and both strings are reset |
| Wer.GroupTextSplits | src/wer.cpp:493-501 | the group text splits back at its first "<->" into the two non-empty sides |
| Wer.WordTallyCount | src/wer.cpp:381-396 | a tally counts each word's occurrences, and a word has an entry exactly when it occurs |
| Wer.WordSetHas | src/wer.cpp:383 | the set of words holds exactly the words of the list |
| Wer.FirstLabel | src/wer.cpp:152-157 | the nested alignment found is the first with the class label; None when none has it |
| Wer.HarvestAllCorrect | src/wer.cpp:136-141 | the correct counts tally the valid hypothesis words equal to their reference word |
| Wer.HarvestAllHyp | src/wer.cpp:143-146 | the hypothesis counts tally the valid hypothesis words that differ from their reference word |
| Wer.HarvestAllWords | src/wer.cpp:136-146 | the words seen grow by both |
| Wer.HarvestAllKeeps | src/wer.cpp:134-160 | the other counts are untouched |
| Wer.HarvestFromVisited | src/wer.cpp:134-160 | the recursion into entity sections counts the token pairs of the visit order |
| Wer.UpdateHypCorrectAndAllwords | src/wer.cpp:134-160 | the loop computes `HarvestFrom` of the alignment |
| Wer.TallyWords | src/wer.cpp:381-396 | a word loop tallies the words and adds them to the words seen |
| Wer.SubWordStep | src/wer.cpp:386-389 | a substitution counts its reference word as a false negative and its hypothesis word as a false positive |
| Wer.TallySubWords | src/wer.cpp:385-390 | the loop tallies the reference words of the substitutions as false negatives and the hypothesis words as false positives |
| Wer.StatWordsHas | src/wer.cpp:398-416 | a word is in the stats exactly when an entry names it |
| Wer.KeepEntry | src/wer.cpp:398-416 | every entry kept is a word of the set with its counts, at or above the threshold |
| Wer.KeepComplete | src/wer.cpp:398-416 | every word at or above the threshold is kept |
| Wer.KeepDistinct | src/wer.cpp:398-416 | no word is kept twice |
| Wer.Enumerate | src/wer.cpp:398 | the iteration visits every word of the set once |
| Wer.KeepStatsOf | src/wer.cpp:398-416 | the entries kept are exactly the words at or above the threshold, each once, with its counts |
| Wer.GramStats | src/wer.cpp:398-416 | the loop's entries are exactly the words at or above the threshold, each once, with its counts |
| Wer.UnigramCountsOf | src/wer.cpp:379-405 | each word's unigram counts are its occurrences as a correct word, a deletion, a substitution's either side and an insertion; the words seen are those of any of these lists |
| Wer.UnigramStats | src/wer.cpp:379-416 | the unigram stats hold exactly the words at or above the threshold, each once, with its counts |
| Wer.BigramTokenField | src/wer.cpp:439-455 | one bigram pair adds to each count the words that pair picks for it |
| Wer.BigramAllField | src/wer.cpp:439-455 | each bigram count tallies the words the pairs pick for it |
| Wer.BigramCountsOf | src/wer.cpp:439-455 | each bigram's counts are its occurrences as correct, deleted, false-positive, false-negative and inserted |
| Wer.BigramStep | src/wer.cpp:440-454 | the loop body is `BigramToken` |
| Wer.MatchStep | src/wer.cpp:443-448 | equal sides count as correct; differing valid sides count as a false negative and a false positive |
| Wer.MarkerStep | src/wer.cpp:449-454 | a hypothesis with the deletion marker counts a deleted bigram; a reference with the insertion marker counts an inserted one |
| Wer.CountBigrams | src/wer.cpp:439-455 | the loop computes `BigramAll` |
| Wer.CalculatePrecisionRecall | src/wer.cpp:356-489 | the unigram stats are those of the alignment's counts; bigrams are made exactly when the flattened alignment has tokens, and their stats hold exactly the bigrams at or above the threshold, each once |

## Left out

- Walking.Walker.Search: the search loop carries a `fuel` bound on the number of pops, because the source loop has no termination argument Dafny can check. A run that uses up its fuel stops early; `SearchRunStops` says when a run stopped for the source's own reasons.
- Walking.Walker.WalkComposed: takes the same `fuel` bound as `Search`.
- Composition.ExitFrom: the depth-first search for an entity exit carries a `fuel` bound. The source recursion has no visited set. `FuelSuffices` shows that on an acyclic reference graph the number of reference states is always enough fuel.
- FstAlign.AlignGraphs: starts from graphs already built. `RmEpsilon` and `ArcSort` are library calls, so the reference graph must already be epsilon-free and sorted by descending (olabel, ilabel); these are requires. The "standard" approach is excluded by a requires because `StandardCompositionFst` is library composition and is not modelled. The choice between the graphs built with and without the match maps (src/fstalign.cpp:162-171) depends on `MapContainsErrorStreaks`, whose body is not part of this model. The symbol file, the loaders' symbol registration and the synonym step before the walk are modelled in their own modules, not chained here.
- FstAlign.Walk: requires a pruning target of at least 1, which is what `PathHeap.Prune` needs.
- FstAlign.FirstBest: picks the first alignment of lowest WER in the order they were recorded. The source's `std::sort` is not stable, so among alignments of equal WER it may return another one. The property proved, that none has a lower WER, holds either way.
- PathHeaps.PathHeap.Prune: requires a non-empty heap and a target of at least 1. On an empty heap the source steps an iterator back from `begin()`, which is undefined.
- Stitching.MakeStitches: requires every non-empty hypothesis source to have a row for each pair that consumes one. The source indexes past the end of the vector otherwise, which is undefined.
- Stitching.MakeStitches: start and end times, duration and confidence are not modelled (float `stof` parsing, src/fstalign.cpp:283-324). Neither are the warnings logged when a hypothesis row and the alignment disagree.
- Alignment.GetBigrams: on an empty flattened token list the source loop starts from `std::prev(end())`, which is undefined. The model answers None there.
- Composition.AdaptedCompositionFst.IsEntityLabelId: an id beyond the flag vectors reads false. The source indexes the vector out of range there.
- Strings.LowerString: ASCII case mapping on characters. `UnicodeLowercase` (ICU) and the bytes of multi-byte UTF-8 text are not modelled; strings are sequences of characters.
- Wer.IsUpper: `isupper` in the C locale, on characters.
- Wer.CalculatePrecisionRecall: only the integer counts are modelled, and the unigram and bigram statistics are a set of entries. The float precision and recall and the sort by them are left out. The set of bigrams iterated in the source is an `unordered_set`, so its order is unspecified anyway.
- Wer.RecordCaseWer: only the six counters are modelled; the float precision and recall are left out.
- Wer.RecordSpeakerWer: the map is built; logging it and recording it as JSON are left out.
- Throwing code becomes `Result.Err` with the exception's message. An uncaught exception ends the program, so nothing after it is modelled.
- Loaders.NlpFstLoader.constructor: takes the fused token list, the normalisation candidates and `use_case` as given. The fusion loop over the NLP rows and the JSON sidecar rewrite of the WER tags (src/Nlp.cpp:28-102) are JSON plumbing and are not modelled.
- Loaders.NlpFstLoader.ConvertToFst: takes the symbol table as given. `NlpFstLoader::addToSymbolTable` and `convertToIntVector` (src/Nlp.cpp:104-167) are not modelled; a word missing from the table gets the unknown key.
- Synonyms.Split: strtk's `split` is specified as the maximal runs of non-delimiter characters, not modelled from its source, which is not part of this model.
- `StandardCompositionFst`, `KaldiArchiveFstLoader` and `FstFileLoader` are library-backed (OpenFST, Kaldi) and are not modelled.
- The CLI (`src/main.cpp`, `HandleWer`, `HandleAlign`), logging, the JSON logger, the CSV and text readers, and the writers (`write_stitches_to_nlp`, `WriteSbs`, `printFst`) are I/O and are not modelled.
- Timing and debug counters, the disabled debug blocks, and `DebugComposedGraph` are not modelled.
- Shared pointers are modelled as values. The back-links of search nodes are a value chain, and the stitches are an array of values. No aliasing between them is modelled.
- Composition costs are doubled integers (insertion 2, deletion 2, substitution 3) in place of the float weights 1, 1 and 1.5. The walker's logbook holds these integers.

## Findings

| source | as written | input that shows it | evidently intended | confidence | as-written member | corrected member |
|---|---|---|---|---|---|---|
| src/Walker.cpp:248-258 | An entity section is moved into `label_alignments` as soon as it opens, before it holds any word. The local pointer keeps the moved-from record, whose class label is now empty. So the closing label never matches, and the section's words go to a record that is never read. | The path of the word "w" inside the entity label `___1_X___`, read back as closing label, "w", opening label. The result holds one empty section, no token for "w", and a section still open. | Each entity section collects the words between its two labels and closes at the second one. | medium (depends on the moved-from state of `std::string`); not executed | Walking.SectionLostAsWritten | Walking.FoldFromStart |
| src/AdaptedComposition.cpp:72-84 | The one-argument `DoesComposedStateExist` looks up id 0, not its argument. `Final` then reads `reversed_composed_states[id]` with `operator[]`, which inserts (0, 0) for an unknown id. A later new pair that gets that id keeps the stale entry. | After `Start` on pair p, call `Final(1)`, then create a new pair q other than (0, 0). q gets id 1, but id 1 maps back to (0, 0). | An id exists exactly when it was handed out. | high; not executed | Composition.StaleStateAsWritten | Composition.IdExistsIff |
| src/Nlp.cpp:400-406 | With a comma in the label list, the code keeps the text up to two characters before the comma. It then strips one character from each end. This cuts two characters off the first label. | "['0:CARDINAL','0:MONEY']" gives "0:CARDIN" | The first label: "0:CARDINAL". | high; not executed | NlpFields.BestLabelCounterexample | NlpFields.BestLabelIntendedRoundTrip |
