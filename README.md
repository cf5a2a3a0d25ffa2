# DiffPatch core in Dafny

This project models the line-based diff and patch core of DiffPatch, the library tModLoader uses to make and apply patch files. It covers:

- the value types `Range`, `LineRange` and `ReadOnlyListSlice`;
- the `Patch` hunk, with `RecalculateLength`, `Trim`, `Split` and `Combine`;
- the static `Differ.MakePatches` pipeline, which turns a flat diff list into trimmed, split patches;
- `CharRepresenter`, which maps each distinct line or word to a single UTF-16 code unit so that texts can be compared as strings;
- the `FuzzyLineMatcher` / `MatchMatrix` dynamic program, which aligns the lines of a patch with a window of a file using line similarity;
- the `Patcher`, which applies a list of patches to a file in exact, offset or fuzzy mode and records one `Result` per patch.

The pure parts are functions over datatypes. The parts the source writes imperatively are Dafny classes and methods with loops:

- `Patch`, `CharRepresenter`, `MatchMatrix`, `FuzzyLineMatcher` and `Patcher` are classes;
- each method is proved against a value-level specification function, and the properties are proved as lemmas about those functions.

The main results are:

- For a non-negative context size, `Trim` is idempotent and keeps every change.
- `Split` followed by a corrected `Combine` gives back the original patch.
- `MakePatches` of a diff produces patches that combine back to the trimmed patch.
- Line encodings are injective.
- The Levenshtein distance is 0 exactly on equal lines, is symmetric, and lies between the difference and the larger of the two lengths.
- The path the match matrix returns is strictly increasing and within the search window.
- A patch applied by `Patcher` has a context that equals the file text at the place it is applied, and the file text stays in step with its encoded forms.
- The offset search cannot trip the engine's self-check while no line code has wrapped past 16 bits. The fuzzy search cannot trip it at all; it throws only for a patch without context lines.
- The fuzzy search's reported quality is at least `MinScore` and at most the chosen window's own score.

Modelling conventions:

- **Text.** A line is a `seq<Char16>`, where `Char16` is a UTF-16 code unit.
- **Floats are reals.** The `float` scores of the fuzzy matcher are Dafny `real`s.
- **Exceptions are `Outcome` values.** An exception that ends `Patch(mode)` (already applied, engine failure, an out-of-range argument) is returned as a `Thrown` outcome.
- **Unicode classes are a parameter.** The Unicode character classes `char.IsLetterOrDigit` and `char.IsDigit` are passed in as a `CharClasses` value.
- **The diff list is a parameter.** The diff engines behind `Differ.Match` are not part of this model. `MakePatches` takes the diff list as a parameter.

`LineRange` (LineRange.cs) is a member-for-member copy of `Range`, so it is modelled as a type synonym of `Range` (module `LineRanges`).

## Model

| member | source | states |
|---|---|---|
| Ranges.Range.WithLength | Range.cs:11 | the `length` setter keeps `start`, and the new length is the value set |
| Ranges.Range.WithLast | Range.cs:16 | the `last` setter keeps `start`, and the new last element is the value set |
| Ranges.Range.WithFirst | Range.cs:21 | the `first` setter keeps `end`, and the new first element is the value set |
| Ranges.Range.Plus | Range.cs:31 | `r + i` keeps the length and moves the first element up by `i` |
| Ranges.Range.Minus | Range.cs:32 | `r - i` keeps the length and moves the first element down by `i` |
| Ranges.Union | Range.cs:34-37 | the union contains both ranges and is contained in every range that contains both |
| Ranges.Intersection | Range.cs:39-42 | the intersection lies in both ranges and contains every range that lies in both |
| Ranges.ContainsPreorder | Range.cs:26 | `Contains` is reflexive and transitive |
| Ranges.MapShiftIsPlus | Range.cs:24-32 | `Map` by a translation is `operator +` or `operator -` |
| Ranges.CommonPointIntersects | Range.cs:27 | ranges that share a point pass `Intersects` |
| Ranges.IntersectsDisjointWitness | Range.cs:27 | `Intersects` as written also holds for the disjoint ranges [0,2) and [5,7) |
| Ranges.NotIntersectsIff | Range.cs:27 | for ranges of nonnegative length, `Intersects` fails exactly when both are empty and at one point |
| Ranges.OverlapsIffCommonPoint | Range.cs:27 | the corrected test (a conjunction) holds for nonempty ranges exactly when they share a point |
| Slices.ListSlice.Elements | Slice.cs:18-21 | the enumerator yields `Count` elements, the k-th being the indexer's `this[k]`, which reads `wrapped[k + start]` |
| Slices.Slice | Slice.cs:30-31 | a slice wraps the list with the range given |
| Slices.SliceAt | Slice.cs:33-34 | `Slice(list, start, len)` has window `[start, start + len)` and `Count == len` |
| Slices.ElementsAreSubsequence | Slice.cs:18-31 | a slice whose window lies inside the list enumerates exactly `list[start..end]` |
| Text.ToChar16 | CharRepresenter.cs:29 | the `(char)` cast keeps a count below 0x10000 and otherwise wraps it modulo 0x10000 |
| TextSearch.IndexOf | Patcher.cs:209 | the first occurrence at or after the start index, -1 exactly when there is none |
| TextSearch.LastIndexOf | Patcher.cs:210 | the last occurrence that ends at or before the start index, -1 exactly when there is none; an empty value is found at the start index |
| TextSearch.LastFrom | Patcher.cs:210 | the last occurrence starting at or before a position, -1 when there is none |
| Hunks.WithLengths | Patch.cs:35-41 | the recalculated hunk is consistent: length1 counts the non-INSERT diffs and length2 the non-DELETE ones; diffs and starts are unchanged |
| Hunks.ContextAppend | Patch.cs:30-31 | `ContextLines` and `PatchedLines` of concatenated diff lists are the concatenations |
| Hunks.ContextCount | Patch.cs:30-41 | the context has one line per non-INSERT diff, the patched text one per non-DELETE diff |
| Hunks.AllEqualLines | Patch.cs:30-31 | an all-EQUAL list contributes each text, in order, to both sides |
| Hunks.LeadingEqualsSpec | Patch.cs:47-49 | the first loop of `Trim` stops at the first non-EQUAL diff: the counted prefix is all EQUAL and maximal |
| Hunks.TrailingEqualsSpec | Patch.cs:66-68 | the second loop of `Trim` counts the maximal EQUAL suffix |
| Hunks.LeadingEqualsAll | Patch.cs:47-51 | `start == diffs.Count` exactly when the patch has no change |
| Hunks.TrimAllEqual | Patch.cs:51-55 | a patch with no change trims to no diffs and zero lengths at the same starts |
| Hunks.TrimCuts | Patch.cs:57-75 | after the cuts at most `numContextLines` EQUAL diffs remain at either end, and the first cut lies before the second |
| Hunks.TrimShape | Patch.cs:46-76 | a patch with a change keeps a contiguous slice; everything removed is EQUAL; both starts move by the front cut; both lengths drop by the number removed |
| Hunks.TrimKeepsChanges | Patch.cs:46-76 | every INSERT or DELETE survives `Trim`, at its index less the front cut |
| Hunks.TrimPreservesDelta | Patch.cs:57-75 | `length1 - length2` is unchanged by trimming a patch that has a change |
| Hunks.TrimConsistent | Patch.cs:46-76 | trimming a consistent patch gives a consistent patch that is no longer on either side |
| Hunks.TrimIdempotent | Patch.cs:46-76 | trimming twice equals trimming once |
| Patches.Patch.constructor | Patch.cs:15-17 | a new patch has no diffs and all integers zero |
| Patches.Patch.Copy | Patch.cs:19-25 | the copy holds an equal value |
| Patches.Patch.ContextLines | Patch.cs:30 | the texts of the non-INSERT diffs, one per such diff |
| Patches.Patch.PatchedLines | Patch.cs:31 | the texts of the non-DELETE diffs, one per such diff |
| Patches.Patch.Range1 | Patch.cs:32 | starts at `start1` with length `length1` |
| Patches.Patch.Range2 | Patch.cs:33 | starts at `start2` with length `length2` |
| Patches.Patch.RecalculateLength | Patch.cs:35-41 | the new value is the consistent hunk over the same diffs and starts |
| Patches.Patch.Trim | Patch.cs:46-76 | the new value is `TrimHunk` of the old one; `TrimShape`, `TrimKeepsChanges` and `TrimIdempotent` describe it |
| Patches.Patch.Split | Patch.cs:78-119 | returns fresh patches whose values are `SplitHunks` of this patch; `SplitHunksShape` and `SplitNoOverlap` describe them |
| Patches.Patch.Combine | Patch.cs:121-137 | the new value and the exception thrown are `CombineAsWritten`; `CombineAsWrittenOnlyEmpty` describes it |
| Patches.TrimResult | Patch.cs:57-75 | the two `RemoveRange` cuts of `Trim`, applied in order, give `TrimHunk` |
| Patches.SkipLeadingEquals | Patch.cs:47-49 | the loop returns the length of the maximal EQUAL prefix |
| Patches.SkipTrailingEquals | Patch.cs:66-68 | over a list holding a change, the loop returns the start of the maximal EQUAL suffix |
| Patches.CutRanges | Patch.cs:82-99 | the first loop of `Split` computes `SplitRanges` |
| Patches.BuildPieces | Patch.cs:101-116 | the second loop builds one fresh patch per range, holding the hunks of `HunksFrom` |
| Patches.PieceAt | Patch.cs:104-116 | the `j`-th piece starts past the previous one by the diffs skipped, and the loop's running ends move to its ends |
| Patches.NewPiece | Patch.cs:106-111 | a fresh patch over the slice at the given starts, with recalculated lengths |
| HunkSplit.SplitRangesValid | Patch.cs:82-99 | there is at least one range, and every range lies inside the diff list |
| HunkSplit.SplitRangesShape | Patch.cs:82-99 | the ranges start at 0 and end at the end of the list; consecutive ranges are separated by a cut; there is a cut for every change that follows an EQUAL run longer than twice the context |
| HunkSplit.CutContext | Patch.cs:85-97 | at a cut at least one diff is dropped; the dropped diffs and the context kept on each side lie in one maximal EQUAL run, which a change ends |
| HunkSplit.SplitRangesSingle | Patch.cs:82-99 | without a long EQUAL run before a change, there is one range: the whole list |
| HunkSplit.SplitRangesFirstCut | Patch.cs:91-94 | a second range exists only for a change after a long EQUAL run |
| HunkSplit.HunksFromShape | Patch.cs:101-116 | each piece holds its range's diffs with recalculated lengths, and the first one is placed past the skipped diffs |
| HunkSplit.HunksFromChained | Patch.cs:101-116 | consecutive pieces are apart, in both sequences, by the diffs skipped between their ranges |
| HunkSplit.SplitHunks | Patch.cs:78-80 | `Split` returns no patches exactly when there are no diffs |
| HunkSplit.SplitHunksShape | Patch.cs:78-119 | one piece per range; each holds its slice with recalculated lengths; the first is at the original starts; the others follow across equal gaps in both sequences |
| HunkSplit.SplitNoOverlap | Patch.cs:78-119 | consecutive pieces never overlap: the gap is positive and the same in both sequences |
| HunkSplit.SplitSingle | Patch.cs:78-119 | without a long inner EQUAL run, `Split` returns the recalculated patch, which for a consistent patch is the patch itself |
| HunkSplit.PadTo | Patch.cs:125-129 | padding keeps the starts and reaches the target in sequence 1, or fails on a `lines1` index out of range |
| HunkSplit.PadEqualRun | Patch.cs:125-129 | padding over lines that equal an EQUAL run appends exactly that run |
| HunkSplit.CombineAsWrittenOnlyEmpty | Patch.cs:121-137 | as written, `Combine` throws "Patches overlap" for every pair with nonnegative lengths, except when all four ranges are empty and meet; then it only appends the second patch's diffs |
| HunkSplit.JoinAcrossGap | Patch.cs:121-137 | the corrected `Combine`, over a gap whose lines are an EQUAL run, gives the first patch, the run and the second patch, with summed lengths |
| HunkSplit.CombinePlaced | Patch.cs:121-137 | combining the remaining pieces of a split onto the patch rebuilt so far rebuilds the whole patch |
| HunkSplit.SplitCombineRoundTrip | Patch.cs:78-137 | splitting a consistent patch whose context matches `lines1`, then combining the pieces left to right with the corrected `Combine`, gives the original patch |
| Differ.MakePatches | Differ.cs:33-41 | returns fresh patches whose values are `MakePatchesSpec`: the whole list at line 0, recalculated, trimmed, then nothing if `length1 == 0` and otherwise split |
| Differ.MakePatchesNone | Differ.cs:33-41 | a diff list without changes, or of insertions only, gives no patches |
| Differ.MakePatchesEmpty | Differ.cs:33-41 | with a context of at least one line, those are the only diff lists that give no patches |
| Differ.TrimmedContext | Differ.cs:33-36 | the trimmed patch's context sits at its start line in the diff list's context |
| Differ.MakePatchesRoundTrip | Differ.cs:33-41 | the patches made from a diff against `lines1` combine back, with the corrected `Combine`, to the trimmed patch |
| Differ.MakePatchesShape | Differ.cs:33-41 | every patch returned is consistent, and each ends before the next starts in sequence 1 |
| CharRepresenters.AddSpec | CharRepresenter.cs:27-34 | a known line keeps its code; a new one is appended and gets the next code, truncated to 16 bits; the table stays valid and every earlier entry is kept |
| CharRepresenters.TableInjective | CharRepresenter.cs:27-34 | while no code has wrapped, distinct strings have distinct codes, and each code indexes back to its string |
| CharRepresenters.InitialWords | CharRepresenter.cs:22-24 | the word table starts with the 0x80 one-char ASCII words at their own codes |
| CharRepresenters.AddWordValid | CharRepresenter.cs:36-46 | `AddWord` keeps the word table valid, with its ASCII prefix, and never shrinks it |
| CharRepresenters.AddWordRoundTrip | CharRepresenter.cs:36-46 | `GetWord` of the code `AddWord` returns is the word, for every word except the one-char word 0x80 |
| CharRepresenters.AddWordCollision | CharRepresenter.cs:36-46 | on a new representer, the word "ab" and then the word 0x80 both get code 0x80, and that code decodes to "ab" |
| CharRepresenters.AddWordIntendedRoundTrip | CharRepresenter.cs:36-46 | with the shortcut limited to codes below 0x80, every word decodes to itself |
| CharRepresenters.EncodeSpec | CharRepresenter.cs:87 | every code returned is the final table's code for its string; the table stays valid and only grows |
| CharRepresenters.EncodeSameCode | CharRepresenter.cs:87 | equal strings get equal codes |
| CharRepresenters.EncodeLinesDistinct | CharRepresenter.cs:87 | while no code has wrapped, distinct lines get distinct codes, no line gets code 0, and each code indexes back to its line |
| CharRepresenters.EncodeWordsRoundTrip | CharRepresenter.cs:49-69 | while no code has wrapped, each word's code decodes to that word, except for the word 0x80 |
| CharRepresenters.RunEnd | CharRepresenter.cs:79-81 | an inner loop of `EnumerateWords` stops at the end of the line or at the first character outside the run |
| CharRepresenters.WordEndIsWord | CharRepresenter.cs:74-82 | one outer step yields one word: a first character, then the maximal run its class continues with |
| CharRepresenters.WordRangesSpec | CharRepresenter.cs:72-84 | the words tile the line, in order and without gaps, each a whole word |
| CharRepresenters.WordsCover | CharRepresenter.cs:61-62 | the words of a line, put back together, are the line |
| CharRepresenters.EnumerateWords | CharRepresenter.cs:72-84 | the loop yields exactly `WordRanges` of the line |
| CharRepresenters.CharRepresenter.constructor | CharRepresenter.cs:18-25 | the line table holds only "\0" at code 0, and the word table holds the 0x80 ASCII words |
| CharRepresenters.CharRepresenter.AddLine | CharRepresenter.cs:27-34 | the new line table and the code are `Add` of the old table; the word table is unchanged |
| CharRepresenters.CharRepresenter.AddWord | CharRepresenter.cs:36-46 | the new word table and the code are `AddWordSpec` of the old table; the line table is unchanged |
| CharRepresenters.CharRepresenter.WordsToChars | CharRepresenter.cs:49-69 | one code per word of the line, as `AddWord` gives them in order |
| CharRepresenters.CharRepresenter.LinesToChars | CharRepresenter.cs:87 | one code per line, as `AddLine` gives them in order |
| CharRepresenters.CharRepresenter.GetWord | CharRepresenter.cs:89 | the word stored at code `c` |
| CharRepresenters.CharRepresenter.MaxLineChar | CharRepresenter.cs:15 | at least 1, the code 0 being taken by "\0"; a new line gets this count as its code, truncated to 16 bits |
| CharRepresenters.CharRepresenter.MaxWordChar | CharRepresenter.cs:16 | at least 0x80, the ASCII codes being taken; a new word gets this count as its code, truncated to 16 bits |
| LineSimilarity.StepRange | FuzzyLineMatcher.cs:320-323 | a cell is at most one more than its diagonal and at least the cheapest of its three sources |
| LineSimilarity.LevCell | FuzzyLineMatcher.cs:319-324 | each cell of the edit-distance table is the minimum of delete, insert and substitute |
| LineSimilarity.LevenshteinDistance | FuzzyLineMatcher.cs:288-328 | the two-row loop, with its array swap and degenerate cases, returns the edit distance |
| LineSimilarity.NextRow | FuzzyLineMatcher.cs:316-324 | the inner loop fills `v1` with the next row of the table from the row in `v0` |
| LineSimilarity.LevZero | FuzzyLineMatcher.cs:288-292 | only equal prefixes are at distance 0 |
| LineSimilarity.LevSymmetric | FuzzyLineMatcher.cs:288-328 | the distance is symmetric |
| LineSimilarity.LevUpper | FuzzyLineMatcher.cs:288-328 | the distance is at most the longer length |
| LineSimilarity.LevLower | FuzzyLineMatcher.cs:288-328 | the distance is at least the difference of the lengths |
| LineSimilarity.EditDistanceSpec | FuzzyLineMatcher.cs:288-328 | the distance is 0 exactly for equal lines, is symmetric, and lies between the difference and the maximum of the lengths |
| LineSimilarity.MatchLines | FuzzyLineMatcher.cs:278-285 | the score computed from the distance is `Similarity` |
| LineSimilarity.SimilaritySpec | FuzzyLineMatcher.cs:278-285 | the score lies in [0, 1] and is 1 exactly for equal lines |
| MatchPaths.OffsetsToPatternDistance | FuzzyLineMatcher.cs:209-214 | a step moves on at least one pattern line and at least one search line, and never skips both kinds of line |
| MatchPaths.NextAt | FuzzyLineMatcher.cs:129-143 | the successor chosen is -1 or a lane whose candidate node lies inside the pattern |
| MatchPaths.ScanSpec | FuzzyLineMatcher.cs:127-143 | the scan keeps the first candidate of greatest penalised sum, and only a positive one; otherwise -1 with sum 0 |
| MatchPaths.First | FuzzyLineMatcher.cs:147-157 | the starting node is one of the lanes scanned |
| MatchPaths.FirstSpec | FuzzyLineMatcher.cs:147-157 | the starting node is the first lane of greatest head sum |
| MatchPaths.SumRange | FuzzyLineMatcher.cs:114-144 | with scores in [0, 1], a path sum lies between 0 and the number of pattern lines left |
| MatchPaths.ScoreRange | FuzzyLineMatcher.cs:160 | the best path value (sum over pattern length) lies in [0, 1] |
| MatchPaths.SumBeyond | FuzzyLineMatcher.cs:114-144 | a node past the end of the search text has sum 0 and no successor |
| MatchPaths.Fill | FuzzyLineMatcher.cs:185-186 | the trailing pattern lines with no match are all -1 |
| MatchPaths.Trail | FuzzyLineMatcher.cs:174-186 | the path from a node has one entry per later pattern line |
| MatchPaths.TrailStep | FuzzyLineMatcher.cs:175-183 | one hop of `Path` marks the skipped pattern lines -1 and records the next node's search line |
| MatchPaths.TrailIncreasing | FuzzyLineMatcher.cs:167-189 | the matched search lines of a path strictly increase |
| MatchPaths.PathShape | FuzzyLineMatcher.cs:167-189 | the path has one entry per pattern line and starts at `loc + firstNode`; its matched lines strictly increase; with a positive best sum, none lies past the end of the search text |
| MatchMatrices.GridEntry | FuzzyLineMatcher.cs:34-42 | lane `k` scores pattern line `i` against search line `loc + k + i` |
| MatchMatrices.GridAtSpec | FuzzyLineMatcher.cs:34-42 | every score lies in [0, 1], and a node outside the search text scores 0 |
| MatchMatrices.MatchScoreRange | FuzzyLineMatcher.cs:114-161 | a window's score lies in [0, 1] |
| MatchMatrices.MatchPathShape | FuzzyLineMatcher.cs:167-189 | a window's path has one entry per pattern line and increasing matched lines; with a positive score, every matched line lies inside the search text |
| MatchMatrices.Update | FuzzyLineMatcher.cs:34-42 | rescores every node of a lane for the pattern at `loc`, 0 outside the search text, and keeps each node's sum and successor |
| MatchMatrices.MatchMatrix.constructor | FuzzyLineMatcher.cs:58-66 | a matrix of `maxOffset + 1` fresh lanes, each with one node per pattern line |
| MatchMatrices.MatchMatrix.Initialize | FuzzyLineMatcher.cs:68-75 | the window is at `loc`, scored and solved, and the value returned is its `MatchScore` |
| MatchMatrices.MatchMatrix.StepForward | FuzzyLineMatcher.cs:80-94 | when it can step, the window moves one line on and the result is the new window's score; otherwise 0 and nothing changes |
| MatchMatrices.MatchMatrix.StepBackward | FuzzyLineMatcher.cs:96-110 | the same, one line back |
| MatchMatrices.MatchMatrix.ShiftDown | FuzzyLineMatcher.cs:86-90 | every lane but the first moves down one, and the reused lane goes last |
| MatchMatrices.MatchMatrix.ShiftUp | FuzzyLineMatcher.cs:102-106 | every lane but the last moves up one, and the reused lane goes first |
| MatchMatrices.MatchMatrix.Recalculate | FuzzyLineMatcher.cs:114-161 | every node gets its best path sum and successor, `firstNode` the best head, and the result is the best path value |
| MatchMatrices.MatchMatrix.SolveTails | FuzzyLineMatcher.cs:116-120 | the last pattern line's nodes end their paths, with sum equal to score |
| MatchMatrices.MatchMatrix.SolveRow | FuzzyLineMatcher.cs:123-144 | one row of nodes is solved once all later rows are |
| MatchMatrices.MatchMatrix.BestNext | FuzzyLineMatcher.cs:127-143 | the inner scan computes the node's successor and its best path sum |
| MatchMatrices.MatchMatrix.BestHead | FuzzyLineMatcher.cs:147-157 | the head scan returns the first lane of greatest head sum |
| MatchMatrices.MatchMatrix.Path | FuzzyLineMatcher.cs:167-189 | the returned array is the window's `MatchPath` |
| MatchMatrices.TracePath | FuzzyLineMatcher.cs:170-188 | walking the successors from the best head gives `PathOf` |
| MatchMatrices.SkipLines | FuzzyLineMatcher.cs:177-178 | marks the `count` pattern lines after `i` as unmatched and leaves the rest alone |
| MatchMatrices.ShiftedForward | FuzzyLineMatcher.cs:80-94 | the lanes kept, followed by the rescored reused lane, score the window one line on |
| MatchMatrices.ShiftedBackward | FuzzyLineMatcher.cs:96-110 | the rescored reused lane, followed by the lanes kept, score the window one line back |
| FuzzyMatching.Identity | FuzzyLineMatcher.cs:254-255 | the identity matching `0 .. n-1` |
| FuzzyMatching.BestLocStep | FuzzyLineMatcher.cs:261-267 | a later window replaces the best only when its score is strictly higher |
| FuzzyMatching.BestLocSpec | FuzzyLineMatcher.cs:257-267 | the window chosen is the first of greatest score among those scanned |
| FuzzyMatching.MatchForward | FuzzyLineMatcher.cs:251-272 | for a search text at least as long as the pattern, one entry per pattern line, matched lines increasing and inside the search text |
| FuzzyMatching.InvertUpToSpec | FuzzyLineMatcher.cs:240-246 | after `c` iterations of the inversion loop, each entry is -1 or an earlier index matched to it, and each earlier matched index is recorded |
| FuzzyMatching.InvertSpec | FuzzyLineMatcher.cs:238-249 | inverting an increasing matching gives an increasing matching, with each line matched to `c` exactly when `c` was matched to it |
| FuzzyMatching.MatchShape | FuzzyLineMatcher.cs:237-273 | whatever the lengths, one entry per pattern line, each below the search length, matched entries increasing |
| FuzzyMatching.FuzzyLineMatcher.constructor | FuzzyLineMatcher.cs:221-223 | the matcher keeps the maximum offset given |
| FuzzyMatching.FuzzyLineMatcher.Match | FuzzyLineMatcher.cs:237-273 | the result is `MatchSpec`, which `MatchShape` describes |
| FuzzyRewrites.LeadingInserts | Patcher.cs:258-259 | the number of INSERT diffs at the front, the next diff (if any) not an INSERT |
| FuzzyRewrites.Filler | Patcher.cs:252-253 | one diff per skipped file line |
| FuzzyRewrites.FillerContext | Patcher.cs:247-254 | the filler's context lines are exactly the skipped file lines |
| FuzzyRewrites.RewriteContext | Patcher.cs:243-265 | the context lines of the rewritten diffs are the file lines the match covers: the matched lines and the gaps between consecutive matches |
| FuzzyRewrites.CoveredSlice | Patcher.cs:243-265 | for an aligned match, the covered lines are one contiguous run of file lines ending at the last matched line |
| FuzzyRewrites.PathAligned | FuzzyLineMatcher.cs:167-189 | a window's best path is aligned: a matched line after unmatched pattern lines follows the previous matched line directly |
| FuzzyRewrites.MatchedLineExists | Patcher.cs:272 | a window of positive score matches some pattern line, so `match.First(i => i >= 0)` does not throw |
| FuzzyRewrites.FuzzyContext | Patcher.cs:243-273 | for a match that scores above 0, the rewritten patch's context is the run of file lines from the first matched line, so `ApplyExactAt` there passes its check |
| FuzzyRewrites.RewriteDiffs | Patcher.cs:243-265 | the rewrite loop computes `Rewrite` of the diffs |
| FuzzyRewrites.RewriteOne | Patcher.cs:244-264 | one pass of the loop advances the rewrite by one context line |
| FuzzyRewrites.GapPhase | Patcher.cs:247-254 | inserts the skipped lines, as DELETE between two deletions and as EQUAL otherwise |
| FuzzyRewrites.KeepPhase | Patcher.cs:257-264 | skips the leading inserts, then re-targets the context diff at its matched line or removes it |
| FuzzyRewrites.InsertGap | Patcher.cs:252-253 | inserts the lines `lo .. hi-1` at `j`, and `j` moves past them |
| FuzzyRewrites.SkipInserts | Patcher.cs:258-259 | `j` moves past the INSERT diffs and stops at a context diff |
| FuzzyRewrites.RewriteUnfold | Patcher.cs:244-264 | one step of the rewrite: gap, inserts, re-targeted context diff, then the rest |
| PatchResults.Mode.Rank | Patcher.cs:9-12 | the modes in the order they are tried; EXACT is 0 and FUZZY is 2 |
| PatchResults.Start | Patcher.cs:53 | a working copy holds the patch, with no result and no encodings |
| PatchResults.OffsetWarnDistance | Patcher.cs:90 | the larger of ten times the patch length and a tenth of the file length (integer division) |
| PatchResults.NegativeOffsetNoWarning | Patcher.cs:68-71 | an offset back towards the start of the file never warns |
| PatchResults.WarnDistancePositive | Patcher.cs:295 | a patch of at least one line searched in a file has a warning distance of at least ten, so the penalty division is defined |
| PatchResults.Fail | Patcher.cs:55-57 | an unsuccessful result for the patch, with no applied patch; nothing else changes |
| PatchResults.FailAt | Patcher.cs:131-132 | the failed result records the search offset in force |
| PatchResults.Succeed | Patcher.cs:59-66 | a successful result of the mode and applied patch given, with offset 0 and no warning |
| PatchResults.AddOffsetResult | Patcher.cs:68-71 | records the offset, with a warning exactly when it exceeds the warning distance for the patch's `length1`; nothing else changes |
| PatchResults.AddFuzzyResult | Patcher.cs:73-75 | records the quality; nothing else changes |
| PatchResults.EncodeLm | Patcher.cs:77-80 | one code per context line and per patched line; only the line encodings change |
| PatchResults.EncodeLmSpec | Patcher.cs:77-80 | the patch's line encodings are the codes of its lines in the grown table, which stays valid |
| PatchResults.EncodeWordLines | Patcher.cs:83-84 | one word encoding per line |
| PatchResults.EncodeWm | Patcher.cs:82-85 | one word encoding per context line and per patched line; only the word encodings change |
| PatchResults.EncodeWordLinesSpec | Patcher.cs:82-85 | word encoding keeps the word table valid and only grows it |
| PatchResults.CodedMatch | Patcher.cs:209-210 | while no line code has wrapped, equal line encodings mean equal lines |
| MatchSearch.Penalty | Patcher.cs:299 | the penalty is never negative, and it is 0 exactly within the warning distance |
| MatchSearch.KeepBounded | Patcher.cs:301-311 | keeping a strictly better penalised candidate keeps the quality bound |
| MatchSearch.RoundBounded | Patcher.cs:296-316 | one iteration of the loop keeps the quality bound |
| MatchSearch.SearchBounded | Patcher.cs:296-316 | the whole loop keeps the bound: the quality is at least `MinScore`, exactly `MinScore` while nothing was found, and otherwise at most the chosen window's own score |
| MatchSearch.FindSpecQuality | Patcher.cs:281-319 | `FindMatch` reports a quality of at least `MinScore`; it returns `null` exactly when that quality is `MinScore` with no window; a returned window's own score is at least the quality |
| MatchSearch.SearchRound | Patcher.cs:296-316 | while a matrix can step, one iteration brings the matrices nearer their ends and either breaks with the best or leaves the rest of the search to do |
| MatchSearch.SearchDone | Patcher.cs:296 | once neither matrix can step, the search ends with what it has |
| PatcherSpecs.ResultAtKeeps | Patcher.cs:123-134 | recording a result on one patch, the settings kept, changes no hunk and no other patch's result |
| PatcherSpecs.KeepsTrans | Patcher.cs:198-201 | building the encodings for every patch and then working on one patch still touches only that patch's result |
| PatcherSpecs.RecordWf | Patcher.cs:59-75 | recording a result on one patch keeps the patcher's shape and changes only that patch's result |
| PatcherSpecs.Splice | Patcher.cs:158-169 | `RemoveRange` then `InsertRange` (and `Remove` + text + `Substring`): the new entries replace the old ones at `loc`, and what comes before and after is unchanged |
| PatcherSpecs.Placed | Patcher.cs:171-176 | the applied patch keeps the diffs and lengths, with `start2 = loc` and `start1 = loc - patchedDelta` |
| PatcherSpecs.PlacedInPlace | Patcher.cs:172 | a patch already at that position is returned as it is |
| PatcherSpecs.ExactAt | Patcher.cs:154-184 | applies exactly when the context lines are the file's lines at `loc`, an out-of-range window throwing and a mismatch failing the engine self-check; on success the patched lines replace the context in the lines and in each encoding built so far, the offsets move to this patch, and the patch list and tables stay |
| PatcherSpecs.ExactAtDone | Patcher.cs:155 | the converse half: a context that is there always applies |
| PatcherSpecs.ExactAtWf | Patcher.cs:158-169 | applying keeps one encoded entry per line |
| PatcherSpecs.CodedSplice | Patcher.cs:163-168 | splicing line codes in step with the lines keeps them in step |
| PatcherSpecs.ExactAtSynced | Patcher.cs:154-184 | applying a patch whose encodings are in step with the table keeps the file's encodings in step |
| PatcherSpecs.TryExact | Patcher.cs:186-196 | succeeds exactly when the context is at `start2 + searchOffset`; throws exactly when that line is negative but the window ends inside the file; a success records EXACT and the placed patch on that patch alone; otherwise nothing changes |
| PatcherSpecs.RecordSynced | Patcher.cs:194 | recording a result keeps the encodings in step |
| PatcherSpecs.TryExactSynced | Patcher.cs:186-196 | the attempt keeps the encodings in step |
| PatcherSpecs.EncodePatchesLm | Patcher.cs:141-142 | each patch gets line encodings and is otherwise unchanged |
| PatcherSpecs.EncodePatchesWm | Patcher.cs:148-149 | each patch gets word encodings and is otherwise unchanged |
| PatcherSpecs.EncodePatchesLmSnoc | Patcher.cs:141-142 | the loop, one patch at a time through the growing table |
| PatcherSpecs.EncodePatchesWmSnoc | Patcher.cs:148-149 | the same for words |
| PatcherSpecs.EncodePatchesLmSpec | Patcher.cs:141-142 | the table stays valid, only grows, and every patch's line encodings are its lines' codes in the final table |
| PatcherSpecs.EncodePatchesWmSpec | Patcher.cs:148-149 | the word table stays valid and only grows |
| PatcherSpecs.LinesToCharsAll | Patcher.cs:140-145 | builds the line encodings of every patch and of the file; nothing else changes |
| PatcherSpecs.WordsToCharsAll | Patcher.cs:147-152 | builds the word encodings of every patch and of the file; nothing else changes |
| PatcherSpecs.LinesToCharsSynced | Patcher.cs:140-145 | afterwards the file and every patch are in step with the grown line table |
| PatcherSpecs.WordsToCharsSynced | Patcher.cs:147-152 | building word encodings keeps the line encodings in step |
| PatcherSpecs.SearchStart | Patcher.cs:205-207 | the expected line clamped into the file, and the expected line itself when it is already inside |
| PatcherSpecs.Choose | Patcher.cs:217 | the forward occurrence when there is no reverse one or when it is strictly closer, otherwise the reverse one, so ties go backwards |
| PatcherSpecs.Candidates | Patcher.cs:209-212 | a forward occurrence at or after the start and a reverse one not before the last patched line, each either absent or a real occurrence of the encoded context |
| PatcherSpecs.TryOffset | Patcher.cs:198-222 | `ApplyOffset` on the patcher's state: the line encodings exist afterwards, one entry per line; what it does to the patches and lines is stated by `TryOffsetSpec` and `OffsetNoEngineFailure` |
| PatcherSpecs.OffsetSearch | Patcher.cs:202-221 | the search of `ApplyOffset`: keeps one encoded entry per line; its effect is stated by `OffsetSearchSpec` and `OffsetResult` |
| PatcherSpecs.OffsetSearchSpec | Patcher.cs:202-221 | on success only that patch gets a result, of mode OFFSET; otherwise nothing changes |
| PatcherSpecs.OffsetResult | Patcher.cs:217-219 | the recorded offset is the applied line minus the search start, with a warning exactly beyond the warning distance |
| PatcherSpecs.TryOffsetSpec | Patcher.cs:198-222 | only that patch's result changes; a failure leaves the lines and the search offset alone |
| PatcherSpecs.CodedWindow | Patcher.cs:209-210 | a window of codes in step with lines stays in step |
| PatcherSpecs.OccursIsContext | Patcher.cs:209-218 | while no line code has wrapped, where the encoded context occurs the context lines are the file's lines, so the window fits |
| PatcherSpecs.OffsetNoEngineFailure | Patcher.cs:198-222 | while no line code has wrapped, `ApplyOffset` never fails the engine self-check, and it throws only on an empty file (the clamp then gives -1) |
| PatcherSpecs.SearchNoEngineFailure | Patcher.cs:202-221 | the same once the line encodings exist |
| PatcherSpecs.TryOffsetSynced | Patcher.cs:198-222 | the attempt keeps the encodings in step |
| PatcherSpecs.SearchSynced | Patcher.cs:202-221 | the search keeps the encodings in step |
| PatcherSpecs.Rewritten | Patcher.cs:237-268 | the rewritten copy has recalculated, consistent lengths and keeps the patch's `start1` and `start2` |
| PatcherSpecs.EncodeFuzzy | Patcher.cs:268-270 | the copy gets its encodings and fits the patcher; only the tables change |
| PatcherSpecs.TryFuzzy | Patcher.cs:224-277 | `ApplyFuzzy` on the patcher's state: the word encodings exist afterwards, one entry per line; its effect is stated by `TryFuzzySpec` |
| PatcherSpecs.FuzzySearch | Patcher.cs:228-276 | the search of `ApplyFuzzy`: keeps one encoded entry per line; its effect is stated by `FuzzySearchSpec`, `FuzzyResult` and `FuzzyNoEngineFailure` |
| PatcherSpecs.FuzzyApply | Patcher.cs:237-276 | rewrite, encode and apply once a window is found: keeps one encoded entry per line; its effect is stated by `FuzzyApplySpec` and `FuzzyApplyDone` |
| PatcherSpecs.FuzzyPlaced | Patcher.cs:272-276 | the exact application of the rewritten copy and the FUZZY result: keeps one encoded entry per line and the patch count |
| PatcherSpecs.FuzzySearchSteps | Patcher.cs:228-237 | the warning distance is positive; no window found means failure with nothing changed; a found window scores above 0 and goes on to the rewrite |
| PatcherSpecs.FuzzyApplySteps | Patcher.cs:237-276 | the rewrite is encoded, then applied at the first matched line |
| PatcherSpecs.FuzzyApplySpec | Patcher.cs:237-276 | on success only that patch gets a result, of mode FUZZY, with the match quality and the offset `start2 - loc`; otherwise only the tables grow |
| PatcherSpecs.FuzzySearchSpec | Patcher.cs:228-276 | on success only that patch gets a FUZZY result; otherwise only the tables grow |
| PatcherSpecs.TryFuzzySpec | Patcher.cs:224-277 | only that patch's result changes; a failure leaves the lines and the search offset alone |
| PatcherSpecs.FuzzyApplyDone | Patcher.cs:272-273 | once a window is found, applying the rewritten copy cannot fail |
| PatcherSpecs.EncodeFuzzyApplies | Patcher.cs:268-273 | an encoded copy whose context is in the file at `loc` applies there |
| PatcherSpecs.FuzzyNoEngineFailure | Patcher.cs:224-277 | the fuzzy search never fails the engine self-check; it throws only for a patch without context lines |
| PatcherSpecs.FuzzyResult | Patcher.cs:273-275 | a fuzzy success records quality at least `MinScore` and offset `start2 - loc` |
| PatcherSpecs.TryFuzzySynced | Patcher.cs:224-277 | the attempt keeps the encodings in step |
| PatcherSpecs.EncodeFuzzySynced | Patcher.cs:268-270 | encoding the copy keeps every encoding in step, the copy's too |
| PatcherSpecs.FuzzyApplySynced | Patcher.cs:237-276 | the rewrite and apply keep the encodings in step |
| PatcherSpecs.FuzzySynced | Patcher.cs:228-276 | the search keeps the encodings in step |
| PatcherSpecs.FailPatch | Patcher.cs:131-133 | the patch fails with the search offset in force recorded there, the lines stay, and the search offset drops by `length2 - length1` |
| PatcherSpecs.TryPatch | Patcher.cs:124-133 | one iteration of `Patch(mode)`: keeps one encoded entry per line and the patch count; its effect is stated by `TryPatchSpec` |
| PatcherSpecs.AfterExact | Patcher.cs:126-133 | the iteration after EXACT failed: keeps the shape and the patch count; its effect is stated by `AfterExactSpec` |
| PatcherSpecs.AfterOffset | Patcher.cs:128-133 | the iteration after OFFSET: keeps the shape and the patch count; its effect is stated by `AfterOffsetSpec` |
| PatcherSpecs.FailPatchSpec | Patcher.cs:131-133 | the failure branch, after attempts that left the lines and the offset alone, is a failed attempt |
| PatcherSpecs.AfterOffsetSpec | Patcher.cs:128-133 | the FUZZY attempt and the failure branch give the patch a result and no other patch |
| PatcherSpecs.AttemptedAfter | Patcher.cs:124-133 | a later attempt after a failed one that left the lines and offset alone counts as an attempt from the start |
| PatcherSpecs.AfterExactSpec | Patcher.cs:126-133 | the same from the OFFSET attempt on |
| PatcherSpecs.TryPatchSpec | Patcher.cs:124-133 | one iteration gives that patch a result and no other: a success of a mode `mode` allows, or a failure that leaves the lines alone, records the search offset in force and lowers it by the patch's growth |
| PatcherSpecs.PatchFrom | Patcher.cs:123-134 | the loop keeps every hunk and the earlier results, keeps the encodings in step, stops at the first exception, and otherwise gives every later patch a result |
| PatcherSpecs.PatchFromStep | Patcher.cs:123-134 | one iteration: an exception ends the loop, otherwise it goes on with the next patch |
| PatcherSpecs.PatchFromDone | Patcher.cs:123 | past the last patch the loop ends without an exception |
| PatcherSpecs.ResultsStep | Patcher.cs:123-134 | the loop's bookkeeping over one patch |
| PatcherSpecs.PatchAll | Patcher.cs:117-135 | a second call throws and changes nothing; the first marks the patcher applied and, without an exception, gives every patch a result |
| PatcherSpecs.FailPatchSynced | Patcher.cs:131-133 | the failure branch keeps the encodings in step |
| PatcherSpecs.AfterOffsetSynced | Patcher.cs:128-133 | keeps the encodings in step |
| PatcherSpecs.AfterExactSynced | Patcher.cs:126-133 | keeps the encodings in step |
| PatcherSpecs.TryPatchSynced | Patcher.cs:124-133 | keeps the encodings in step |
| PatcherSpecs.TryPatchKeepsSync | Patcher.cs:124-133 | the same, stated for any well-formed state |
| Patchers.LinesToCharsPatch | Patcher.cs:77-80 | the patch's context and patched lines through the line table, as `EncodeLm` says; the word table stays |
| Patchers.WordsToCharsLines | Patcher.cs:83-84 | each line through the word table in order, as `EncodeWordLines` says; the line table stays |
| Patchers.WordsToCharsPatch | Patcher.cs:82-85 | the patch's lines through the word table, as `EncodeWm` says; the line table stays |
| Patchers.LinesToCharsPatches | Patcher.cs:141-142 | every patch in turn, as `EncodePatchesLm` says |
| Patchers.WordsToCharsPatches | Patcher.cs:148-149 | every patch in turn, as `EncodePatchesWm` says |
| Patchers.LinesToCharsBoth | Patcher.cs:140-145 | the patches, then the file, through the line table |
| Patchers.WordsToCharsBoth | Patcher.cs:147-152 | the patches, then the file, through the word table |
| Patchers.Patcher.constructor | Patcher.cs:111-115 | a working copy of each patch, a copy of the lines, the given representer or a fresh one, nothing applied and every offset 0 |
| Patchers.Patcher.Patch | Patcher.cs:117-135 | the fields change as `PatchAll` says, and the class invariant holds afterwards |
| Patchers.Patcher.PatchEach | Patcher.cs:123-134 | the loop over the patches, as `PatchFrom` says |
| Patchers.Patcher.PatchStep | Patcher.cs:123-134 | one iteration of the loop, as `PatchFromStep` unfolds it |
| Patchers.Patcher.ApplyPatch | Patcher.cs:124-133 | one patch, as `TryPatch` says |
| Patchers.Patcher.ApplyAfterExact | Patcher.cs:126-133 | the OFFSET attempt and what follows, as `AfterExact` says |
| Patchers.Patcher.ApplyAfterOffset | Patcher.cs:128-133 | the FUZZY attempt and the failure branch, as `AfterOffset` says |
| Patchers.Patcher.FailPatchAt | Patcher.cs:131-133 | the failure branch, as `FailPatch` says |
| Patchers.Patcher.ApplyExactAt | Patcher.cs:154-184 | as `ExactAt` says |
| Patchers.Patcher.ApplyExact | Patcher.cs:186-196 | as `TryExact` says |
| Patchers.Patcher.LinesToChars | Patcher.cs:140-145 | as `LinesToCharsAll` says |
| Patchers.Patcher.WordsToChars | Patcher.cs:147-152 | as `WordsToCharsAll` says |
| Patchers.Patcher.ApplyOffset | Patcher.cs:198-222 | as `TryOffset` says |
| Patchers.Patcher.OffsetAt | Patcher.cs:202-221 | as `OffsetSearch` says |
| Patchers.Patcher.OffsetApply | Patcher.cs:217-221 | applies at the chosen occurrence, then records OFFSET and the distance from the search start |
| Patchers.Patcher.ApplyFuzzy | Patcher.cs:224-277 | as `TryFuzzy` says |
| Patchers.Patcher.FuzzyAt | Patcher.cs:228-276 | as `FuzzySearch` says |
| Patchers.Patcher.ApplyFuzzyMatch | Patcher.cs:237-276 | as `FuzzyApply` says |
| Patchers.Patcher.FuzzyRewrite | Patcher.cs:237-270 | the copy the rewrite loop builds is `Rewritten` of the patch and the path, and it is encoded as `EncodeFuzzy` says |
| Patchers.Patcher.FuzzyPlace | Patcher.cs:272-276 | as `FuzzyPlaced` says |
| Patchers.Patcher.FindMatch | Patcher.cs:281-319 | the quality and path of the window `FindSpec` chooses, `None` for `null` |
| Patchers.SearchFrom | Patcher.cs:296-316 | the stepping loop computes `Search` from the matrices' windows |
| Patchers.StepBoth | Patcher.cs:301-311 | one iteration, as `Round` says, keeping the best path the path of the best window |
| Patchers.StepKeep | Patcher.cs:301-305 | one matrix steps and competes, as `Forward`/`Backward` and `Keep` say |

## Left out

- `Differ.DiffFiles`, `Differ.Match`, `Differ.Diff` and every concrete differ (PatienceDiffer.cs, PatienceDiff.cs, LineMatchedDiffer.cs) are not part of this model. They read files or call `PatienceMatch` and `LineMatching`, which are not part of this model either. `MakePatches` takes the diff list as a parameter.
- `FuzzyLineMatcher.MatchLinesByWords` is left out: it needs `LineMatching.UnmatchedRanges`, which is not part of this model.
- Diff.cs is not part of this model. `Diff` is a value datatype with an operation and a text.
- Output formatting is left out because it is text presentation only. This covers `Result.Summary`, `Patch.Header`, `AutoHeader`, `ToString` and `MatchMatrix.Visualise`. The same goes for the `Results` and `ResultLines` accessors of `Patcher`, which only expose fields that the model shows directly.
- Float rounding is not modelled. Scores, sums, penalties and the constants `0.5f` and `0.1f` are exact reals. `(int)(fuzzyQuality * 100)` and `Math.Round` are not modelled because they only feed the formatting above.
- Unicode character classes are a `CharClasses` parameter, not .NET's tables.
- CharRepresenter.cs:51-59 is modelled through `EnumerateWords`. That range is the `NETSTANDARD2_0` compile-time branch of `WordsToChars`, and it yields the same words.
- The `buf` doubling in `WordsToChars` (CharRepresenter.cs:48, 64) is not modelled, because the model collects codes in a `seq`.
- The 16-bit `(char)` cast is modelled as truncation (`ToChar16`). Its effect is explicit in the lemmas: injectivity holds only while fewer than 0x10000 codes have been handed out.
- 32-bit `int` overflow is not modelled. Lengths, offsets, `OffsetWarnDistance` and line indices are unbounded integers, while the source's `int` wraps above 2^31 - 1.
- `MatchMatrix.Init` is modelled as `Initialize`. Patcher.cs:286 and 293 call `Init`, which FuzzyLineMatcher.cs does not define; the method it defines is `Initialize`.
- `Patcher.MaxMatchOffset` is a plain field, set to `DefaultMaxOffset` by the constructor.
- Object aliasing is not modelled; values stand in for shared objects:
  - A `WorkingPatch` is a value. `result.appliedPatch` holds a value, so the source's "same object when already in place" (Patcher.cs:171-172) is equality of values (`PlacedInPlace`).
  - The copy `fuzzyPatch` that `ApplyFuzzy` builds is a fresh value.
  - `Differ.MakePatches` hands the caller's diff list to the patch it builds (Differ.cs:34), and `Trim` then edits that list. The model does not alias the two.
- `Patches.Patch.Combine`: requires `patch2 != this`. The source does not forbid combining a patch with itself. The model does not capture that case of aliasing.
- `Patchers.Patcher.constructor`: requires every patch to be consistent (lengths as `RecalculateLength` gives them). The source accepts any patch. The spec functions of `PatcherSpecs`, through `Fits`, rely on consistency for their statements about context windows.
- `CharRepresenters.CharRepresenter.GetWord`: requires a code that has been handed out. The source throws for any other code.
- `Patches.Patch.Trim`: the context size is a `nat`. The source's `int` parameter accepts negative values (Patch.cs:46). With a negative size, `extra` exceeds the EQUAL run (Patch.cs:57-59 and 70-71), so `RemoveRange` removes changes as well, or throws when the list is too short. The model does not capture that behaviour.
- `Patches.Patch.Split`: the context size is a `nat`. The source's `int` parameter accepts negative values (Patch.cs:78). With a negative size, the test at Patch.cs:91 holds before every change, and the cut ranges can end before they start (Patch.cs:92-93). The slices built from them then throw. The model does not capture that behaviour.
- `Hunks.TrimHunk`: the value form of `Trim` excludes negative context sizes in the same way.
- `HunkSplit.SplitHunks`: the value form of `Split` excludes negative context sizes in the same way.
- `MatchMatrices.MatchMatrix.constructor`: `maxOffset` is a `nat`. The source takes an `int` (FuzzyLineMatcher.cs:58) and throws for a negative one. Below -1, allocating `maxOffset + 1` lanes fails (FuzzyLineMatcher.cs:63). At -1 there are no lanes, and `Recalculate` fails when it reads `matches[0]` (FuzzyLineMatcher.cs:150). The model does not capture that error path.
- `FuzzyMatching.FuzzyLineMatcher.constructor`: `maxOffset` is a `nat`. The source's `int` (FuzzyLineMatcher.cs:221) accepts negative values, and these make the matrices it builds throw as described for `MatchMatrix`. The model does not capture that error path.
- `Patchers.Patcher.maxMatchOffset`: a `nat` field. The source's `MaxMatchOffset` is a public settable `int` (Patcher.cs:109). A negative value makes the fuzzy search's matrices throw as described for `MatchMatrix`. The model does not capture that error path.
- `Slices.ListSlice.Elements`: requires the window to lie inside the wrapped list. For a window that leaves the list, the source's enumerator yields the elements inside it and then throws (Slice.cs:19-20). That out-of-range throw is not modelled. Likewise `Get` requires an index inside the wrapped list, where the source's indexer throws. The one user in the model, `Split` (Patch.cs:109), always meets it.
- `Differ.MakePatches`: the context size is a `nat`. The source's `int` parameter accepts negative values, and the model excludes them.
- `PatcherSpecs.Synced`: checks the line encodings entry by entry. For the word encodings it checks only the lengths, one entry per line, so a fuzzy match is proved in terms of the word-encoded lines it searches. It does not prove correspondence word by word.
- `TextSearch.LastIndexOf`: follows the ordinal .NET meaning of `LastIndexOf(value, startIndex)`, where an occurrence ends at or before `startIndex` and an empty value is found at `startIndex`. The library's internals are not modelled.
- The `foreach` of `Patch(mode)` is split into helper methods, one per mode tried: `PatchEach`, `PatchStep`, `ApplyPatch`, `ApplyAfterExact` and `ApplyAfterOffset`. Together they do what the one loop does.
- I/O and concurrency are not modelled; the core has neither beyond `DiffFiles`.

## Findings

| source | as written | input that shows it | evidently intended | confidence | as-written member | corrected member |
|---|---|---|---|---|---|---|
| Range.cs:27 (used at Patch.cs:122) | `Intersects` is the disjunction of `r.start < end` and `r.end > start`; it holds for disjoint ranges, so `Combine` throws "Patches overlap" for almost every pair | `Range(0, 2).Intersects(Range(5, 7))` is true | the conjunction `r.start < end && r.end > start`, true exactly when the ranges share a point | high, not executed | Ranges.IntersectsDisjointWitness, HunkSplit.CombineAsWrittenOnlyEmpty | Ranges.OverlapsIffCommonPoint, HunkSplit.SplitCombineRoundTrip |
| CharRepresenter.cs:37 | the one-char shortcut accepts `word[0] <= 0x80`, while allocated word codes start at 0x80 | a new representer: `AddWord("ab")` gives 0x80, then `AddWord("\u0080")` also gives 0x80, and `GetWord(0x80)` is "ab" | `word[0] < 0x80`, matching the 0x80 preassigned codes 0..0x7F | high, not executed | CharRepresenters.AddWordCollision | CharRepresenters.AddWordIntendedRoundTrip |

In both rows the classes follow the code as written: `Patch.Combine` and `CharRepresenter.AddWord` do what the source does. The corrected definitions are `Ranges.Range.Overlaps` with `HunkSplit.CombineIntended`, and `CharRepresenters.AddWordIntended`. The intended properties are proved about them. `Split`, `MakePatches` and their round trips are stated with the corrected `Combine`.
