# MIMIC-II data preparation, modelled in Dafny

This project models the data preparation of the MIMIC-II training script of
the neural jump SDE example (`examples/mimic2.py`) and proves what it does:

* **Reading** (`read_mimic2`): each line of the time file and of the event file
  is split on whitespace and converted token by token (`float` for times,
  `int` for event types). The result is one sequence per line, appended in
  line order. A token that does not convert ends the read with a ValueError.
  The same happens when the time file has no lines or has a blank line,
  because `min` of an empty list raises.
* **Relabelling**: the event-type marks of all sequences are pooled by
  `np.unique`, which sorts them and removes repeats. Mark `m` gets the id of
  its position in that list (`m2mid`).
* **Pairing**: each time sequence is zipped with the mark sequence of the same
  line into `(time, id)` events. `zip` silently truncates to the shorter
  input, both over the lines and within a line. Line counts that differ
  between the two files are therefore not an error; the model follows the
  code in this.
* **Fold split**: for fold `f`, the test set `TSTE` is `TS[b(f):b(f+1)]` and
  the training set `TSTR` is `TS[:b(f)] + TS[b(f+1):]`. Here `b(f)` is
  `int(nseqs*0.2*f)`, and Python's slice clamping applies.

Modules:

* `Wrappers`: Option and Result.
* `Tokens`: `str.split()`.
* `IntLiteral`: `int()` on a token.
* `LineParsing`: the reading loop, as a method proved against a specification function.
* `MarkIds`: `np.unique` and the `enumerate` dictionary.
* `Mimic2Read`: `zip`, the pairing, and `read_mimic2` as a whole.
* `Folds`: the train/test split.

## Model

| member | source | states |
|---|---|---|
| `Tokens.Split` | examples/mimic2.py:45 | every token that `line.split()` yields is non-empty and free of whitespace |
| `Tokens.SplitKeepsCharacters` | examples/mimic2.py:45 | the tokens, laid end to end, are the line without its whitespace: no character is lost and token order is line order |
| `Tokens.SplitWordThen` | examples/mimic2.py:54 | a word followed by whitespace or by the end of the line is split off as exactly one token |
| `Tokens.SplitLine` | examples/mimic2.py:54 | round trip: a line written as space-separated words with a newline splits back into exactly those words |
| `IntLiteral.ParseInt` | examples/mimic2.py:54 | `int(k)` yields a negative value only for a token starting with `-`, and succeeds only on tokens ending in a digit |
| `IntLiteral.ParseShowInt` | examples/mimic2.py:54 | round trip: `int(str(n)) == n` for every integer n |
| `IntLiteral.ShowNatValue` | examples/mimic2.py:54 | the decimal rendering of n is a well-formed digit string whose value is n |
| `IntLiteral.ParseNegative` | examples/mimic2.py:54 | a minus sign in front of a well-formed digit string negates its value |
| `IntLiteral.UnderscoresIgnored` | examples/mimic2.py:54 | underscores between digits do not change the value `int` returns |
| `LineParsing.ParseLine` | examples/mimic2.py:45 | the comprehension over `line.split()` gives value i = `conv(token i)` for every token, in order; otherwise the position of the first token the conversion rejects, every earlier token being accepted |
| `LineParsing.ConvertAll` | examples/mimic2.py:45 | the comprehension converts every token in order; otherwise it stops at the first token the conversion rejects, and every earlier token converts |
| `LineParsing.ParseLines` | examples/mimic2.py:41-45 | one sequence per line, in line order, each the converted tokens of its line; otherwise the first bad token in file order, with its line, position and text |
| `LineParsing.ParseLinesErrorPersists` | examples/mimic2.py:44-45 | once a line has raised, the lines after it cannot change the outcome |
| `LineParsing.ParseLinesAllOk` | examples/mimic2.py:50-54 | when every line parses, the read returns exactly those parsed lines, in line order |
| `LineParsing.ParseLinesOkIff` | examples/mimic2.py:50-54 | reading succeeds exactly when every token of every line converts |
| `LineParsing.ReadSequences` | examples/mimic2.py:50-54 | the append loop over the lines computes exactly `ParseLines` |
| `MarkIds.InsertSorted` | examples/mimic2.py:56 | inserting a mark into an ascending, repeat-free list keeps it ascending and repeat-free and adds exactly that mark |
| `MarkIds.Unique` | examples/mimic2.py:56 | `np.unique` is strictly ascending and holds exactly the values of its input |
| `MarkIds.Enumerate` | examples/mimic2.py:56 | the dictionary built from `enumerate` has exactly the listed values as keys |
| `MarkIds.Flatten` | examples/mimic2.py:56 | every mark of every sequence is in `sum(mark_seqs, [])` |
| `MarkIds.MarkMap` | examples/mimic2.py:56 | `m2mid` has a key for every mark of every sequence, and only for pooled marks |
| `MarkIds.FlattenMembers` | examples/mimic2.py:56 | `sum(mark_seqs, [])` holds exactly the marks that occur in some sequence |
| `MarkIds.EnumerateAt` | examples/mimic2.py:56 | in an ascending, repeat-free list, the id of the element at position i is i |
| `MarkIds.DistinctCount` | examples/mimic2.py:56 | an ascending, repeat-free list has as many elements as distinct values |
| `MarkIds.SortedDistinctUnique` | examples/mimic2.py:56 | two ascending repeat-free lists with the same values are equal |
| `MarkIds.UniqueIsCanonical` | examples/mimic2.py:56 | `np.unique` returns the one ascending repeat-free listing of the values |
| `MarkIds.UniqueCount` | examples/mimic2.py:56 | `np.unique` has as many entries as there are distinct marks |
| `MarkIds.MarkMapDomain` | examples/mimic2.py:56-58 | the keys of `m2mid` are exactly the marks occurring in the event sequences |
| `MarkIds.RankInSorted` | examples/mimic2.py:56 | in the sorted output of `np.unique`, exactly i values are smaller than the one at position i |
| `MarkIds.MarkMapIsRank` | examples/mimic2.py:56 | the id of a mark is the number of distinct marks smaller than it |
| `MarkIds.MarkMapOrder` | examples/mimic2.py:56 | m1 < m2 exactly when `m2mid[m1] < m2mid[m2]` |
| `MarkIds.MarkMapOnto` | examples/mimic2.py:56 | the ids are exactly `0..k-1`, where k is the number of distinct marks |
| `MarkIds.MarkMapInjective` | examples/mimic2.py:56 | distinct marks get distinct ids |
| `MarkIds.MarkMapBijective` | examples/mimic2.py:56 | `m2mid` is a bijection from the distinct marks onto `0..k-1` |
| `Mimic2Read.Zip` | examples/mimic2.py:58 | `zip` pairs elements position by position and has the length of the shorter input |
| `Mimic2Read.FirstEmpty` | examples/mimic2.py:47 | finds the first empty time sequence, on which `min` raises; every earlier one is non-empty |
| `Mimic2Read.PairSequence` | examples/mimic2.py:58 | the inner comprehension over `zip(time_seq, mark_seq)` has the shorter sequence's length, and event i is `(rescale(time[i]), ids[mark[i]])` |
| `Mimic2Read.PairEvents` | examples/mimic2.py:58 | the outer comprehension gives one event sequence per zipped pair of lines, sequence j holding the events of line j in order |
| `Mimic2Read.MarkMapCoversLookups` | examples/mimic2.py:56-58 | every lookup `m2mid[mark]` that the pairing makes succeeds |
| `Mimic2Read.Mimic2` | examples/mimic2.py:40-58 | on success there are min(#time lines, #mark lines) event sequences; a conversion error names the file and the first bad token |
| `Mimic2Read.ReadMimic2` | examples/mimic2.py:40-58 | reading both files and pairing computes exactly `Mimic2`, error cases included |
| `Mimic2Read.Mimic2Shape` | examples/mimic2.py:58 | there are min(#time lines, #mark lines) event sequences, and sequence j is as long as the shorter of its time and mark sequences |
| `Mimic2Read.Mimic2EventAt` | examples/mimic2.py:58 | event i of sequence j is `(rescale(time[j][i]), m2mid[mark[j][i]])`, so the order within a sequence is kept |
| `Mimic2Read.Mimic2MarkIdInRange` | examples/mimic2.py:56-58 | every event's id is below the number of distinct marks |
| `Mimic2Read.Mimic2Errors` | examples/mimic2.py:42-54 | reading succeeds exactly when both files convert and the time file has at least one line and no blank line; a bad time token ends the read before the event file is looked at; an empty time file gives the `min([])` error; the first blank time line is named by its index |
| `Mimic2Read.ShowIntIsWord` | examples/mimic2.py:54 | `str(n)` is one token for `split()`: non-empty and free of whitespace |
| `Mimic2Read.ConvertShowInts` | examples/mimic2.py:54 | `int` reads back every rendered integer of a line, in order |
| `Mimic2Read.ParseEventLine` | examples/mimic2.py:54 | a line of space-separated `str(n)` parses back into exactly those integers |
| `Mimic2Read.EventFileRoundTrip` | examples/mimic2.py:50-54 | round trip: an event file written as one line of space-separated `str(n)` per sequence reads back as the same integer sequences |
| `Folds.Take` | examples/mimic2.py:78 | `TS[:x]` has min(x, len) elements, the first ones of `TS` |
| `Folds.Drop` | examples/mimic2.py:78 | `TS[x:]` is everything of `TS` after the clamped position x |
| `Folds.Slice` | examples/mimic2.py:79 | `TS[lo:hi]` is the clamped range of `TS`, and empty when lo is past hi |
| `Folds.TrainSet` | examples/mimic2.py:78 | `TSTR` has `TS`'s first min(b(f), len) sequences, then those from the clamped b(f+1) on, in order |
| `Folds.TestSet` | examples/mimic2.py:79 | `TSTE` holds the sequences of `TS` from the clamped b(f) on, in order, as many as lie between the two boundaries |
| `Folds.FoldPartition` | examples/mimic2.py:78-79 | with a monotone boundary, `TSTE` is the middle piece `TS[lo:hi]`, `TSTR` the pieces before and after it in order, and `TSTR + TSTE` is a permutation of `TS` |
| `Folds.FoldPlacement` | examples/mimic2.py:78-79 | sequence i of `TS` lands in the test set at i - lo when lo <= i < hi, and otherwise in the training set, at i or at i - (hi - lo) |
| `Folds.DecreasingBoundaryDuplicates` | examples/mimic2.py:78-79 | a boundary that decreases from fold f to f+1 while b(f) <= len(`TS`) would make train and test hold more sequences than `TS`, so monotonicity is what makes the split a partition |
| `Folds.ConsecutiveFoldsAdjacent` | examples/mimic2.py:79 | the test sets of folds f and f+1 are adjacent and disjoint pieces of `TS` |
| `Folds.TestSetsCover` | examples/mimic2.py:79 | the test sets of folds 0..n-1, in order, are exactly `TS[:b(n)]` |
| `Folds.TestedOnce` | examples/mimic2.py:79 | no sequence is in the test set of two different folds |
| `Folds.FiveFoldsCover` | examples/mimic2.py:78-79 | for any monotone boundary with b(0) = 0 that reaches the end of `TS` at fold 5, the five folds test every sequence exactly once, in order |
| `Folds.ExactBoundaryValid` | examples/mimic2.py:78-79 | with exact arithmetic the boundary `nseqs*f/5` starts at 0, is monotone and reaches nseqs at fold 5 |
| `Folds.FiveFoldsCoverAll` | examples/mimic2.py:78-79 | with exact arithmetic the five folds test every sequence exactly once, in order |

## Left out

- Opening and reading the two files (lines 42-43 and 51-52) is I/O. The input is each file's list of lines, after text-mode newline translation. Each line may keep its trailing newline, which `split()` drops.
- `float(t)` (line 45) is floating-point parsing. It is the parameter `parseTime`, whose rejections play the role of ValueError.
- The values of `tmin` and `tmax`, the shift and scale `(h_dt+time-tmin)*scale`, and the `tspan` tuple (lines 47-48, 58, 61) are floating-point arithmetic. The time map is the parameter `rescale`. Only the errors of `min` on an empty list are modelled.
- `random.shuffle` (line 59) is random. `ReadMimic2` returns the list before the shuffle. The fold lemmas hold for any order of `TS`, so they also cover the shuffled list.
- IntLiteral.ParseInt: accepts ASCII digits only. Python also accepts other Unicode decimal digits. Python versions that limit integer strings to 4300 digits would reject longer tokens, and the model does not.
- MarkIds.Unique: marks are unbounded integers. numpy's conversion of the pooled marks to a 64-bit array is not modelled.
- The fold boundary `int(nseqs*0.2*fold)` (lines 78-79) is floating point. It is an abstract monotone function `b` with `b(0) == 0`. A shortfall of `b(5)` below nseqs would take more than 2^53 sequences. At realistic sizes the script's boundary is `ExactBoundary`, `nseqs*f//5`. Five-fold coverage is proved for any such `b` with `b(5) >= nseqs` (`FiveFoldsCover`) and for `ExactBoundary` (`FiveFoldsCoverAll`).
- Negative `--fold` values are not modelled: Python would slice from the end of the list.
- Argument parsing, the git revision call, output redirection and the SIGINT handler (lines 15-37) are process plumbing.
- Model construction, the optimizer, `forward_pass`, `visualize`, `RunningAverageMeter`, the training loop and checkpointing (lines 82-135) are calls into PyTorch and into `modules`/`utils`. `modules` and `utils` are not part of this model.
- `setup.py` is packaging metadata with no logic.
