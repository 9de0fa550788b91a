# Ribozyme switch generator: the structure matcher, in Dafny

This project models the core of the Ribozyme_switch_generator scripts: the
dot-bracket structure matcher that decides whether a folded candidate RNA
still forms the reference hammerhead ribozyme, and that cuts out its two
variable loops. It also models the small pieces around the matcher:
- the enumeration of candidate sequences;
- the loop one-hot encoder of the activity models;
- the slicing of the two loops out of a folded candidate.

Modules (one file each):

- `Strings` (`strings.dfy`): the parts of Python's string semantics the scripts
  use:
  - `str.find` for a character or a substring, and `str.rfind`; each returns -1
    when absent;
  - slicing `s[a:b]`, with bounds that wrap when negative and are clamped to
    the length.
- `BracketMatcher` (`bracket_matcher.dfy`): `get_index_of_bonded`.
  - `Bonded` is the specification: the recursive forward and backward scans
    with a pending-bond counter.
  - The lemmas characterize the scans by bracket depth: the partner found is
    the first bracket at which the depth returns to zero. Partnership is
    symmetric, and in a balanced structure every bracket has a partner.
  - `GetIndexOfBonded` is the imperative method with the source's loops.
- `HairpinFinder` (`hairpin_finder.dfy`): `find_hairpins`, as a method proved
  against the list of all positions that pass the source's test.
- `Scaffold` (`scaffold.dfy`): a reference part (sequence, structure), how it
  is located in a candidate (`sequence.find(part[0])`), and where each loop
  starts and ends.
- `StemLengthAnalyzer` (`stem_length.dfy`): `get_ribozyme_stem_length`.
  - It computes the base stem lengths of the reference.
  - The reduced-stem walk and the extended-stem walk are separate functions,
    each with its method.
  - The flank comparison is a predicate with two methods.
  - `Analysis` is the whole measurement. Its contract says when the result is
    `Measured` and what each modification means (`WithinTolerance`).
- `LoopExtractor` (`loop_extractor.dfy`): `get_ribozyme_loops`.
  - The walk over a loop window reads each index from the window start. It
    jumps from a `(` to its partner, as the source's `next_index` cursor does.
  - Lemmas prove the shape of every walk and the loops it yields.
  - In Python 3, the source compares an `int` with `None` (`index >= None`)
    when a `(` inside a loop has no partner. That raises a TypeError, which is
    the `Malformed` result here.
- `ReferenceSplit` (`reference_split.dfy`):
  - `cut_ribozyme_loops`: splitting the reference into three parts at its
    first two hairpins, or into two parts at `len(left_ribozyme)`;
  - `cut_aptamer_hanging`: trimming the unpaired ends of the aptamer (see
    Findings).
- `CandidateList` (`candidate_list.dfy`):
  - `to_base_5` and `N_replace`;
  - the loop filter, proved to list exactly every A/U/C/G loop with a length
    from `low_N` to `high_N`, each once;
  - the candidate concatenation.
- `LoopEncoding` (`loop_encoding.dfy`):
  - `loop_one_hot_encode`, which is identical in Train_additional_models.py
    and Predict_activities.py. It is a method that fills a fresh
    `array4<int>` of shape 2×1×15×8 and is proved against a cell-by-cell
    specification. Short loops are proved decodable from their grid, and long
    loops are proved to be encoded as their first and last 15 symbols.
  - The marker-based loop slicing of `struct_dict_to_array`.

The answers the scripts ask for on the terminal (`input()`) are boolean
parameters: `cutLoops` for "Remove loops from reference structure?" and
`removeHanging` for "Remove hanging ends?". The script values `low_N`,
`high_N` and `apt` are parameters too. Printing is left out.

On the reduced-stem test at Util_functions.py:110: the condition
`not (a == '.' and b) == '.'` reads oddly, but it holds exactly when the two
symbols are not both `.`. That is how `ReducedWalk` states it.

On the extended-stem walk at Util_functions.py:119-122: each step checks that
the next two positions hold `(` and `)`, but it asks the partner of the
*current* position `loop_start + added_length`. `Grows` states this as
written.

## Model

| member | source | states |
|---|---|---|
| `BracketMatcher.Bonded` | Util_functions.py:23-56 | -1 exactly for a `.`; otherwise a partner index in range and different from the start; a partner after the start means `(`…`)`, one before it means `)`…`(` |
| `BracketMatcher.GetIndexOfBonded` | Util_functions.py:33-56 | the source's two counting loops return exactly `Bonded` |
| `BracketMatcher.ForwardScan` | Util_functions.py:37-46 | a result of the forward scan is a `)` at or after the scan position |
| `BracketMatcher.BackwardScan` | Util_functions.py:48-56 | a result of the backward scan is a `(` at or before the scan position |
| `BracketMatcher.ForwardScanCharacterized` | Util_functions.py:39-46 | the forward scan stops at the first `)` where the depth reaches the pending count; it fails exactly when the depth never gets that low |
| `BracketMatcher.BackwardScanCharacterized` | Util_functions.py:50-56 | the mirror image for the backward scan |
| `BracketMatcher.ForwardPartnerIff` | Util_functions.py:37-46 | for a `(`, the result is `j` if and only if `j` is the first later `)` with everything strictly between balanced |
| `BracketMatcher.BackwardPartnerIff` | Util_functions.py:48-56 | for a `)`, the result is `i` if and only if `i` is the last earlier `(` with everything strictly between balanced |
| `BracketMatcher.ClosesIffOpens` | Util_functions.py:37-56 | "`j` closes `i`" and "`i` opens `j`" are the same relation |
| `BracketMatcher.PartnerInvolution` | Util_functions.py:23-56 | the partner of a bracket's partner is the bracket itself |
| `BracketMatcher.BalancedHasPartner` | Util_functions.py:23-56 | in a balanced structure every bracket has a partner |
| `BracketMatcher.DepthSplit` | Util_functions.py:42-45 | the bracket counter is additive over adjacent stretches |
| `HairpinFinder.IsHairpinStart` | Util_functions.py:13-17 | a position that passes the test holds `(`, and every later `(` comes after the first `)` that follows it (or no `)` follows at all, so the find gives -1) |
| `HairpinFinder.HairpinsUpTo` | Util_functions.py:3-21 | parallel lists; every start is a `(` passing the source's test, its end is the first later `)` (or -1); starts ascend |
| `HairpinFinder.HairpinsComplete` | Util_functions.py:13-19 | no position passing the test is missed |
| `HairpinFinder.FindHairpins` | Util_functions.py:3-21 | the source's loop returns exactly `HairpinsUpTo` over the whole structure |
| `HairpinFinder.HairpinStartIff` | Util_functions.py:17 | a position starts a hairpin iff it holds `(` and no `(` lies between it and the next `)`, or no `)` follows |
| `HairpinFinder.UnclosedEndIsMinusOne` | Util_functions.py:17-19 | a `(` with no later `)` is reported, with end -1 |
| `Scaffold.Locate` | Util_functions.py:93-94 | `sequence.find(part[0])` is -1 or an index at which the part's sequence occurs in full |
| `Scaffold.LoopStart` | Util_functions.py:93 | the last index of part `i` lies before the start of part `i+1` |
| `Scaffold.LoopEnd` | Util_functions.py:94 | part `i+1` located at the loop end fits in the sequence |
| `StemLengthAnalyzer.StackedRun` | Util_functions.py:74-78 | the run of stacked pairs continues from `m` to the first unstacked pair or the end of either part |
| `StemLengthAnalyzer.BaseStemLength` | Util_functions.py:72-84 | the base length is the number of leading `(`/`)` pairs read outward from the loop, stopping at the first mismatch |
| `StemLengthAnalyzer.CountStem` | Util_functions.py:74-78 | the source's `zip(reversed(...), ...)` loop computes `BaseStemLength` |
| `StemLengthAnalyzer.BaseStems` | Util_functions.py:72-85 | stem 1 is measured on parts 0/1 and stem 2 on parts 1/2 |
| `StemLengthAnalyzer.ReducedWalk` | Util_functions.py:97-111 | a reduction is never positive and never reaches the base length |
| `StemLengthAnalyzer.ReducedWalkCharacterized` | Util_functions.py:99-111 | 0 iff every step below the base length is unpaired; `-k` iff steps before `k` are unpaired and step `k` is a bonded pair |
| `StemLengthAnalyzer.ReducedModification` | Util_functions.py:97-111 | the source's `for j` loop with `break`/early return computes `ReducedWalk` |
| `StemLengthAnalyzer.ExtendedWalk` | Util_functions.py:113-128 | the extension is the first step that does not grow; all earlier steps grow; it stays inside the loop |
| `StemLengthAnalyzer.ExtendedModification` | Util_functions.py:113-128 | the source's `while True` loop computes `ExtendedWalk` |
| `StemLengthAnalyzer.Modification` | Util_functions.py:92-132 | a `.` at the loop start never lengthens the stem and a reduction stays below the base length; any other symbol never fails and never shortens it |
| `StemLengthAnalyzer.MeasureStem` | Util_functions.py:89-131 | one pass of `for i in range(2)`: a `.` at the loop start selects the reduced walk, anything else the extended walk |
| `StemLengthAnalyzer.ModificationWithinTolerance` | Util_functions.py:96-131 | every modification returned is within tolerance (reduced: unpaired steps up to a rejoining pair; extended: growing pairs up to one that does not) |
| `StemLengthAnalyzer.CheckFlank` | Util_functions.py:134-161 | one flank loop returns true iff every compared position of the window matches the part's structure |
| `StemLengthAnalyzer.CheckFlanks` | Util_functions.py:134-161 | the three flank loops return true iff `FlanksMatch` |
| `StemLengthAnalyzer.Analysis` | Util_functions.py:58-163 | `Measured` iff both walks succeed and the flanks match; then the stem lengths are the base lengths and both modifications are within tolerance |
| `StemLengthAnalyzer.GetRibozymeStemLength` | Util_functions.py:58-163 | the whole imperative measurement returns exactly `Analysis` |
| `StemLengthAnalyzer.WindowIgnores` | Util_functions.py:136-141 | a flank window does not depend on positions outside it |
| `StemLengthAnalyzer.FlanksIgnore` | Util_functions.py:143-161 | the flank checks do not depend on the first symbol of parts 1 and 2, wherever the parts lie |
| `StemLengthAnalyzer.FirstSymbolsNotCompared` | Util_functions.py:146-161 | changing the structure at the start of part 1 or part 2 never changes the flank verdict |
| `LoopExtractor.StemTotals` | Ribozyme_generation.py:160-161 | two totals; an unformed candidate totals `[0, 0]` |
| `LoopExtractor.Visits` | Ribozyme_generation.py:178-187 | the indices the `next_index` cursor visits all lie in the window |
| `LoopExtractor.VisitsStart` | Ribozyme_generation.py:178-181 | the walk is empty iff the window is; otherwise it starts at the window start |
| `LoopExtractor.VisitsSuccessor` | Ribozyme_generation.py:179-186 | after a `(` the walk goes to its partner; after anything else it goes to the next index |
| `LoopExtractor.VisitsFinal` | Ribozyme_generation.py:179-186 | the walk stops exactly where the next step would leave the window |
| `LoopExtractor.VisitsDefined` | Ribozyme_generation.py:179-186 | the walk cannot fail when every `(` it may meet has a partner |
| `LoopExtractor.LoopString` | Ribozyme_generation.py:181 | the loop string alternates the sequence and structure symbols of the visited indices |
| `LoopExtractor.LoopWalk` | Ribozyme_generation.py:178-187 | an empty window gives the empty loop; a loop has an even length and starts with the window's first sequence and structure symbols; the walk cannot fail when every `(` it may reach has a partner |
| `LoopExtractor.WalkLoop` | Ribozyme_generation.py:178-187 | the source's inner `for index` loop returns exactly `LoopWalk` |
| `LoopExtractor.WindowsInRange` | Ribozyme_generation.py:164-168 | in a measured candidate both loop windows lie inside the structure and are not reversed |
| `LoopExtractor.WindowWalk` | Ribozyme_generation.py:164-187 | on a balanced structure the walk over a loop window never fails; a non-empty window's loop starts at the window start |
| `LoopExtractor.RibozymeLoops` | Ribozyme_generation.py:134-191 | the sentinel `[['',''],[0,0]]` iff both totals are 0; otherwise both windows, shifted by the stem modifications, lie in the structure, the loops are `WindowLoops` of them (each the walk over its window), and the totals are base length plus modification |
| `LoopExtractor.WindowLoops` | Ribozyme_generation.py:175-189 | two loops, each the walk over its own window |
| `LoopExtractor.ReadLoop` | Ribozyme_generation.py:164-187 | one window: bounds from the part locations and the modification, then the walk |
| `LoopExtractor.ReadLoops` | Ribozyme_generation.py:175-189 | the outer loop over both windows returns exactly `WindowLoops` |
| `LoopExtractor.GetRibozymeLoops` | Ribozyme_generation.py:134-191 | the imperative extraction returns exactly `RibozymeLoops` |
| `LoopExtractor.LoopWalkShaped` | Ribozyme_generation.py:177-187 | every loop produced is read along a walk of the stated shape |
| `LoopExtractor.LoopsFollowTheWalk` | Ribozyme_generation.py:163-189 | each extracted loop is read along such a walk over its window |
| `LoopExtractor.BalancedNeverMalformed` | Ribozyme_generation.py:179-186 | a balanced candidate structure never makes the extraction fail |
| `ReferenceSplit.CutRibozymeLoops` | Ribozyme_generation.py:97-132 | three parts when cutting, two otherwise; fails (IndexError) iff cutting with fewer than two hairpins |
| `ReferenceSplit.CutAtHairpinIndices` | Ribozyme_generation.py:104-108 | three parts; each slices its sequence and structure with the same bounds, so they stay aligned |
| `ReferenceSplit.FirstHairpinLoop` | Ribozyme_generation.py:104-106 | the first two hairpins start at `(`, in order; when the first one closes, it closes before the second one starts, with no bracket in its loop |
| `ReferenceSplit.HairpinBeforeNext` | Util_functions.py:17-19 | a hairpin's first `)` comes before any later `(`, with no bracket between |
| `ReferenceSplit.CutPartsAtIndices` | Ribozyme_generation.py:106-108 | left part: everything through the first hairpin's `(`; top part: from its `)` through the second hairpin's `(`, or, when the first hairpin has no `)` (end -1), the final `(` or nothing; right part: from the second hairpin's `)` to the end, or the last symbol alone when that end is -1; for a sequence as long as the structure, each part's sequence is cut at the same positions |
| `ReferenceSplit.CutAtFirstHairpins` | Ribozyme_generation.py:101-108 | with at least two hairpins, cutting gives exactly the parts at the first two entries of `find_hairpins`, and those entries meet the bounds `CutPartsAtIndices` needs |
| `ReferenceSplit.SplitAtLeftRibozyme` | Ribozyme_generation.py:121-122 | without cutting, the two sequences partition the reference; the seam carries `.(` and `).`; part lengths agree when the seam leaves two symbols on each side |
| `ReferenceSplit.TrimStructure` | Ribozyme_generation.py:212 | the trimmed structure runs from the first `(` to the last `)` |
| `ReferenceSplit.CutAptamerHanging` | Ribozyme_generation.py:193-218 | as written: an empty structure fails (the IndexError of `structure[0]`); without a hanging end, or without the answer "y", the aptamer is unchanged; otherwise the structure is trimmed and the kept sequence is no longer than before |
| `ReferenceSplit.AsWrittenKeepsPrefix` | Ribozyme_generation.py:212-213 | as written, the kept sequence is the prefix as long as the trimmed structure |
| `ReferenceSplit.CutAptamerHangingAligned` | Ribozyme_generation.py:193-218 | the corrected trimming: an empty structure fails as in the source; without a hanging end, or without the answer "y", the aptamer is unchanged |
| `ReferenceSplit.AlignedTrimKeepsPairs` | Ribozyme_generation.py:202-216 | the corrected trimming keeps sequence and structure aligned, from the first `(` to the last `)` |
| `ReferenceSplit.AsWrittenMisaligns` | Ribozyme_generation.py:212-213 | for `ACG` / `.()`, the source keeps `AC`; the aligned trimming keeps `CG` |
| `CandidateList.DigitChar` | Generate_candidate_list.py:11 | `str(d)` of a base-5 digit is a digit whose value is `d` |
| `CandidateList.Base5` | Generate_candidate_list.py:9-13 | the digits are all in `0`..`4` |
| `CandidateList.Reversed` | Generate_candidate_list.py:13 | `s[::-1]` has the same length, with symbol `i` taken from the mirrored position |
| `CandidateList.ToBase5` | Generate_candidate_list.py:3-13 | the `while n` loop with the final reversal returns `Base5(n)` |
| `CandidateList.Base5RoundTrip` | Generate_candidate_list.py:9-13 | reading the digits in base 5 gives back `n` |
| `CandidateList.Base5Canonical` | Generate_candidate_list.py:9-13 | 0 has no digits; a positive number's leading digit is not 0 |
| `CandidateList.FromBase5RoundTrip` | Generate_candidate_list.py:9-13 | a digit string without a leading zero is the digit string of the number it denotes |
| `CandidateList.Base5Length` | Generate_candidate_list.py:36 | at most `k` digits iff below `5^k` |
| `CandidateList.ReplaceChar` | Generate_candidate_list.py:26 | `str.replace` of one symbol by another, position by position |
| `CandidateList.LoopOf` | Generate_candidate_list.py:22-28 | as long as the base-5 digits, with each digit mapped to S, A, U, C, G |
| `CandidateList.NReplace` | Generate_candidate_list.py:15-28 | the five successive replacements give `LoopOf(iteration)`; `num_N` plays no part |
| `CandidateList.LoopOfInjective` | Generate_candidate_list.py:22-28 | distinct iterations give distinct loops |
| `CandidateList.KeptLoops` | Generate_candidate_list.py:35-39 | after `n` iterations the list has at most `n` loops, each passing the filter (no `S`, at least `low_N` long) |
| `CandidateList.LoopList` | Generate_candidate_list.py:35-39 | the script's loop over `range(5 ** high_N)` builds `KeptLoops` |
| `CandidateList.KeptLoopsMembers` | Generate_candidate_list.py:36-39 | a loop is listed iff some iteration below the bound yields it and it passes the filter |
| `CandidateList.LoopOfDigits` | Generate_candidate_list.py:22-28 | every loop of A, U, C and G is produced by `N_replace` from the number whose base-5 digits it spells |
| `CandidateList.KeptLoopsSound` | Generate_candidate_list.py:36-39 | every kept loop is made of A, U, C, G, with a length from `low_N` to `high_N` |
| `CandidateList.KeptLoopsComplete` | Generate_candidate_list.py:35-39 | every A/U/C/G loop with a length from `low_N` to `high_N` is kept |
| `CandidateList.KeptLoopsDistinct` | Generate_candidate_list.py:35-39 | no loop is listed twice |
| `CandidateList.Candidate` | Generate_candidate_list.py:51-52 | a candidate is as long as its two loops plus the fixed pieces, begins with the 5' insulator and ribozyme arm, and ends with the 3' arm and insulator, whatever the loops |
| `CandidateList.CandidateLoops` | Generate_candidate_list.py:42-52 | both loops can be read back from a candidate at fixed offsets, between the fixed flanks |
| `CandidateList.Candidates` | Generate_candidate_list.py:49-52 | two candidates per loop, in order: loop then aptamer, then aptamer then loop |
| `CandidateList.CandidateSequences` | Generate_candidate_list.py:49-52 | the script's appending loop builds `Candidates` |
| `LoopEncoding.CodeIndex` | Train_additional_models.py:21-27 | `loop_codes.index` gives 0, 2, 4, 6 for A, U, C, G and fails for anything else |
| `LoopEncoding.PyAt` | Train_additional_models.py:28 | Python indexing succeeds exactly for indices from `-len` to `len-1` |
| `LoopEncoding.Channel` | Train_additional_models.py:27-28 | a channel is below 8 |
| `LoopEncoding.ChannelMeaning` | Predict_activities.py:19-26 | no channel exactly on an error (non-ACGU symbol or index out of range); otherwise the channel names the nucleotide (`AUCG[ch/2]`) and whether it is paired (odd channel) |
| `LoopEncoding.MarkRow` | Train_additional_models.py:37-39 | one row marked in column 0 and column 1, or failure exactly when either channel is missing |
| `LoopEncoding.MarkRows` | Train_additional_models.py:26-28 | the mirrored `for i` loop marks all rows below the bound, or fails iff some row's channel is missing |
| `LoopEncoding.MarkApex` | Predict_activities.py:29-31 | the apex is marked in column 0 only |
| `LoopEncoding.LoopOneHotEncode` | Train_additional_models.py:8-41 | a fresh 2×1×15×8 grid, all zero except the marks of `Cell`; none iff the source raises |
| `LoopEncoding.RowsHoldOneMark` | Predict_activities.py:18-37 | at most one mark per row; rows the loop does not reach stay zero; a reached row of an encodable loop holds one mark |
| `LoopEncoding.Position` | Train_additional_models.py:23-33 | each symbol of a loop of at most 30 has a filled cell: the front half in column 0, the back half mirrored in column 1 |
| `LoopEncoding.ShortLoopMarksEverySymbol` | Train_additional_models.py:23-33 | in a loop of at most 30, every symbol sets the channel of its nucleotide and pairing in its cell |
| `LoopEncoding.EncodableShortLoop` | Train_additional_models.py:27-33 | an encodable short loop contains only A, U, C, G |
| `LoopEncoding.ShortLoopDecodes` | Train_additional_models.py:20-33 | two short loops with the same grid have the same sequence and the same paired positions |
| `LoopEncoding.SameLength` | Train_additional_models.py:23-33 | two short loops with the same grid have the same length |
| `LoopEncoding.UnfilledCell` | Train_additional_models.py:26-33 | a longer short loop fills a cell the shorter one leaves empty |
| `LoopEncoding.Ends` | Train_additional_models.py:35-39 | the first 15 and last 15 symbols make a 30-symbol loop |
| `LoopEncoding.LongLoopKeepsEnds` | Predict_activities.py:33-37 | a loop over 30 is encoded exactly as its first 15 and last 15 symbols, and is encodable iff they are |
| `LoopEncoding.LoopBetween` | Train_additional_models.py:67-68 | the loop slice is no longer than the candidate, and its structure slice is as long as it when the candidate's structure is |
| `LoopEncoding.LoopSlices` | Predict_activities.py:65-72 | both loops, cut at the markers `GCUGUC`, `CUGAUGA` and `GAAACAGC`, keep their structure slices aligned |
| `LoopEncoding.LoopBetweenMarkers` | Train_additional_models.py:59-74 | the loop is the stretch strictly between the first `open` marker and the first later `close` marker; the structure slice is aligned with it |
| `LoopEncoding.MissingCloseMarker` | Predict_activities.py:65-72 | when the closing marker is absent, `find`'s -1 makes the loop run up to, but not including, the last symbol |

## Left out

- The RNAstructure calls (`RNAStructure_minimal_generator`,
  `RNAStructure_get_reference_structures`, Ribozyme_generation.py:9-77) are
  left out. They run an external folding program and read its files.
- Fold_candidate_list.py is not part of this model. It is a batch driver:
  folding, file reads and pickle output.
- The `ProgressBar` class in Util_functions.py is left out. It deals with
  clocks and terminal output.
- The scripts' module-level code is left out:
  - pickle loading and dumping;
  - Keras model building, training and prediction;
  - CSV writing;
  - the sorting of predictions;
  - the segmentation dictionaries (Train_additional_models.py:87-169,
    Predict_activities.py:85-142, Generate_candidate_list.py:55-57).
- In `struct_dict_to_array`, the model covers the loop slicing and the
  encoding of each loop. It leaves out:
  - the iteration over a dictionary;
  - `out_y`;
  - numpy's `concatenate`, `astype('float32')` and `expand_dims`.
- All `print` output is left out. Each `input()` answer is a parameter.
- `StemLengthAnalyzer.GetRibozymeStemLength` requires `WellPlaced`. That
  means:
  - three parts;
  - each part non-empty and found in the candidate;
  - the parts in order without overlap;
  - each part's structure as long as its sequence;
  - a structure as long as the sequence.

  The source with a two-part split (the uncut `cut_ribozyme_loops` result)
  indexes `ribozyme_parts[2]` and raises an IndexError; that case is not
  modelled. Nor is a part that is not found, where `find` gives -1 and the
  indices wrap. Nor is a part whose structure and sequence differ in length:
  the source then locates the part by its sequence but reads its structure
  with the same offsets, and may raise an IndexError.
- `LoopExtractor.GetRibozymeLoops` requires `WellPlaced`, for the same reason.
- `CandidateList.ToBase5` takes a natural number. With a negative `n` the
  source's `while n` loop never ends.
- `CandidateList.LoopList` takes `high_N` as a natural number. With a negative
  `high_N`, `5 ** high_N` is a float and `range` raises a TypeError.
- `LoopEncoding.LoopOneHotEncode` fills integer cells 0 and 1, where numpy
  uses floats. It returns None wherever the source raises (a ValueError from
  `loop_codes.index`, or an IndexError from a structure shorter than the
  sequence); it does not distinguish the two exceptions.

## Findings

| source | as written | input that shows it | evidently intended | confidence | as-written member | corrected member |
|---|---|---|---|---|---|---|
| Ribozyme_generation.py:212-213 | the sequence is sliced with `structure.find('(')` and `structure.rfind(')')` of the structure that was just trimmed, so the slice always starts at 0 | aptamer `ACG` with structure `.()`: the kept sequence is `AC` against the structure `()` | slice the sequence with the positions of the first `(` and last `)` in the original structure, keeping `CG` | high (follows from the code; not executed) | `ReferenceSplit.AsWrittenMisaligns` | `ReferenceSplit.AlignedTrimKeepsPairs` |
