# Discretiser and edge selection, modelled in Dafny

This project models two parts of a Bayesian-network toolkit.

**The discretiser** (`core/Discretiser.h`) turns a matrix of raw samples
into a matrix of integer codes of the same shape. The raw matrix has one row
per variable and one column per sample. Each row is coded by a method that
a control file selects for it:

- floor, ceil and round map each value to an integer;
- the arithmetic mean, harmonic mean, median or a manual threshold split the
  row into codes 0 and 1;
- bracket medians cut the sorted values into k groups of near-equal size;
- Pearson–Tukey cuts at two tail quantiles and gives codes 0, 1 and 2;
- the nominal method numbers the distinct labels of a row in order of first
  appearance and records them in a forward registry (label to code) and a
  reverse registry ((code, row) to label).

Before any row is coded, every spelling of a missing sample is rewritten to
one canonical token. A missing sample gets the missing code −1 and takes
no part in any statistic.

**The edge-selection state machine** (`gui/NetworkInstance.cpp`) is how a
user adds an edge to the network view, by selecting two nodes, or removes
one.

Modules:

| file | module | contents |
|---|---|---|
| `wrappers.dfy` | `Wrappers` | `Option`, `Result`, `Outcome` |
| `statistics.dfy` | `Statistics` | sum, mean, harmonic mean, sorting, median, quantile positions |
| `codes.dfy` | `Codes` | floor, ceil and round codes, and the rank of a value among cut points |
| `brackets.dfy` | `Brackets` | group sizes and group edges of the bracket-medians method |
| `discretisations.dfy` | `Discretisations` | reading a row's cells, the strategies, the descriptors (a method plus its cut points), classification |
| `labels.dfy` | `Labels` | first-appearance numbering and the two registries, as functions |
| `control.dfy` | `Control` | a control file already read, and selecting each row's strategy from it |
| `engine.dfy` | `Engine` | the `Discretiser` class and the `Registries` class |
| `gui.dfy` | `Gui` | the `NetworkInstance` class |

How the model represents the discretiser's state:

- `Discretiser` owns its copy of the raw matrix, a `seq<seq<string>>` indexed [row][column].
- The caller's coded matrix is an `array2<int>` indexed [column, row], the order of `getEntry(col, row)`.
- The caller's registries are fields of a `Registries` object.
- Each row method changes only its own row of the coded matrix.
- A row method that fails changes nothing.
- `Discretise` is all-or-nothing:
  - it first selects every row's strategy;
  - it then checks that every row can be coded;
  - only then does it write any code.
  - So when it fails, the coded matrix and the registries are as they were before the call.

The header declares the discretiser's operations but does not show their
bodies. Their behaviour here follows the header's doc comments and the
choices listed below:

- A two-code method gives 1 to a value at or above the statistic and 0 to a value below it.
- Statistics are taken over the non-missing values.
- A statistic that is undefined (no values, or for the harmonic mean a value that is not positive) is a domain error.
- A sample that is neither the missing token nor a number is a format error, reported at the first such column.
- Bracket medians sort the values and form k groups. The first n mod k groups get one value more than the rest. The first value of every group after the first is a cut point, and a value's code is the number of cut points at or below it.
  - For distinct values, a value's code is the index of its group.
  - Equal values share one code. When a group starts with a value equal to the previous group's values, the two groups get the same code and some codes go unused. For example, four values 1.0 in two groups have the single cut point 1.0, so every value is coded 1 and code 0 is unused.
- Pearson–Tukey cuts at the sorted values at the two tail quantiles. Its code is the number of cuts at or below the value.
- Rounding truncates, then moves one away from zero when the first decimal digit is 5 or more.
- `getEntry` on a row that has not been coded is an access-before-ready error. The C++ signature returns a bare `int` and has no error channel.

Node ids reach the window as unsigned 32-bit integers. The fields that hold
them use −1 for "no node". `Gui.AsStored` is the conversion into those fields.
The model takes the fields to be signed 32-bit integers (see "Left out"), so
ids from 2^31 up become negative, and id 4294967295 becomes −1, the same as
"no node".

## Model

| member | source | states |
|---|---|---|
| `Codes.FloorCode` | core/Discretiser.h:64-70 | the floor code r is the largest integer not above x: r <= x < r + 1 |
| `Codes.CeilCode` | core/Discretiser.h:80-86 | the ceil code r is the smallest integer not below x: x <= r < x + 1 |
| `Codes.FloorCeilAgreement` | core/Discretiser.h:64-86 | ceil equals floor exactly when x is an integer, otherwise it is floor + 1 |
| `Codes.IntegerPart` | core/Discretiser.h:88-94 | truncation toward zero: within one of x, on x's side of zero |
| `Codes.FirstDecimalDigit` | core/Discretiser.h:88-94 | the first digit after the point is between 0 and 9 |
| `Codes.DigitAtLeastFive` | core/Discretiser.h:88-94 | the first decimal digit is 5 or more exactly when the fractional part is at least one half |
| `Codes.RoundIsNearestHalfAway` | core/Discretiser.h:88-94 | the first-digit rule equals rounding to nearest, halves away from zero |
| `Codes.RoundWithinHalf` | core/Discretiser.h:88-94 | the round code is within one half of x, and exact halves move away from zero |
| `Codes.RoundCode` | core/Discretiser.h:88-94 | the round code is the floor or the ceil of x, and keeps x's side of zero |
| `Codes.RoundMonotone` | core/Discretiser.h:88-94 | rounding preserves the order of values |
| `Codes.Rank` | core/Discretiser.h:129-144 | the rank of a value is at most the number of cut points |
| `Codes.RankMonotone` | core/Discretiser.h:96-144 | a larger value never gets a smaller rank |
| `Codes.RankOfSplitPoint` | core/Discretiser.h:129-144 | a value at or above exactly the first m cut points has rank m |
| `Codes.SingleCut` | core/Discretiser.h:96-127 | with a single cut point t the rank is 1 when x >= t and 0 otherwise |
| `Statistics.MeanWithin` | core/Discretiser.h:96-102 | the mean lies between any lower and upper bound of the values |
| `Statistics.MeanSplitsNonConstant` | core/Discretiser.h:96-102 | values that are not all equal have one below the mean and one at or above it |
| `Statistics.SumOfConstant` | core/Discretiser.h:96-102 | n equal values sum to n times the value |
| `Statistics.Mean` | core/Discretiser.h:96-102 | the mean of a row of equal values is that value |
| `Statistics.Reciprocals` | core/Discretiser.h:104-110 | each element is 1 / x of the value at the same position, and is positive |
| `Statistics.ReciprocalSumPositive` | core/Discretiser.h:104-110 | the reciprocal sum of positive values is positive |
| `Statistics.HarmonicMean` | core/Discretiser.h:104-110 | the harmonic mean of positive values is positive |
| `Statistics.Insert` | core/Discretiser.h:112-118 | inserting into a sorted sequence keeps it sorted and adds exactly that element |
| `Statistics.PrependSorted` | core/Discretiser.h:112-118 | a lower bound prepended to a sorted sequence keeps it sorted |
| `Statistics.LowerBoundKept` | core/Discretiser.h:112-118 | a lower bound of x and of the rest bounds every element after insertion |
| `Statistics.Sort` | core/Discretiser.h:112-118 | the result is sorted and a permutation of the input |
| `Statistics.SortAscending` | core/Discretiser.h:112-118 | sorting a sorted sequence changes nothing |
| `Statistics.MiddleOf` | core/Discretiser.h:112-118 | the middle of a sorted sequence lies between its first and last element |
| `Statistics.Median` | core/Discretiser.h:112-118 | the median lies between two of the values |
| `Statistics.MedianWithin` | core/Discretiser.h:112-118 | the median lies between any lower and upper bound of the values |
| `Statistics.PositionBounds` | core/Discretiser.h:138-144 | a quantile position lies within the index range |
| `Statistics.PositionMonotone` | core/Discretiser.h:138-144 | a higher quantile has a higher position |
| `Statistics.QuantileIndex` | core/Discretiser.h:138-144 | the quantile index is a valid index and the floor of the position |
| `Statistics.QuantileIndexMonotone` | core/Discretiser.h:138-144 | the low-tail index is never after the high-tail index |
| `Brackets.BracketStartClosedForm` | core/Discretiser.h:129-136 | group i starts at i * (n / k) + min(i, n mod k) |
| `Brackets.BracketSize` | core/Discretiser.h:129-136 | a group holds n / k or n / k + 1 values, the larger size exactly for the first n mod k groups |
| `Brackets.BracketStart` | core/Discretiser.h:129-136 | group i starts between i * (n / k) and i * (n / k + 1) |
| `Brackets.BracketsCoverAll` | core/Discretiser.h:129-136 | the k groups together hold all n values |
| `Brackets.BracketSizesBalanced` | core/Discretiser.h:129-136 | group sizes differ by at most one, larger groups first |
| `Brackets.BracketStartMonotone` | core/Discretiser.h:129-136 | groups follow each other in order |
| `Brackets.NonEmptyStartsInside` | core/Discretiser.h:129-136 | every non-empty group starts inside the sorted values |
| `Brackets.BracketSizePositive` | core/Discretiser.h:129-136 | the first min(n, k) groups are not empty |
| `Brackets.QuotientAtLeastOne` | core/Discretiser.h:129-136 | with at least k values every group gets one; with fewer, n / k is 0 |
| `Brackets.BracketEdges` | core/Discretiser.h:129-136 | fewer than k edges, each the first sorted value of a non-empty group after the first |
| `Brackets.BracketCodeRange` | core/Discretiser.h:129-136 | every bracket-medians code lies in 0 .. k - 1 |
| `Brackets.OccupiedGroupIsNonEmpty` | core/Discretiser.h:129-136 | a group that holds a value is one of the non-empty groups |
| `Brackets.EdgesBelowGroup` | core/Discretiser.h:129-136 | the edges of earlier groups are at most any value of a later group |
| `Brackets.EdgesAboveGroup` | core/Discretiser.h:129-136 | for distinct values, the edges of later groups lie above every value of an earlier group |
| `Brackets.BracketCodeIsGroup` | core/Discretiser.h:129-136 | for distinct values, a value's code is the index of the group it falls in |
| `Brackets.TenValuesInThreeBrackets` | core/Discretiser.h:129-136 | ten values in three groups are split 4, 3, 3 |
| `Discretisations.ReadCells` | core/Discretiser.h:64-144 | a row reads only when every sample is missing or a number; otherwise the format error names the first bad column |
| `Discretisations.Values` | core/Discretiser.h:96-144 | exactly the numbers of the row are kept, and missing samples are dropped |
| `Discretisations.TailCuts` | core/Discretiser.h:138-144 | two cut points, the low one not above the high one |
| `Discretisations.Cuts` | core/Discretiser.h:96-144 | one cut for a split, fewer than k for bracket medians, two for Pearson–Tukey |
| `Discretisations.Describe` | core/Discretiser.h:96-144 | a descriptor is built exactly when the statistic is defined; otherwise it is a domain error of the row |
| `Discretisations.ClassifyMonotone` | core/Discretiser.h:64-144 | every numeric method preserves the order of values |
| `Discretisations.SplitCode` | core/Discretiser.h:96-127 | a split codes 1 at or above its statistic or threshold and 0 below it |
| `Discretisations.Classify` | core/Discretiser.h:64-144 | floor, ceil and round codes are within one of the value; every other method gives a rank between 0 and the number of cut points |
| `Discretisations.Encode` | core/Discretiser.h:64-144 | a missing sample gets the missing code; under a cut-point method a sample gets the missing code exactly when it is missing |
| `Discretisations.CodeRanges` | core/Discretiser.h:96-144 | split codes are 0 or 1, bracket codes 0 .. k - 1, Pearson–Tukey codes 0 .. 2 |
| `Discretisations.ValuesSkipMissing` | core/Discretiser.h:96-144 | a missing sample does not change the values a statistic sees |
| `Discretisations.MissingCellsIgnored` | core/Discretiser.h:96-144 | inserting a missing sample does not change a row's descriptor |
| `Discretisations.MeanSplitYieldsBothCodes` | core/Discretiser.h:96-102 | a row whose values are not all equal gets both codes under the mean split |
| `Discretisations.CellOf` | core/Discretiser.h:96-144 | finds the column that holds a value of the row |
| `Discretisations.SortedValueInRow` | core/Discretiser.h:129-144 | every sorted value stands in some column |
| `Discretisations.TailRanks` | core/Discretiser.h:138-144 | the smallest value, the low cut and the largest value rank 0, 1 and 2 |
| `Discretisations.PearsonTukeyYieldsThreeCodes` | core/Discretiser.h:138-144 | a spread row of distinct values gets all three codes |
| `Discretisations.ValuesOfComplete` | core/Discretiser.h:96-144 | a row with no missing sample keeps all its values in order |
| `Discretisations.MedianOfOneToFive` | core/Discretiser.h:112-118 | the median of 1, 2, 3, 4, 5 is 3 |
| `Discretisations.MedianExample` | core/Discretiser.h:112-118 | 1, 2, 3, 4, 5 under the median split is coded 0, 0, 1, 1, 1 |
| `Labels.FirstSeen` | core/Discretiser.h:146-152 | the distinct labels of a row other than the missing token, each exactly once |
| `Labels.IndexOf` | core/Discretiser.h:146-152 | the first position of a label |
| `Labels.LabelCode` | core/Discretiser.h:146-152 | the missing token gets the missing code; any other label gets the position at which it stands in the first-appearance order |
| `Labels.Forward` | core/Discretiser.h:164-165 | the forward registry gains exactly the row's labels and keeps every code it held |
| `Labels.Reverse` | core/Discretiser.h:166-167 | (i, row) maps to the i-th label; keys of other rows are kept; nothing else is added |
| `Labels.FirstSeenPrefix` | core/Discretiser.h:146-152 | the numbering of a prefix of a row is a prefix of the row's numbering |
| `Labels.IndexOfPrefix` | core/Discretiser.h:146-152 | appending labels does not move earlier ones |
| `Labels.LabelCodeOfPrefix` | core/Discretiser.h:146-152 | a label's code is fixed when it first appears |
| `Labels.LabelCodesInjective` | core/Discretiser.h:146-152 | equal labels get equal codes and distinct labels distinct codes, all in 0 .. count - 1 |
| `Labels.FirstAppearanceGetsNextCode` | core/Discretiser.h:146-152 | a label seen for the first time gets the number of labels seen before it |
| `Labels.ReverseRoundTrip` | core/Discretiser.h:166-167 | the reverse registry maps each written (code, row) back to its label |
| `Labels.ForwardCodes` | core/Discretiser.h:164-165 | a label new to the forward registry gets its code in the row |
| `Labels.NumberingStep` | core/Discretiser.h:146-152 | the code found at each step is the label's code in the whole row |
| `Labels.FirstSeenOfPair` | core/Discretiser.h:146-152 | a, b and a, b, a are both numbered a, b |
| `Labels.FirstSeenOfRepeat` | core/Discretiser.h:146-152 | a row a, b, a, c of distinct labels is numbered a, b, c |
| `Labels.RedBlueRedGreenOrder` | core/Discretiser.h:146-152 | red, blue, red, green is numbered red, blue, green |
| `Labels.RedBlueRedGreenCodes` | core/Discretiser.h:146-152 | red, blue, red, green is coded 0, 1, 0, 2, and (0, row) maps back to red |
| `Labels.RedBlueRedGreenForward` | core/Discretiser.h:164-165 | an empty forward registry becomes red 0, blue 1, green 2 |
| `Labels.CodesReusedAcrossRows` | core/Discretiser.h:166-167 | the same code stands for different labels in different rows |
| `Control.ToStrategy` | gui/NetworkInstance.cpp:58-63 | a directive fails exactly when the method's parameter is not given; an absent parameter is a missing-parameter error and one that does not convert is a bad-parameter error |
| `Control.DirectiveRoundTrip` | core/Discretiser.h:61 | every strategy written as a directive is read back unchanged |
| `Control.UnusedParametersIgnored` | core/Discretiser.h:61 | parameters a method does not use do not affect what it selects |
| `Control.Configure` | core/Discretiser.h:61 | it succeeds exactly when every row is listed and configured, giving one strategy per row; otherwise the first failing row decides the error |
| `Control.FailureSticks` | core/Discretiser.h:61 | once a prefix of rows fails, the whole configuration fails with the same error |
| `Control.ManualWithoutThresholdFails` | core/Discretiser.h:120-127 | a manual directive without a threshold fails the configuration, with that row's missing threshold when it is the first failure |
| `Engine.NormalizeIdempotent` | core/Discretiser.h:154-158 | normalising missing-value spellings twice is the same as once |
| `Engine.NormalizeMatrix` | core/Discretiser.h:154-158 | the shape is kept; a sample is the canonical token afterwards exactly when it was a missing spelling, and every other sample is unchanged |
| `Engine.NumberedLookup` | core/Discretiser.h:146-152 | a label found in the code table has its position in the order as its code; a label not in the table is not in the order |
| `Engine.NumberedExtend` | core/Discretiser.h:146-152 | numbering a new label appends it to the order under the next code, and the table stays consistent |
| `Engine.Registries.constructor` | core/Discretiser.h:164-167 | both registries start empty |
| `Engine.Discretiser.constructor` | core/Discretiser.h:21-23 | keeps the raw matrix, the coded matrix and the registries; no row is coded yet |
| `Engine.Discretiser.WithControlFile` | core/Discretiser.h:37-40 | constructs and discretises. On failure: nothing written, registries unchanged, and the error is the configuration's or the first unready row's. On success: the configured strategies, every row's descriptor recorded and codes written, nominal labels round-trip, existing registry entries kept, and the final registries are `Engine.ForwardFold`/`Engine.ReverseFold` of the rows |
| `Engine.Discretiser.GetEntry` | core/Discretiser.h:47-55 | returns the code at (col, row) for a coded row, and an access-before-ready error otherwise |
| `Engine.Discretiser.CodeOf` | core/Discretiser.h:64-152 | a missing sample's code is the missing code; under the nominal method only a missing sample gets it |
| `Engine.Discretiser.AdaptFormat` | core/Discretiser.h:154-158 | the raw matrix becomes its normalisation, and nothing else changes |
| `Engine.Discretiser.CreateDiscretisationClasses` | core/Discretiser.h:61 | selects exactly the strategies of `Control.Configure`, or fails with its error and changes nothing |
| `Engine.Discretiser.WriteRow` | core/Discretiser.h:160-163 | the row holds the given codes and every other row is untouched |
| `Engine.Discretiser.DiscretiseRow` | core/Discretiser.h:64-144 | codes each cell under the row's descriptor, records the descriptor and touches only that row; the codes follow the order of the values; on failure nothing changes |
| `Engine.Discretiser.DiscretiseFloor` | core/Discretiser.h:64-70 | every value's code c has c <= x < c + 1, and missing samples get −1 |
| `Engine.Discretiser.DiscretiseCeil` | core/Discretiser.h:80-86 | every value's code c has x <= c < x + 1, and missing samples get −1 |
| `Engine.Discretiser.DiscretiseRound` | core/Discretiser.h:88-94 | every value's code is its nearest integer, halves away from zero |
| `Engine.Discretiser.SplitFromRecorded` | core/Discretiser.h:96-127 | a split descriptor codes a value 1 exactly when it is at or above the split point |
| `Engine.Discretiser.DiscretiseByAMean` | core/Discretiser.h:96-102 | a value is 1 when at or above the row's arithmetic mean and 0 below it; a row with no values fails |
| `Engine.Discretiser.DiscretiseByHMean` | core/Discretiser.h:104-110 | a value is 1 when at or above the harmonic mean and 0 below it; it succeeds only when the values are all positive |
| `Engine.Discretiser.DiscretiseByMedian` | core/Discretiser.h:112-118 | a value is 1 when at or above the median and 0 below it |
| `Engine.Discretiser.DiscretiseManually` | core/Discretiser.h:120-127 | a value is 1 when at or above the threshold and 0 below it; only an unreadable sample fails |
| `Engine.Discretiser.DiscretiseBracketMedians` | core/Discretiser.h:129-136 | codes lie in 0 .. k - 1 and follow the order of the values; zero brackets fail |
| `Engine.Discretiser.DiscretisePearsonTukey` | core/Discretiser.h:138-144 | codes lie in 0 .. 2 and follow the order of the values; the recorded cuts are the tail quantiles |
| `Engine.Discretiser.NextCode` | core/Discretiser.h:146-152 | a label gets its existing code in the row, or the next code, which is then registered |
| `Engine.Discretiser.NumberNext` | core/Discretiser.h:146-152 | reading one sample keeps the numbering state and registries consistent |
| `Engine.Discretiser.NumberLabels` | core/Discretiser.h:146-152 | every sample gets its first-appearance code, and the registries gain the row's labels |
| `Engine.Discretiser.MapNamesToInt` | core/Discretiser.h:146-152 | writes the label codes, records the registries, and the reverse registry gives back the label of every written code |
| `Engine.Discretiser.ApplyStrategy` | core/Discretiser.h:58 | codes a ready row with its strategy and records exactly that row's descriptor; touches only that row; a nominal row updates the registries as `Labels.Forward`/`Labels.Reverse` and round-trips, other methods leave them unchanged; other rows' registry entries are kept |
| `Engine.Discretiser.PlanAll` | core/Discretiser.h:58 | passes exactly when every row can be coded; otherwise names the first row that cannot |
| `Engine.ForwardFoldKeys` | core/Discretiser.h:146-152 | after rows 0 .. done - 1 register, a label is in the forward registry exactly when it was there before or is a non-missing label of a categorical row among them; labels already there keep their codes |
| `Engine.ReverseFoldEntries` | core/Discretiser.h:146-152 | after rows 0 .. done - 1 register, (code, row) is in the reverse registry exactly when it was there before or row is categorical and code is below its label count; then it maps to that row's label with that code, and untouched entries keep their labels |
| `Engine.FoldTrace` | core/Discretiser.h:58 | registering the rows one after another passes through the folds of 0, 1, … rows, ending at the fold of all rows |
| `Engine.Discretiser.ApplyNext` | core/Discretiser.h:58 | discretising the next row extends the coded prefix by one and advances the registries by exactly that row's labels |
| `Engine.Discretiser.ApplyRows` | core/Discretiser.h:58 | discretising the remaining rows in order codes every row and leaves the registries at the end of the trace |
| `Engine.Discretiser.AppliedAll` | core/Discretiser.h:58 | when every row is coded and the registries are the folds of all rows, every label of a categorical row round-trips, earlier forward entries are kept and reverse entries of other rows are kept |
| `Engine.Discretiser.ApplyAll` | core/Discretiser.h:58 | every row holds its codes and its recorded descriptor, every label of a nominal row round-trips through the registries, forward entries are kept, reverse entries of non-nominal rows are kept, and the final registries are exactly `Engine.ForwardFold`/`Engine.ReverseFold` of the old ones over all rows |
| `Engine.Discretiser.Discretise` | core/Discretiser.h:58 | normalises, then either codes every row as the control file says (descriptors recorded, nominal labels round-trip, existing registry entries kept, final registries the folds of all rows) or fails with the first error and leaves the coded matrix and registries unchanged |
| `Gui.AsStored` | gui/NetworkInstance.cpp:211-228 | ids below 2^31 are stored unchanged; only id 4294967295 becomes the "no node" value |
| `Gui.NetworkInstance.constructor` | gui/NetworkInstance.cpp:5-16 | no edge addition is pending, no node is chosen, argmax is off |
| `Gui.NetworkInstance.SetArgMax` | gui/NetworkInstance.cpp:184-186 | the flag becomes the given value and nothing else changes |
| `Gui.NetworkInstance.IsArgMax` | gui/NetworkInstance.cpp:188-190 | returns the flag |
| `Gui.NetworkInstance.InitialiseEdgeAddition` | gui/NetworkInstance.cpp:192-196 | two selections remain and both ids are cleared |
| `Gui.NetworkInstance.EdgeAddition` | gui/NetworkInstance.cpp:198-200 | true exactly when selections remain |
| `Gui.NetworkInstance.CheckEdgeAddition` | gui/NetworkInstance.cpp:202-209 | false while no source is chosen; otherwise what the network says about the edge |
| `Gui.NetworkInstance.NodeForEdgeAdditionSelected` | gui/NetworkInstance.cpp:211-223 | the first selection records the source and adds nothing; the second adds exactly (source, id) and clears both ids; each selection uses one up |
| `Gui.NetworkInstance.AddEdgeRemoval` | gui/NetworkInstance.cpp:225-228 | records both ends of the edge to remove |
| `Gui.NetworkInstance.RemoveSelectedEdge` | gui/NetworkInstance.cpp:238-243 | removes exactly the recorded edge and clears both ids |
| `Gui.NetworkInstance.SetSelectedNode` | gui/NetworkInstance.cpp:245-248 | records the selected node |
| `Gui.AddEdgeBySelectingTwoNodes` | gui/NetworkInstance.cpp:192-223 | after initialisation, two selections add exactly one edge and end edge-addition mode |
| `Gui.RemoveChosenEdge` | gui/NetworkInstance.cpp:225-243 | choosing an edge and confirming removes exactly that edge, its ids converted as stored; for ids below 2^31 that is the edge chosen |
| `Gui.ArgMaxReadsBack` | gui/NetworkInstance.cpp:184-190 | the flag read back is the one last set, and no other field changes |
| `Gui.NoTargetBeforeSource` | gui/NetworkInstance.cpp:192-209 | right after initialisation no target is possible, whatever the network would say |

## Left out

- `discretiseZ` (core/Discretiser.h:72-78) is not modelled. It needs a standard deviation (a square root), and its cut points are not shown.
- Parsing samples into numbers is a parameter `parse`, and all arithmetic is on exact `real` numbers. The model has no IEEE floats, so `float` rounding of thresholds and statistics is not captured.
- The set of missing-value spellings is a parameter, and so is the canonical token. The same goes for the two Pearson–Tukey quantiles.
- Reading the control file is not modelled. A file that has already been read is a map from rows to directives. The two ways a parameter can fail, missing and unconvertible, are kept apart.
- `core/Discretisations.h` and `core/Network.h` are not part of this model. The discretisation objects are the `Strategy` and `Descriptor` values, and the `Network` passed to the constructors is reduced to the two label registries it holds.
- Copy and move assignment are deleted in the class (core/Discretiser.h:42-44). Dafny objects are references, so this is not modelled.
- Rows are coded one after another, never in parallel.
- The missing code −1 is also the code of some values between −2 and 0. The floor code is −1 on [−1, 0), the ceil code on (−2, −1], and the round code on (−1.5, −0.5]. A missing sample and such a value give the same code. The model keeps this collision and does not resolve it.
- A label that is already in the forward registry keeps its older code. So the forward registry need not hold the code a later categorical row writes, and two labels can share a forward code. For example, the rows `[blue]` and then `[red, blue]` leave the forward registry `{blue: 0, red: 0}`, while row 1 codes blue as 1. The reverse registry, keyed by (code, row), always gives back the written label. The model keeps the forward registry as `Labels.Forward` builds it.
- `Control.Configure`: a row that the control file does not list fails the whole pass with a missing-directive error. The header (core/Discretiser.h:34-35) says only that the rows listed in the file are discretised, and it leaves unsaid what an unlisted row holds. The model chooses failure because every row needs a discretisation (one per row, core/Discretiser.h:169) before its codes can be read. Leaving unlisted rows uncoded is not modelled.
- Codes are unbounded integers, while the coded `Matrix<int>` holds 32-bit values. Floor, ceil and round codes of values beyond ±2^31 would overflow there, and that overflow is not modelled.
- `Statistics.HarmonicMean`: only positivity is proved. That the harmonic mean lies between the smallest and largest value is not proved.
- `Discretisations.MeanSplitYieldsBothCodes`: "a non-constant row gets both codes" is proved for the arithmetic mean only. Under the median split it can fail: 1, 1, 2 has median 1, and every value is coded 1.
- `Gui.AddEdgeBySelectingTwoNodes`: the source id must be below 2^31. With source id 4294967295 the first selection is stored as "no node", and no edge is added.
- `gui/NetworkInstance.h` is not part of this model, so the types of the fields are assumed:
  - `id1_` and `id2_` are taken to be signed 32-bit integers, which the −1 "no node" value suggests. `Gui.AsStored` depends on this.
  - `remainingNodesForEdgeAddition_` is taken to be a signed `int`, so a third selection makes it −1 rather than wrapping.
- Outside the edge-selection state machine, `NetworkInstance` is Qt plumbing and calls into code that is not shown. This covers loading, training, drawing, colouring, export, the node-name getters and `loadSamples`/`calculate`. The calls into the view and the `edgeAdded`/`edgeRemoved` signals become one ghost event log.
- `selectedNode_` is left uninitialised by the C++ constructor, and the model states nothing about its initial value.
