# static-frame label indexing, modelled in Dafny

This project models the label-to-position engine of static-frame. It covers
two Python files:

- `static_frame/core/index.py`: the flat `Index` and its grow-only variant
  `IndexGO`;
- `static_frame/core/index_hierarchy.py`: the multi-level `IndexHierarchy`
  and `IndexHierarchyGO`.

A flat index holds a sequence of distinct labels (integers or strings) and a
map from each label to its position. When the index is "loc is iloc" (the
labels are exactly 0, 1, …, n-1), it keeps no map. A hierarchy has two
parts:

- one flat index per depth (`indices`);
- one integer indexer per depth (`indexers`).

Row `p` of the hierarchy is the tuple of `indices[d].labels[indexers[d][p]]`
over the depths. Its rows must be distinct.

Modules, one per file:

| module | file | what it holds |
|---|---|---|
| `Labels` | labels.dfy | label values, distinctness, first-seen order, position maps, masks |
| `Errors` | errors.dfy | the error kinds raised by the source, with their message texts |
| `FlatIndex` | flat_index.dfy | the immutable `Index` as a value: construction, containment, `loc_to_iloc`, `_drop_iloc`, `_ufunc_set`, `_index_iloc_map`, growth |
| `IndexGrowOnly` | index_go.dfy | `IndexGO`, a class with the mutable label list, position count and recache flag |
| `Product` | product.dfy | `build_indexers_from_product`, proved equal to the Cartesian product |
| `IndexHierarchy` | hierarchy.dfy | the hierarchy value, `_ensure_uniqueness`, `__init__`, copy, `_from_empty`, `level_add`, `level_drop` |
| `HierarchyBuild` | hierarchy_build.dfy | `from_labels`: the loop over rows with hash maps and the continuation token |
| `HierarchyConstructors` | hierarchy_ctors.dfy | `from_product`, `_from_tree` / `from_tree` |
| `IndexItems` | hierarchy_items.dfy | `from_index_items`: the loop that grows one inner `IndexGO` |
| `DelimitedLabels` | hierarchy_delimited.dfy | `from_labels_delimited` with its `to_label` parser |
| `HierarchyOps` | hierarchy_ops.dfy | `_extract_iloc` and `relabel_at_depth` |
| `HierarchySelect` | hierarchy_select.dfy | `_build_mask_for_key_at_depth`, `_loc_to_iloc_single_key`, the tuple and `HLoc` routes of `_loc_to_iloc`, `__contains__` |
| `HierarchyGrowOnly` | hierarchy_go.dfy | `IndexHierarchyGO`: a class with pending extensions, `append`, `extend` and `_update_array_cache` |

Code that mutates objects in place is modelled as Dafny classes with
`modifies` clauses:

- `IndexGO`;
- `IndexHierarchyGO`;
- the inner `IndexGO` grown by `from_index_items`.

Loops are Dafny `while` loops with invariants:

- the `from_labels` hash-map loop;
- the `from_index_items` walk;
- the per-depth growth and replay loops of `IndexHierarchyGO`.

Each such method is proved against a specification function. Pure code is
modelled as functions and lemmas.

External behaviour is passed in as parameters:

- `literal_eval` is a parameter of type `string -> Result<Label>`;
- `AutoMap` is modelled by its documented contract, a map from each label to
  its position (`PositionMap`).

## Model

| member | source | states |
|---|---|---|
| Labels.FirstSeenSpec | static_frame/core/index_hierarchy.py:497-503 | the order in which a hash map first observes labels has no repeats and holds exactly the labels of the input |
| Labels.PositionMapInverts | static_frame/core/index_hierarchy.py:497-503 | the map built by numbering labels in first-seen order sends each label of a distinct sequence back to its own position, and holds no other keys |
| Labels.RepeatCountIsTotalMinusDistinct | static_frame/core/index.py:237-239 | the number of non-unique values reported equals the total count minus the number of distinct labels |
| Labels.FirstRepeatSpec | static_frame/core/index_hierarchy.py:742-751 | the first duplicated row is found exactly when the sequence is not distinct; the prefix before it is distinct and contains it |
| Labels.MaskPositionsSpec | static_frame/core/index.py:884-899 | a Boolean mask selects exactly the positions where it is true, in ascending order |
| Labels.KeepMembers | static_frame/core/index.py:565-576 | deleting positions keeps exactly the labels at positions not deleted |
| Labels.KeepAtMaskPositions | static_frame/core/index.py:565-576 | the kept labels are the labels at the kept positions, in ascending position order |
| Labels.StrideBounds | static_frame/core/index.py:570-572 | a range of positions stays between its first position and its exclusive end and walks strictly in its step's direction, so it never repeats a position |
| Labels.StrideAt | static_frame/core/index.py:570-572 | entry k of a range is its first position plus k steps |
| Labels.StrideEnds | static_frame/core/index.py:570-572 | a range stops at the first step that would reach or pass its end |
| Labels.SlicePositions | static_frame/core/index.py:570-572 | the positions a slice walks over n positions are in 0..n-1 and distinct: bounds are clipped rather than refused |
| Labels.SliceWhole | static_frame/core/index.py:570-572 | the slice with no bounds and no step walks every position in order |
| Labels.SliceReversed | static_frame/core/index.py:570-572 | the slice `[::-1]` walks every position from the last to the first |
| Labels.KeepDistinct | static_frame/core/index.py:565-576 | deleting positions from a distinct label sequence leaves it distinct |
| FlatIndex.New | static_frame/core/index.py:245-352 | building from labels succeeds iff the labels are distinct (or loc is iloc), keeps their order, and omits the map only when loc is iloc; duplicates raise the non-unique error; a single string raises ErrorInitIndex; building from an index copies it |
| FlatIndex.NonUniqueReport | static_frame/core/index.py:232-241 | the non-unique error reports the total count minus the distinct count (at least 1) and from 1 to 10 example labels, each of which occurs more than once |
| FlatIndex.MostFrequentIsRepeated | static_frame/core/index.py:236-239 | when labels repeat, the most common label (first in the count-descending order) does occur more than once |
| FlatIndex.SortByCountSorted | static_frame/core/index.py:238 | the most_common order is descending by occurrence count |
| FlatIndex.MutableImmutableFilter | static_frame/core/index.py:117-135 | the filtered index has the target mutability and the same labels and map, and it is the very same index when both are immutable |
| FlatIndex.ContainsIffMember | static_frame/core/index.py:1069-1076 | `__contains__` answers true exactly for the index's labels, both for a loc-is-iloc index (integer in 0..n-1) and for a mapped one |
| FlatIndex.Position | static_frame/core/index.py:831-874 | looking up a present label yields a position that holds that label |
| FlatIndex.LocToIloc | static_frame/core/index.py:876-910 | a single label yields one position, and a list of labels yields one position per label |
| FlatIndex.LocToIlocFindsLabel | static_frame/core/index.py:831-874 | every label translates to its own position |
| FlatIndex.LocToIlocMissing | static_frame/core/index.py:876-891 | on an index with a map, a single label is found iff it is a label of the index; otherwise the lookup raises KeyError with that label |
| FlatIndex.LocToIlocList | static_frame/core/index.py:876-891 | on an index with a map, a list of labels is found iff every element is present, and each result position holds the matching label |
| FlatIndex.LocIsIlocSliceAccepts | static_frame/core/index.py:900-906 | with loc is iloc, a slice is accepted iff its bounds are integers or absent, its step is not 0 and its stop is below the length; an accepted stop is made inclusive |
| FlatIndex.OpenStopSliceRejectedAsWritten | static_frame/core/index.py:900-906 | as written, `ix.loc_to_iloc(slice(1, None))` on a three-label loc-is-iloc index raises TypeError; the corrected definition returns the slice from 1 |
| FlatIndex.DepthLevelValidate | static_frame/core/index.py:764-775 | a depth level passes iff it is 0 or -1, or a one-element list of 0 or -1; otherwise RuntimeError |
| FlatIndex.DropIloc | static_frame/core/index.py:556-576 | dropping nothing keeps the labels (and the same index when immutable); a mask must match the length and drops exactly the true positions; a position list must be in range (negatives counted from the end) and drops exactly the named positions; a slice is refused with ValueError only for a zero step, otherwise it drops exactly the positions it walks, its bounds clipped; the surviving labels keep their order |
| FlatIndex.Filter | static_frame/core/index.py:544-552 | the filtered labels are exactly those of the first operand present (or absent) in the second, in order, and they stay distinct |
| FlatIndex.SetLabels | static_frame/core/index.py:544-552 | a set operation yields distinct labels, exactly those for which the operation's membership rule holds |
| FlatIndex.OperandLabels | static_frame/core/index.py:536-543 | the operand of a set operation, an index or repeating array or iterable values, is read as distinct labels with the same members |
| FlatIndex.UfuncSet | static_frame/core/index.py:512-552 | union, intersection and difference, with an index or with array or iterable values, contain exactly the labels their membership rule selects; on an equal index, union and intersection return self and difference returns an empty index |
| FlatIndex.DifferenceInOrder | static_frame/core/index.py:534-552 | a difference with an index operand (passed as unique) keeps the labels of self that are absent from other, in self's order |
| FlatIndex.IndexIlocMap | static_frame/core/index.py:731-761 | the map succeeds iff every label of self is in other; each result entry is the position in other of the matching label; otherwise KeyError with the first label of the difference |
| FlatIndex.Grow | static_frame/core/index.py:1426-1454 | appending fails with KeyError iff the label is already present; otherwise the label is added at the end, and the index stays loc is iloc only when the label is the next integer position |
| FlatIndex.FirstClashNone | static_frame/core/index.py:1456-1462 | when no value clashes with the labels or with an earlier value, the first clash is past the end |
| FlatIndex.ExtendAllAppendsPrefix | static_frame/core/index.py:1456-1462 | extending appends the values up to the first duplicate and then fails with KeyError on that value, or passes when there is none |
| IndexGrowOnly.IndexGO.constructor | static_frame/core/index.py:1383-1406 | a new grow-only index has the source labels, a mutable list equal to them and the position count set to their number |
| IndexGrowOnly.IndexGO.Contains | static_frame/core/index.py:1069-1076 | membership is tested against the mutable label list |
| IndexGrowOnly.IndexGO.UpdateArrayCache | static_frame/core/index.py:1408-1421 | the immutable labels are refreshed from the mutable list, the positions become 0..count-1, and the recache flag is cleared |
| IndexGrowOnly.IndexGO.Len | static_frame/core/index.py:670-674 | the length is the number of mutable labels, recaching first when needed |
| IndexGrowOnly.IndexGO.IsMember | static_frame/core/index.py:1069-1076 | membership is membership in the label list; without a map, a non-negative integer is tested against a length read, which rebuilds a stale cache; any other value changes nothing |
| IndexGrowOnly.IndexGO.Append | static_frame/core/index.py:1426-1454 | a duplicate raises KeyError and leaves the labels as they were (without a map, a non-negative integer's membership test rebuilds a stale cache first); otherwise the index becomes the grown index and is marked for recache |
| IndexGrowOnly.IndexGO.Extend | static_frame/core/index.py:1456-1462 | extending equals appending each value in turn, stopping at the first KeyError; recache is set iff a label was added or it was already set, except that a KeyError on a non-negative integer without a map leaves the cache rebuilt |
| Product.BuildIndexersFromProduct | static_frame/core/index_hierarchy.py:105-156 | it succeeds iff every level length is positive (an empty level fails the concatenation with ValueError) and yields one indexer per level |
| Product.ProductIsCartesian | static_frame/core/index_hierarchy.py:105-156 | for positive lengths, entry p of indexer d is component d of the p-th tuple of the lexicographic Cartesian product, and every indexer has the product's length |
| Product.IndexerIsCartesian | static_frame/core/index_hierarchy.py:132-154 | the element-repeat / group-tile construction of each indexer matches the Cartesian product position by position |
| Product.CartesianDistinct | static_frame/core/index_hierarchy.py:105-156 | the tuples of the product are pairwise distinct |
| Product.ProductInRange | static_frame/core/index_hierarchy.py:105-156 | every entry of indexer d is below the length of level d |
| Product.CartesianEntries | static_frame/core/index_hierarchy.py:105-156 | component d of every product tuple is below the length of level d |
| Product.IndexerLength | static_frame/core/index_hierarchy.py:135-152 | each indexer has length equal to the product of the level lengths |
| IndexHierarchy.RowsDistinctIffTuples | static_frame/core/index_hierarchy.py:727-752 | rows of labels are distinct iff the integer tuples of the indexers are distinct, since each depth's labels are distinct |
| IndexHierarchy.EnsureUniqueness | static_frame/core/index_hierarchy.py:727-752 | it passes iff the indexer tuples are distinct; on failure it reports the count of repeated rows (at least 1) and the row of the first tuple that repeats an earlier one |
| IndexHierarchy.New | static_frame/core/index_hierarchy.py:811-838 | construction succeeds iff there are at least two depths, the indexers are rectangular and in range and their tuples are distinct; the result's rows are the looked-up labels |
| IndexHierarchy.BlocksError | static_frame/core/index_hierarchy.py:754-763 | building blocks reports no error exactly when every indexer has the common length and every entry indexes into its depth's labels |
| IndexHierarchy.Copy | static_frame/core/index_hierarchy.py:789-809 | copying gives a well-formed hierarchy with the requested mutability and the same rows |
| IndexHierarchy.FromEmpty | static_frame/core/index_hierarchy.py:359-398 | for labels that are not a 2-D array, empty labels need an integer depth_reference other than 1, and at least 2; the result has that many empty depths and no rows |
| IndexHierarchy.LevelAdd | static_frame/core/index_hierarchy.py:2424-2457 | adding a level gives one more depth and the same length, and every row is prefixed by the new label |
| IndexHierarchy.KeepDepths | static_frame/core/index_hierarchy.py:2482-2516 | keeping a range of depths succeeds iff the kept indexer tuples are distinct, and each row becomes the corresponding slice of the old row |
| IndexHierarchy.FlatColumn | static_frame/core/index_hierarchy.py:2482-2507 | dropping to one depth yields a flat index of that column, which must be distinct, else the non-unique error |
| IndexHierarchy.LevelDrop | static_frame/core/index_hierarchy.py:2459-2518 | a zero count raises NotImplementedError; a count reaching one depth yields the flat outer or inner column; any other count keeps the outer or inner depths |
| IndexHierarchy.LevelDropKeepsRows | static_frame/core/index_hierarchy.py:2482-2516 | a nested drop succeeds iff the kept tuples are distinct, and each row is the old row without the dropped outer (positive count) or inner (negative count) depths |
| HierarchyBuild.ObserveLabel | static_frame/core/index_hierarchy.py:484-503 | one step of the hash-map loop appends to the keys only a new label, keeps the map equal to the position map of the keys, and appends the label's position to the indexer |
| HierarchyBuild.ObserveRow | static_frame/core/index_hierarchy.py:484-505 | one row updates every depth's hash map, keys and indexer as one observation step |
| HierarchyBuild.ObserveRows | static_frame/core/index_hierarchy.py:483-512 | the loop fails iff some row has another depth; otherwise each depth's keys are the first-seen labels of the resolved column, each indexer points back to the rows' labels, and each map is the position map of its keys |
| HierarchyBuild.IndexerAtSpec | static_frame/core/index_hierarchy.py:497-503 | each indexer entry points to the label of its row in the first-seen labels |
| HierarchyBuild.IndexerSnoc | static_frame/core/index_hierarchy.py:497-503 | a new row extends each indexer by the position of its label among the labels seen so far |
| HierarchyBuild.LabelsSnoc | static_frame/core/index_hierarchy.py:497-499 | a new row adds its label to a depth's keys only if the label was not yet seen |
| HierarchyBuild.FromLabels | static_frame/core/index_hierarchy.py:436-540 | the imperative from_labels returns exactly the specification value |
| HierarchyBuild.FromLabelsRows | static_frame/core/index_hierarchy.py:474-540 | from non-empty labels, construction succeeds iff the depth is at least 2 and the resolved rows are distinct; the rows are the resolved rows and each depth's labels are the first-seen order of its column |
| HierarchyBuild.ContinuationRepeats | static_frame/core/index_hierarchy.py:487-496 | a continuation token repeats the label above it, and in the first row it stands for itself |
| HierarchyConstructors.LevelToIndex | static_frame/core/index_hierarchy.py:306-311 | an Index level is used as is; a label level becomes an index that must be distinct |
| HierarchyConstructors.LevelIndices | static_frame/core/index_hierarchy.py:306-311 | the levels convert iff each converts, in order; a failure reports one level's error |
| HierarchyConstructors.FromProduct | static_frame/core/index_hierarchy.py:279-323 | a single level raises ErrorInitIndex; an empty level raises ValueError |
| HierarchyConstructors.FromProductRows | static_frame/core/index_hierarchy.py:279-323 | for two or more non-empty distinct levels, construction succeeds with the product of the lengths as its length, and row p holds each level's label at the p-th Cartesian tuple |
| HierarchyConstructors.TreeRowsDistinct | static_frame/core/index_hierarchy.py:325-337 | a tree with distinct keys and distinct leaves yields distinct rows |
| HierarchyConstructors.BranchRowsKeys | static_frame/core/index_hierarchy.py:331-337 | every row yielded by a branch starts with one of its keys |
| HierarchyConstructors.TreeRowsUniform | static_frame/core/index_hierarchy.py:325-337 | a balanced tree yields rows of one depth |
| HierarchyConstructors.FromTreeRows | static_frame/core/index_hierarchy.py:340-357 | a non-empty balanced tree of depth 2 or more with distinct keys and leaves builds a hierarchy whose rows are the tree's paths, in order |
| IndexItems.FirstSeenAppendDistinct | static_frame/core/index_hierarchy.py:570-576 | extending the inner index with the difference in order equals the first-seen order of all inner labels |
| IndexItems.ItemRowsDistinct | static_frame/core/index_hierarchy.py:543-609 | with distinct outer labels and distinct indices, the item rows are distinct |
| IndexItems.Absorb | static_frame/core/index_hierarchy.py:570-576 | the inner IndexGO grows by the labels not yet present, in order, and the returned indexer maps each label of the index to its position in the inner index |
| IndexItems.WalkItems | static_frame/core/index_hierarchy.py:556-579 | the walk collects the outer labels, the repeat counts and one indexer per item, with the inner index's labels as keys |
| IndexItems.BlocksLineUp | static_frame/core/index_hierarchy.py:587-593 | the tiled outer indexer and the concatenated inner indexers address, row by row, the outer label and inner label of each item |
| IndexItems.AssembleItems | static_frame/core/index_hierarchy.py:598-608 | the two indices and the two indexers build a hierarchy whose rows are the item rows |
| IndexItems.FromIndexItems | static_frame/core/index_hierarchy.py:543-609 | no items give the empty depth-2 hierarchy; otherwise it succeeds iff the outer labels are distinct, with the item rows as rows, the outer labels at depth 0 and the first-seen inner labels at depth 1 |
| DelimitedLabels.SplitJoin | static_frame/core/index_hierarchy.py:638 | splitting on the delimiter and joining back gives the original string |
| DelimitedLabels.SplitManyIffOccurs | static_frame/core/index_hierarchy.py:638-642 | the split yields more than one part iff the delimiter occurs in the string |
| DelimitedLabels.UnbracketWrapped | static_frame/core/index_hierarchy.py:629-636 | one bracket or parenthesis pair is stripped from a wrapped label |
| DelimitedLabels.UnbracketPlain | static_frame/core/index_hierarchy.py:629-636 | a label without brackets is unchanged |
| DelimitedLabels.EvalAll | static_frame/core/index_hierarchy.py:644-649 | evaluating the parts succeeds iff every part evaluates, giving their values in order |
| DelimitedLabels.EvalAllFirstError | static_frame/core/index_hierarchy.py:644-649 | a failure comes from the first part that fails; a ValueError becomes the "label is malformed" ValueError, and other errors pass through |
| DelimitedLabels.ToLabel | static_frame/core/index_hierarchy.py:627-649 | an empty label raises IndexError; an empty delimiter raises ValueError; fewer than two parts raise RuntimeError; otherwise the parts are evaluated |
| DelimitedLabels.ToLabelNeedsDelimiter | static_frame/core/index_hierarchy.py:638-642 | a label whose body lacks the delimiter raises RuntimeError, and a parsed label always contained it |
| DelimitedLabels.ParseRows | static_frame/core/index_hierarchy.py:651-655 | parsed rows are one per label, each the parse of its label, all of the first row's depth (at least 2) |
| DelimitedLabels.MismatchStops | static_frame/core/index_hierarchy.py:511-512 | a parsed label of another depth after matching ones raises the same-depth ErrorInitIndex |
| DelimitedLabels.FromLabelsDelimited | static_frame/core/index_hierarchy.py:611-656 | no labels need a depth reference (ErrorInitIndex); a parse error is raised as is |
| DelimitedLabels.FromLabelsDelimitedRows | static_frame/core/index_hierarchy.py:611-656 | when all labels parse, construction succeeds iff the parsed rows are distinct, and its rows are the parsed rows |
| HierarchyOps.Normalized | static_frame/core/index_hierarchy.py:1877-1885 | a position in -n..n-1 names row n+p when negative and row p otherwise |
| HierarchyOps.ExtractPositions | static_frame/core/index_hierarchy.py:1877-1893 | selecting in-range positions succeeds iff they are distinct, and row k of the result is the row at position k |
| HierarchyOps.ExtractIloc | static_frame/core/index_hierarchy.py:1860-1893 | no key gives a copy with the same rows; a position list fails with IndexError on a position outside -n..n-1 and succeeds iff all are in range and name distinct rows; a slice fails with ValueError only for a zero step and otherwise selects the rows it walks, its bounds clipped; a mask fails with IndexError unless it has one entry per row and otherwise selects its true rows ascending; row k of the result is the k-th selected row |
| HierarchyOps.ExtractWholeSlice | static_frame/core/index_hierarchy.py:1877-1893 | `ih.iloc[:]` selects every row, in order |
| HierarchyOps.ExtractRows | static_frame/core/index_hierarchy.py:1877-1893 | the re-encoded indices and indexers reproduce the selected rows, and their tuples are distinct iff the selected positions are |
| HierarchyOps.ExtractDepth | static_frame/core/index_hierarchy.py:1881-1885 | one depth keeps only its used labels, with new positions that point to the same labels |
| HierarchyOps.ExtractRow | static_frame/core/index_hierarchy.py:1869-1872 | an integer key selects the row at that position, counting negatives from the end, and fails outside -len..len-1 |
| HierarchyOps.SortedUniqueSpec | static_frame/core/index_hierarchy.py:1881-1885 | the used positions are distinct, in range, and exactly those present |
| HierarchyOps.TargetDepths | static_frame/core/index_hierarchy.py:1508-1524 | a depth level selects one depth in range, or a non-empty list of distinct in-range depths; repeated or empty lists raise ValueError |
| HierarchyOps.RelabelDepth | static_frame/core/index_hierarchy.py:1564-1582 | a relabelled depth holds exactly the mapped labels, without repeats, and each row's entry points to its mapped label |
| HierarchyOps.RelabelAtDepth | static_frame/core/index_hierarchy.py:1485-1588 | relabelling succeeds iff the mapped rows stay distinct; the result's rows are the rows with the target depths mapped |
| HierarchyOps.RelabelRows | static_frame/core/index_hierarchy.py:1559-1588 | the relabelled indices and indexers reproduce the mapped rows, and their tuples are distinct iff the mapped rows are |
| HierarchyOps.RelabelMergeAsWrittenFails | static_frame/core/index_hierarchy.py:1554-1582 | as written, merging label b into a at depth 0 of rows (a,1),(b,2),(c,3) leaves an indexer entry past the shrunk index and fails |
| HierarchyOps.RelabelMergeCorrected | static_frame/core/index_hierarchy.py:1554-1582 | the corrected relabel of the same input gives rows (a,1),(a,2),(c,3) |
| HierarchySelect.BuildMask | static_frame/core/index_hierarchy.py:1624-1678 | a Boolean key is its own mask; a depth beyond the hierarchy raises IndexError; any other mask has one entry per row |
| HierarchySelect.MaskOne | static_frame/core/index_hierarchy.py:1669-1678 | a single label selects exactly the rows holding it at that depth, and raises KeyError iff it is absent there |
| HierarchySelect.MaskMany | static_frame/core/index_hierarchy.py:1669-1678 | a list of labels selects exactly the rows whose label at that depth is in the list, and raises KeyError naming an absent element |
| HierarchySelect.SliceBetween | static_frame/core/index_hierarchy.py:1642-1667 | a label slice selects the rows whose label position at that depth lies between the bounds' positions (inclusive) on the step |
| HierarchySelect.SliceStepMustBeInt | static_frame/core/index_hierarchy.py:1642-1655 | a non-integer slice step raises TypeError |
| HierarchySelect.MeaningfulDepthsSpec | static_frame/core/index_hierarchy.py:1727-1731 | the depths that take part in the selection are exactly those whose key is not the null slice |
| HierarchySelect.Broadcast | static_frame/core/index_hierarchy.py:1740-1749 | a mask combines iff it has one entry per row or a single entry, which is broadcast; otherwise ValueError |
| HierarchySelect.CombineMasksSpec | static_frame/core/index_hierarchy.py:1733-1752 | the combined mask succeeds iff every meaningful depth key fits, selects exactly the rows every such key picks, and fails with the first misfitting depth's error |
| HierarchySelect.SingleKeySelects | static_frame/core/index_hierarchy.py:1718-1764 | a successful lookup selects exactly the picked rows, in ascending order; it returns one position only for an all-scalar key selecting one row |
| HierarchySelect.LabelPicks | static_frame/core/index_hierarchy.py:1669-1678 | a scalar depth key fits iff its label is at that depth, and it picks exactly the rows holding it |
| HierarchySelect.LeadingLabels | static_frame/core/index_hierarchy.py:1718-1764 | a key of leading labels selects exactly the rows that start with them, and raises KeyError iff one label is absent at its depth |
| HierarchySelect.FullRowKey | static_frame/core/index_hierarchy.py:1718-1764 | the full label tuple of row p selects exactly position p |
| HierarchySelect.LocToIlocTuple | static_frame/core/index_hierarchy.py:1766-1846 | a tuple key must have the hierarchy's depth (RuntimeError otherwise); an HLoc key may not have more depths than the hierarchy; both then select as one key |
| HierarchySelect.LeafRoute | static_frame/core/index_hierarchy.py:1766-1846 | a full-depth tuple key goes straight to the single-key lookup |
| HierarchySelect.AbsentRowSelectsNothing | static_frame/core/index_hierarchy.py:1718-1764 | a full tuple that is not a row selects no position, or raises KeyError for an absent label |
| HierarchySelect.ContainsIffRow | static_frame/core/index_hierarchy.py:2029-2046 | `__contains__` of a tuple of the hierarchy's depth is true iff it is a row; another length raises RuntimeError |
| HierarchyGrowOnly.PendingRows | static_frame/core/index_hierarchy.py:188-200 | a pending row contributes one row, and a pending hierarchy its own length in rows |
| HierarchyGrowOnly.Queued | static_frame/core/index_hierarchy.py:862-875 | the queued rows number the total length of the pending extensions, each of the hierarchy's depth |
| HierarchyGrowOnly.QueuedPresent | static_frame/core/index_hierarchy.py:2571-2609 | because append and extend grow every depth's index first, every queued label is present at its depth |
| HierarchyGrowOnly.GrowIfAbsent | static_frame/core/index_hierarchy.py:2579-2581 | a depth's index gains the label only when it is absent, and contains it afterwards |
| HierarchyGrowOnly.AbsorbLabels | static_frame/core/index_hierarchy.py:2600-2603 | extending a depth's index adds the other index's absent labels in their order, so it then contains all of them |
| HierarchyGrowOnly.RowsGrow | static_frame/core/index_hierarchy.py:2571-2609 | growing the indices at their end leaves the existing rows unchanged |
| HierarchyGrowOnly.GrowEach | static_frame/core/index_hierarchy.py:2579-2581 | each depth's index grows by its label of the value if absent; it reports whether the value has exactly the hierarchy's depth |
| HierarchyGrowOnly.AbsorbEach | static_frame/core/index_hierarchy.py:2598-2603 | each depth's index grows by the other hierarchy's absent labels in order, and then contains all of them |
| HierarchyGrowOnly.RemapDepth | static_frame/core/index_hierarchy.py:2562-2567 | the other hierarchy's indexer, remapped through `_index_iloc_map`, points to each of its rows' labels in this index |
| HierarchyGrowOnly.EncodedFromPositions | static_frame/core/index_hierarchy.py:2562-2569 | positions that point to the rows' labels are the unique encoding of those rows |
| HierarchyGrowOnly.ReplayRows | static_frame/core/index_hierarchy.py:855-887 | replaying queued rows into the indexers appends exactly those rows to the hierarchy's rows |
| HierarchyGrowOnly.LenMatchesReplay | static_frame/core/index_hierarchy.py:1139-1148 | the length reported while recache is pending equals the length after the replay |
| HierarchyGrowOnly.IndexHierarchyGO.constructor | static_frame/core/index_hierarchy.py:789-809 | a grow-only copy of a hierarchy has its rows and depth labels, with nothing pending |
| HierarchyGrowOnly.IndexHierarchyGO.Len | static_frame/core/index_hierarchy.py:1139-1148 | the length counts the materialised rows plus, while recache is pending, the queued rows |
| HierarchyGrowOnly.IndexHierarchyGO.Append | static_frame/core/index_hierarchy.py:2571-2588 | every depth's index gains its label of the value if absent; a value of the right depth is queued and sets recache; a longer value raises IndexError and queues nothing; the rows do not change yet |
| HierarchyGrowOnly.IndexHierarchyGO.Extend | static_frame/core/index_hierarchy.py:2590-2609 | every depth's index gains the other's absent labels in order; the other hierarchy is queued and recache set; the rows do not change yet |
| HierarchyGrowOnly.IndexHierarchyGO.WriteRow | static_frame/core/index_hierarchy.py:2542-2549 | `_append` writes, at every depth, the position of the row's label |
| HierarchyGrowOnly.IndexHierarchyGO.WriteBlock | static_frame/core/index_hierarchy.py:2551-2569 | `_extend` writes, at every depth, the positions of the other hierarchy's labels in row order |
| HierarchyGrowOnly.IndexHierarchyGO.ReplayQueue | static_frame/core/index_hierarchy.py:862-877 | the loop over pending extensions produces the old indexers followed by the encoding of all queued rows |
| HierarchyGrowOnly.IndexHierarchyGO.CleanRowsDistinct | static_frame/core/index_hierarchy.py:884-887 | a grow-only hierarchy whose cache is clean has passed the uniqueness check: its materialised rows are distinct and it is well formed |
| HierarchyGrowOnly.IndexHierarchyGO.UpdateArrayCache | static_frame/core/index_hierarchy.py:855-887 | the queue is emptied and its rows are appended to the hierarchy; uniqueness is then checked; recache is cleared only when the rows are unique |

## Left out

- Display, naming (`name`, `names`, `rename`), dtype resolution, `astype`, `via_*` string and datetime interfaces, pandas conversion, sampling, sorting, `roll`, `fillna`, `searchsorted` and the TypeBlocks storage: they do not take part in translating labels to positions.
- Floating-point, datetime and other NumPy label types: labels are integers or strings.
- `AutoMap`/`LocMap` are foreign code; they are modelled by their documented contract, a map from each label to its position.
- `PositionsAllocator` is not part of this model; positions are written as the sequence 0..n-1.
- FlatIndex.UfuncSet: the NumPy sort order used by the general path of set operations is not modelled; the model keeps the first operand's order, which is the documented order when the operands have the same values or for a difference with an index operand. A difference with array or iterable values is sorted and deduplicated by setdiff1d; the model states its members, not that order.
- `reorder_for_hierarchy` in `from_labels`: the lexsort reordering is not modelled; the model covers the default, which does not reorder.
- `index_constructors` and `index_constructor` arguments: every depth uses the default `Index` constructor.
- `_from_array`, `from_names`, `_from_type_blocks`, `rehierarch`, `relabel`, `_loc_to_iloc_index_hierarchy`, `_extract_loc`, `flat`, `to_tree`, `unique`, `equals`, `isin`: outside the label-to-position core this model covers.
- Keys that are 2D arrays, lists of tuples, `Series` or `ILoc` wrappers, and `key_transform` for date indices are not modelled.
- IndexHierarchy.FromEmpty: the branch for an empty 2-D array of labels, whose depth is taken from the array's shape, is not modelled.
- Boolean-array, label-slice and list keys to `IndexHierarchy._loc_to_iloc` (index positions by mask, `LocMap.map_slice_args`, element-by-element lookup) are not modelled; its tuple and `HLoc` routes are.
- Error messages: the texts that embed a repr of a key or of label examples are modelled as the error kind with the offending values as data, not as formatted strings.
- `relabel_at_depth` with an iterable mapper (a full replacement of the target depths through `_from_type_blocks`) is not modelled; callable and mapping mappers are.
- `literal_eval` is a parameter of `DelimitedLabels`.
- Aliasing: `IndexHierarchyGO` holds its depth indices as values, so an `IndexGO` shared with another object is not modelled. The hierarchy queued by `extend` is likewise taken as a value at `extend` time: the source keeps a reference and reads it only at the next recache, so labels appended to a grow-only `other` in between (never absorbed into this hierarchy's indices, and a KeyError at recache) are not modelled.
- `_update_array_cache` of `IndexHierarchyGO` preallocates arrays and writes at an offset; the model appends to each indexer, which yields the same final arrays.
- HierarchyGrowOnly.IndexHierarchyGO.Append: requires the value to have at least the hierarchy's depth. A shorter value leaves unwritten indexer entries whose effect at recache is unspecified; that case is not modelled.
- HierarchyGrowOnly.IndexHierarchyGO.Extend: requires the other hierarchy to have the same depth. Python's `zip` would silently truncate a mismatch.
- FlatIndex.LocToIloc: states only the shape of the result; the per-key-kind contents are stated by LocToIlocFindsLabel, LocToIlocMissing, LocToIlocList and LocIsIlocSliceAccepts, and for hierarchies by HierarchySelect.LookupOne and HierarchySelect.LookupMany.

## Findings

| source | as written | input that shows it | evidently intended | confidence | as-written member | corrected member |
|---|---|---|---|---|---|---|
| static_frame/core/index_hierarchy.py:1554-1582 | relabel_at_depth keeps each old position for labels whose new value is first seen, so when two labels merge the later positions point past the shrunk index | rows (a,1),(b,2),(c,3), mapper {b: a}, depth 0 | the merged rows (a,1),(a,2),(c,3) | not executed | HierarchyOps.RelabelMergeAsWrittenFails | HierarchyOps.RelabelMergeCorrected |
| static_frame/core/index.py:900-906 | with loc is iloc, a slice whose stop is None reaches `key.stop >= len(self)` and compares None with an int, raising TypeError | `ix.loc_to_iloc(slice(1, None))` on a three-label loc-is-iloc index | the open-ended slice from position 1 | not executed | FlatIndex.OpenStopSliceRejectedAsWritten | FlatIndex.LocIsIlocSliceAccepts |
