# Hyperblock data interchange, modelled in Dafny

This project models the data-interchange core of `DataUtil` in the hyperblock classifier.
A hyperblock is a classification region. For each attribute it holds one or more intervals,
stored as lists of lower bounds (`minimums`) and upper bounds (`maximums`), and it votes for
one class (`classNum`). The core moves hyperblocks and datasets between representations:

- the three flattenings that turn data into parallel flat arrays for a GPU kernel:
  - `flattenMinsMaxesForRUB` interleaves interval counts and pads block edges by the field
    length;
  - `flatMinMaxNoEncode` keeps the interval counts in a separate array;
  - `flattenDataset` lays out points class by class, with cumulative class borders;
- the basic and the one-to-one binary hyperblock files;
- the grouping of a block list into runs of one class;
- the stratified splits of a `[class][point][attribute]` dataset: validation split,
  train/test split and k folds;
- the small helpers: uniform-column detection, the class numbering of the CSV loader, and
  renumbering a testing set by the training set's class indices.

Modelling choices:

- Float payloads are a type parameter `V`. Nothing in the core computes with them: it only
  copies and compares them.
- Counts, edges and borders are `nat`, and class numbers are `int`.
- A binary file is a sequence of 4-byte fields, `Word<V> = I(int) | F(V)`. Writers produce
  such sequences, and readers consume them from the front and hand back the rest.
- A reader fails in three cases:
  - the file ends early (`Truncated`);
  - a field holds the other kind of value (`Mistyped`);
  - a count sizes a vector and is negative (`NegativeLength`), where the source's `std::vector`
    constructor throws.
- The random shuffles (`std::mt19937` with `std::shuffle`) become permutation parameters, one
  per class.
- The float-derived counts (`valCount`, `newTrainCount`) become integer parameters.
- `FIELD_LENGTH` is a parameter rather than a global.

Each encoder has a decoder as its partner, and a round-trip lemma relates the two. The
partners are:

- `Unflatten` for `Flatten`;
- `UnflattenRub` for `FlattenMinsMaxesForRub`;
- `UnflattenNoEncode` for `FlatMinMaxNoEncode`;
- `LoadBasic` for `SaveBasic`;
- `LoadOneToOne` for `SaveOneToOne`.

The splits are checked against reference definitions: `Select` and `Keep` for the validation
split, and `Deal` for the folds. They are also shown to conserve the multiset of points.

Where the format comment above `saveOneToOneHBsToBinary` (DataUtil.cpp:497-531) and the code
differ, the model follows the code:

- The one-to-one writer does not require a set to hold exactly two classes. It stores the
  first two distinct class numbers it meets, so sets with more classes are written too. The
  model requires at least two classes, which the writer needs because it reads the second
  element of a set.
- The one-to-one writer takes the attribute count from `minimums` but writes every list of
  `maximums`. The model reads such a file back only for blocks with as many upper-bound lists
  as lower-bound lists (`OneToOneCodec.Matched`).
- Both binary formats keep only entry `[0]` of each attribute's interval list. The exact
  round trip therefore holds only for single-interval blocks. For other blocks, the model
  states exactly what comes back (`Collapse`).

## Model

| member | source | states |
|---|---|---|
| Labels.Labels | data_utilities/DataUtil.cpp:78-86 | The labels a class gets an index for are distinct, and they are exactly the last cells of the non-empty rows. They are listed in order of first appearance: of two labels, the earlier one in the list first appears in an earlier row. |
| Labels.DataSetup | data_utilities/DataUtil.cpp:65-102 | The label map sends the label first seen `c`-th to `c`, and has no other keys. Class `c` holds exactly the parsed points of the rows labelled with it, in file order, matching the reference `PointsOf`. |
| Labels.SetupIndices | data_utilities/DataUtil.cpp:82-88 | No two labels share an index, and every index is below the number of classes. |
| Labels.PointsOfAbsent | data_utilities/DataUtil.cpp:88-101 | A label that no row carries has no points. |
| Labels.ReverseClassMap | data_utilities/DataUtil.cpp:104-106 | The reverse map is the inverse of the label map: its keys are the label map's indices, and each entry leads back to its label. |
| Labels.IndexMapOf | data_utilities/DataUtil.cpp:299-315 | Each label known to both numberings maps its testing index to its training index, and every entry comes from such a label. The output grows from its starting length exactly to hold the largest shared training index. |
| Labels.ReorderTestingDataset | data_utilities/DataUtil.cpp:292-326 | A testing class whose label the training set knows moves to its training index, and every other entry is empty. The result is at least as long as the testing set, and longer only to hold the largest shared training index. |
| Columns.MarkUniformColumns | data_utilities/DataUtil.cpp:743-774 | With no classes or an empty first class, the result is empty. Otherwise there is one flag per attribute of the first point, set exactly when every point of every class has that column's value. |
| Words.IntThenRest | data_utilities/DataUtil.cpp:339-340 | An int field written in front of a body reads back as that int, and the reader is left at the start of the body. |
| Words.ReadVals | data_utilities/DataUtil.cpp:346-351 | Reading `n` floats succeeds exactly when the next `n` fields are floats. It returns their payloads and the fields after them. |
| Words.ReadValsOfFloats | data_utilities/DataUtil.cpp:346-351 | Reading back float fields returns the written values and leaves what followed them. |
| Blocks.Collapse | data_utilities/DataUtil.cpp:375-385 | What a binary file keeps of a block: its first `f` attributes, each cut to its first lower and upper bound, with the same class. |
| Blocks.CollapseKeeps | data_utilities/DataUtil.cpp:375-385 | A block of `f` single-interval attributes loses nothing when collapsed. |
| BasicCodec.SaveBasic | data_utilities/DataUtil.cpp:363-392 | The file starts with the block count and the field length. |
| BasicCodec.ReadBlock | data_utilities/DataUtil.cpp:343-356 | A record that is read gives a block of `f` single-interval attributes and consumes `2f + 1` fields. Reading a record never fails for a negative length. |
| BasicCodec.ReadBlocks | data_utilities/DataUtil.cpp:342-357 | Reading `n` records gives `n` blocks of `f` single-interval attributes. |
| BasicCodec.LoadBasic | data_utilities/DataUtil.cpp:329-361 | A non-positive block count loads no blocks. Loading fails for a negative length exactly when blocks are due and the field length is negative. A successful load gives as many blocks as the count says, each of field-length single-interval attributes. |
| BasicCodec.ReadBlocksOfEncoded | data_utilities/DataUtil.cpp:342-357 | Records written for a list of blocks read back as those blocks collapsed, leaving what follows. |
| BasicCodec.BasicRoundTrip | data_utilities/DataUtil.cpp:329-392 | Loading a saved file, whatever follows it, gives every block collapsed to what the format keeps. It gives no blocks for an empty list, and fails for a negative field length. |
| BasicCodec.BasicExactRoundTrip | data_utilities/DataUtil.cpp:329-392 | Blocks of `f` single-interval attributes come back unchanged. |
| OneToOneCodec.ClassPair | data_utilities/DataUtil.cpp:544-553 | The stored pair is in ascending order, and its two classes are those of the blocks up to and including the first block whose class differs from the first block's. |
| OneToOneCodec.SaveOneToOne | data_utilities/DataUtil.cpp:532-579 | The file starts with the number of sets. |
| OneToOneCodec.LoadOneToOne | data_utilities/DataUtil.cpp:668-721 | A successful load gives as many sets and as many class pairs as the leading count says, or none for a negative count. |
| OneToOneCodec.PairsInClasses | data_utilities/DataUtil.cpp:544-553 | Each stored pair is ascending and names two classes of its set. |
| OneToOneCodec.ReadSetsOfEncoded | data_utilities/DataUtil.cpp:680-717 | Sets written one after another read back as their collapsed blocks, each with its class pair. |
| OneToOneCodec.OneToOneRoundTrip | data_utilities/DataUtil.cpp:532-721 | Loading a saved file gives every set back, its blocks in order and collapsed, together with each set's class pair. |
| OneToOneCodec.OneToOneExactRoundTrip | data_utilities/DataUtil.cpp:532-721 | Sets of single-interval blocks come back unchanged, and each loaded pair is ascending and names two classes of its set. |
| Grouping.SplitIntoRuns | data_utilities/DataUtil.cpp:398-418 | The groups concatenate to the input. Each group is non-empty and of one class, and neighbouring groups differ in class. An empty input gives no groups. |
| Grouping.RunSplitUnique | data_utilities/DataUtil.cpp:398-418 | Only one list of groups has those properties, so they determine the loop's output. |
| Grouping.LastRun | data_utilities/DataUtil.cpp:413-416 | In any run split, the last group is exactly the trailing run of the last block's class, and the groups before it split the rest. |
| Grouping.TrailingRun | data_utilities/DataUtil.cpp:405-412 | Counts the blocks at the end that share a class, back to the first block that does not. |
| FlattenRub.FlattenMinsMaxesForRub | data_utilities/DataUtil.cpp:777-817 | There are `n + 1` edges starting at 0, and each step adds the block's interval count plus the field length. Entry `i` of the classes is block `i`'s class. For blocks of field-length attributes, the two streams are as long as the last edge. |
| FlattenRub.SegmentLengths | data_utilities/DataUtil.cpp:795-805 | A block's stretch of a stream has one count slot per attribute plus its intervals. |
| FlattenRub.EdgesLocateSegments | data_utilities/DataUtil.cpp:795-807 | For well-shaped blocks, block `i`'s count-prefixed groups sit exactly between edges `i` and `i + 1` in both streams. |
| FlattenRub.ReadGroupsOfGroups | data_utilities/DataUtil.cpp:797-804 | Count-prefixed groups read back as the value lists they were written from. |
| FlattenRub.DecodeSegments | data_utilities/DataUtil.cpp:795-805 | A well-shaped block's stretches decode to its own lower and upper bound lists. |
| FlattenRub.RubRoundTrip | data_utilities/DataUtil.cpp:777-817 | For blocks of `f` attributes with matching bound lists, the four arrays determine the blocks again, with all intervals and classes. |
| FlattenNoEncode.FlatMinMaxNoEncode | data_utilities/DataUtil.cpp:847-889 | The counts array has `n * f` slots, and slots past the attributes written stay 0. There are `n + 1` edges starting at 0, and each step adds the block's interval count with no padding. The classes follow the blocks, and the streams are as long as the last edge. |
| FlattenNoEncode.NoPadding | data_utilities/DataUtil.cpp:854-884 | For well-shaped blocks the counts array is filled exactly, so no zero slot is left over. |
| FlattenNoEncode.CountsMatchEdges | data_utilities/DataUtil.cpp:868-884 | Block `b`'s `f` count slots, from offset `b * f`, hold its attributes' interval counts and sum to the width between its edges. |
| FlattenNoEncode.SplitConcat | data_utilities/DataUtil.cpp:878-881 | Cutting a plain concatenation by its pieces' lengths gives the pieces back. |
| FlattenNoEncode.LocateBlocks | data_utilities/DataUtil.cpp:861-885 | Every block's bounds, counts and class sit at its edges and at its count offset. |
| FlattenNoEncode.NoEncodeRoundTrip | data_utilities/DataUtil.cpp:847-889 | For blocks of `f` attributes with matching bound lists, the five arrays determine the blocks again. |
| FlattenDataset.Flatten | data_utilities/DataUtil.cpp:820-843 | There are one more borders than classes, starting at 0, and each step adds the class's point count. Border `c` counts the points of the classes before `c`, and the values are all points' attributes in order. |
| FlattenDataset.ChunksOfConcat | data_utilities/DataUtil.cpp:832-837 | Points of `f` attributes, laid end to end, are cut back into the same points. |
| FlattenDataset.DecodeClassesOfConcat | data_utilities/DataUtil.cpp:826-829 | Borders that count each class's points regroup the points into the classes. |
| FlattenDataset.FlattenRoundTrip | data_utilities/DataUtil.cpp:820-843 | When every point has `f` attributes, the flat values and the class borders give the dataset back. |
| Permutations.SelectKeepMultiset | data_utilities/DataUtil.cpp:29-39 | The points at the chosen positions, plus those kept at the other positions, are exactly the class's points. |
| Permutations.KeepRemoveOne | data_utilities/DataUtil.cpp:36-38 | Dropping one more position removes exactly that element. |
| Permutations.ShuffleMultiset | data_utilities/DataUtil.cpp:24 | A shuffle by a permutation keeps the multiset of points. |
| Splits.ValidationSplit | data_utilities/DataUtil.cpp:17-40 | Validation gets the first `v` shuffled points in shuffled order. Training is the class with those positions removed, in its original order (`Keep`). Together they hold the class's points. |
| Splits.Descending | data_utilities/DataUtil.cpp:35 | Lists the chosen positions strictly descending, each below `n`, and covers every chosen position below `n`. |
| Splits.DescendingCovers | data_utilities/DataUtil.cpp:35 | Sorting the chosen positions in descending order covers exactly the chosen ones. |
| Splits.EraseChosen | data_utilities/DataUtil.cpp:35-38 | Erasing the chosen positions in descending order leaves exactly the unchosen points, in their original order. |
| Splits.CreateValidationSplit | data_utilities/DataUtil.cpp:11-42 | Validation has one entry per class. Class `c` moves `valCounts[c]` points, and the sizes add up and the points are conserved. Each class's validation and training parts are exactly its `ValidationSplit`: the first `valCounts[c]` shuffled points, and the rest in their original order. |
| Splits.AsSize | data_utilities/DataUtil.cpp:907 | A signed count compared with a size is taken modulo 2^64, so a negative count becomes at least 2^64 - 2^31. |
| Splits.PopTail | data_utilities/DataUtil.cpp:907-910 | The pop loop leaves the first `Kept` points in training and appends the rest to testing from the back, conserving the points. |
| Splits.ReverseMultiset | data_utilities/DataUtil.cpp:907-910 | Popping from the back keeps the multiset of the moved points. |
| Splits.ReverseTwice | data_utilities/DataUtil.cpp:907-910 | The testing part read backwards is the shuffled tail again, so nothing is lost. |
| Splits.TrainTestSplit | data_utilities/DataUtil.cpp:903-910 | Training is the front of the shuffled class, and testing reversed completes it. The sizes add up and the points are conserved. |
| Splits.ShuffleThenSplit | data_utilities/DataUtil.cpp:901-910 | A shuffled class split at the target count conserves its points, and training keeps `Kept` of them. Training followed by testing reversed is the shuffled class. |
| Splits.SplitTrainTestByPercent | data_utilities/DataUtil.cpp:892-912 | Testing has one entry per class. Every class keeps `Kept` points in training, the sizes add up, and the points are conserved. For every class, training followed by testing reversed is that class shuffled by its permutation. |
| Folds.DealSize | data_utilities/DataUtil.cpp:935-938 | Fold `f` gets `n / k` points of a class of `n`, plus one if `f` is below `n % k`. |
| Folds.DealBalanced | data_utilities/DataUtil.cpp:935-938 | Two folds' shares of a class differ by at most one point. |
| Folds.DealPosition | data_utilities/DataUtil.cpp:935-938 | Point `i` is the `(i / k)`-th point of fold `i % k`. |
| Folds.DealConserves | data_utilities/DataUtil.cpp:935-938 | The `k` folds together hold exactly the class's points. |
| Folds.SplitDataset | data_utilities/DataUtil.cpp:918-942 | There are exactly `k` folds, each with one entry per class. |
| Folds.SplitDatasetPosition | data_utilities/DataUtil.cpp:927-938 | Point `i` of shuffled class `c` is point `i / k` of class `c` in fold `i % k`. |
| Folds.SplitDatasetConserves | data_utilities/DataUtil.cpp:927-938 | The folds' shares of a class hold exactly the class's points. |
| Folds.SplitDatasetBalanced | data_utilities/DataUtil.cpp:927-938 | Each fold's share of a class has `n / k` or `n / k + 1` points, so any two folds' shares differ by at most one. |

## Left out

- File and stream I/O are not modelled: opening files, open failures, `close`, and console
  logging. The codecs work on field sequences instead.
- The text formats are not modelled: the CSV hyperblock files, `saveHyperBlocksToFile`, and
  `saveNormalizedVersionToCsv`. They depend on `operator<<` float formatting and on
  `stof`/`stoi`.
- The dataset loader's line splitting and `stof` are not modelled. A row is a list of cells,
  and `parse` is a function parameter.
- Labels.DataSetup: an unparsable cell's fallback to `0.0f` is part of `parse`. The setting of
  the `FIELD_LENGTH`/`NUM_CLASSES` globals from `data[0][0]` is not modelled. That access is
  undefined for a file with no data rows.
- Labels.DataSetup starts from an empty label map. With a non-empty map, a label already in
  it keeps its old index, and `data[classIndex]` (DataUtil.cpp:88, 101) can then be out of
  range. The model does not cover that case.
- Labels.DataSetup takes `parse` as a total function. The source's `stof` can also throw
  `std::out_of_range`, for example on "1e50". The `invalid_argument` handler does not catch
  it, so it escapes `dataSetup`. That error path is not modelled.
- Normalization (`minMaxNormalization`, `normalizeTestSet`) and `findMinMaxValuesInDataset`
  are not modelled. They are floating-point arithmetic.
- `std::mt19937` and `std::shuffle` are not modelled. Every shuffle is an arbitrary
  permutation parameter, so the properties hold for every shuffle.
- Splits.CreateValidationSplit takes each class's `valCount` as a parameter between 0 and the
  class size, rather than computing `static_cast<int>(n * validationFraction)` in floating
  point.
- Splits.SplitTrainTestByPercent takes each class's `newTrainCount` as a 32-bit integer
  parameter. The float product is not modelled. A negative count or one at least the class
  size moves nothing, as the unsigned comparison does.
- Folds.SplitDataset requires `k > 0`, or `k == 0` with every class empty. With a negative `k`
  the source cannot size the fold list. With `k == 0` and a point to deal, it computes
  `i % 0`.
- Labels.ReverseClassMap, Labels.IndexMapOf and Labels.ReorderTestingDataset require
  injective label maps. The loader produces only injective maps, and with duplicate indices
  the source's result would depend on `std::map` iteration order.
- Labels.ReorderTestingDataset: class indices are `nat`. Negative indices never come from the
  loader.
- OneToOneCodec.LoadOneToOne returns the class pairs alongside the sets. The source appends
  them to a caller's vector, and the model does not include that vector's earlier contents.
- OneToOneCodec.OneToOneRoundTrip requires each block to have as many upper-bound lists as
  lower-bound lists (`Matched`). Otherwise the file's records are out of step and the reader
  misreads the fields that follow.
- OneToOneCodec.SaveOneToOne requires every set to contain two distinct classes. Otherwise
  the source dereferences past the end of its class set.
- BasicCodec.SaveBasic requires each block to have `FIELD_LENGTH` attributes with a first
  interval. The source reads `[i][0]` unchecked.
- FlattenRub.FlattenMinsMaxesForRub requires `maximums` to have an entry for every attribute
  of `minimums`, because the source indexes it unchecked.
- FlattenNoEncode.FlatMinMaxNoEncode requires the blocks to have at most `n * FIELD_LENGTH`
  attributes in all, and each upper-bound list to be at least as long as its lower-bound list.
  Otherwise the source writes past `intervalCounts` or reads past a `maximums` list.
- The 32-bit width of the written counts is not modelled (`static_cast<int>` of a size). Field
  counts are unbounded integers.
- The float encoding of edges, borders, classes and interval counts in the flattened arrays
  is not modelled. They are `nat`/`int`, which is exact below 2^24.
- Columns.MarkUniformColumns requires every point to have at least as many values as the
  first point. The source reads `row[col]` unchecked and stops at the first differing value,
  so on ragged data it is defined when the difference comes before the short row. The model
  does not cover that case.
- Splits.PopTail requires the class to have fewer than 2^63 points. The unsigned comparison
  with a negative target is modelled with a 64-bit `size_t`. A larger class would stop at the
  converted target rather than moving nothing. `std::vector` cannot hold that many points.
- FlattenRub.FlattenMinsMaxesForRub takes `fieldLength` as a `nat`. The source's
  `FIELD_LENGTH` is a signed `int`, and a negative value would make the block edges shrink.
- FlattenNoEncode.FlatMinMaxNoEncode takes `fieldLength` as a `nat`. A negative
  `FIELD_LENGTH` would give `intervalCounts` a negative size, which the source's vector
  constructor rejects.
- Labels.ReverseClassMap returns a new map. The source inserts into the caller's
  `reversedClassMap` without clearing it, and the model does not include that map's earlier
  entries.
- FlattenRub.ReadGroup tells a count slot from a bound slot by its `Slot` tag. The
  source's arrays are untagged floats, whose kind follows from position alone. On encoder
  output the tags agree with the positions, so the round trip is unaffected. The model does
  not say how an untagged reader would treat a malformed array.
- Columns.MarkUniformColumns compares values with `==` on `V`. NaN, which differs from itself
  under IEEE comparison, is not modelled.
- A reader meeting a field of the wrong kind fails with `Mistyped`. The source would
  reinterpret the bits.
- A reader running out of input fails with `Truncated`. The source's `read` would leave
  values unset.
- The rest of `DataUtil` is not modelled. That includes the hyperblock CSV loaders and
  savers, normalization, and `loadOneToSomeBlocksFromBinary`'s own CSV read. Its grouping loop
  is modelled.
