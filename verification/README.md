# Wall panels from two block lengths

A model of the panel counter in `GarberBlockCalc.java`. The program counts the distinct wall panels of a given width and height. A panel is a stack of rows. Each row is built from blocks 3 and 4.5 units long. The running-bond rule forbids an interior joint of one row from lining up with an interior joint of the row directly above or below it.

The computation has three stages, and each is a module here:

- **RowGenerator** (`rows.dfy`): the depth-first search `placeBlock`. It emits every ordered sequence of the two blocks whose total is exactly the width.
- **Compatibility** (`compatibility.dfy`): the lock-step walk `rowsAreCompatible` over two rows' running sums. Also the nested loop that gives every row its list of `compatibleRows`.
- **Levels** (`levels.dfy`): the level vector. It starts at all ones, is pushed `height - 1` times through the compatibility lists, and is then summed.

`IndexLists` (`index_lists.dfy`) holds the one predicate the last two stages share: a list of row indices is strictly ascending.

`BlockCalc` (`block_calc.dfy`) puts the stages together as `getNumberOfPanels`. It proves the result equals the size of a declaratively defined set of panels.

All lengths are integer half-units. Block1 = 6, Block2 = 9, and the driver's widths 3..48 in steps of 0.5 become 6..96. The source both tests its `double` running sums for equality and orders them: `sum > width` at line 102, `row1Sum < row2Sum` and `row2Sum < row1Sum` at lines 131 and 134, and the loop test at line 147. Every value involved is a multiple of 0.5 no larger than 52.5, so every such sum is exact in binary floating point. Hence every `==`, `<` and `>` gives the same answer on integer half-units. A row is a `seq<nat>`. Row indices stand in for the `Row` objects, and `seq<seq<nat>>` stands in for their `compatibleRows` lists. Counts are unbounded `nat`.

The specifications that the code is proved against:

- **Rows**: `IsRow(r, width)` holds when `r` uses only the two block lengths and sums to `width`.
- **Compatibility**: `Joints(r, width)` is the set of a row's prefix sums strictly between 0 and the width. `Compatible(a, b, width)` says the two rows' joint sets are disjoint.
- **Panels**: `Panels(rows, width, h)` is the set of all length-`h` sequences of row indices in which every two adjacent rows are compatible. `PanelCount(width, height)` is its size for the rows of `width`.

## Model

| member | source | states |
|---|---|---|
| RowGenerator.PlaceBlock | GarberBlockCalc.java:97-115 | the recursive search itself: the partial row once its sum equals the width, nothing once the sum exceeds it, otherwise the Block1 branch's rows followed by the Block2 branch's. It carries no contract of its own; what it promises is stated by PlaceBlockSound, PlaceBlockComplete, PlaceBlockSorted and BranchesOrdered below |
| RowGenerator.Rows | GarberBlockCalc.java:40 | the root call from the empty row at sum 0. It carries no contract of its own; RowsSound, RowsComplete, RowsSorted and RowsDistinct below state that it is exactly the rows of the width, in order, each once |
| RowGenerator.PlaceBlockSound | GarberBlockCalc.java:97-115 | every row the search emits below a partial row extends that row; if the partial row uses only the two blocks and `sum` is its length, every emitted row uses only the two blocks and sums exactly to the width |
| RowGenerator.RowsSound | GarberBlockCalc.java:40 | every row of the enumeration started from the empty row at sum 0 is a row of the panel |
| RowGenerator.PlaceBlockComplete | GarberBlockCalc.java:106-114 | every row of the panel that extends the partial row is emitted below it, so no composition of the width is missed |
| RowGenerator.RowsComplete | GarberBlockCalc.java:40 | every sequence of the two blocks summing to the width appears in the enumeration |
| RowGenerator.PlaceBlockSorted | GarberBlockCalc.java:106-114 | the rows emitted below any partial row are in strictly increasing lexicographic order, because the Block1 branch runs before the Block2 branch |
| RowGenerator.BranchesOrdered | GarberBlockCalc.java:106-114 | every row below the Block1 extension of a partial row precedes, lexicographically, every row below its Block2 extension |
| RowGenerator.RowsSorted | GarberBlockCalc.java:40 | the whole enumeration is strictly lexicographically increasing |
| RowGenerator.RowsDistinct | GarberBlockCalc.java:97-115 | no row is emitted twice |
| RowGenerator.PrefixSumStrictlyIncreasing | GarberBlockCalc.java:131-136 | with positive blocks, a row's running sums grow strictly as the position advances |
| Compatibility.GeneratedRowsValid | GarberBlockCalc.java:97-104 | each generated row has positive blocks summing to the width, which the walk relies on |
| Compatibility.RowsAreCompatible | GarberBlockCalc.java:117-150 | the walk terminates with both positions in bounds, and it returns true exactly when the two rows share no prefix sum strictly between 0 and the width |
| Compatibility.JointsFromFirstBlock | GarberBlockCalc.java:121-122 | no interior joint lies before the end of the first block, so the walk may start both sums there |
| Compatibility.AdvanceKeepsInvariant | GarberBlockCalc.java:131-136 | advancing the row with the smaller running sum skips no shared joint: every shared joint stays at or beyond both sums |
| Compatibility.CompatibleSymmetric | GarberBlockCalc.java:119-128 | the compatibility relation is symmetric; with the walk's contract, so is `rowsAreCompatible` |
| Compatibility.MultiBlockRowSelfIncompatible | GarberBlockCalc.java:119-128 | a row of two or more blocks is incompatible with itself, as both first sums are equal and interior |
| Compatibility.SingleBlockRowHasNoJoints | GarberBlockCalc.java:121-127 | a one-block row has no interior joint, since its first running sum is already the width |
| Compatibility.SingleBlockRowCompatible | GarberBlockCalc.java:121-147 | a one-block row is compatible with every row in both directions, itself included |
| Compatibility.CompatibleIndices | GarberBlockCalc.java:47-52 | after the inner loop has seen indices below `n`, the list holds exactly those whose rows are compatible with row `i`, ascending |
| Compatibility.CompatibilityLists | GarberBlockCalc.java:44-53 | the lists of all rows, each ascending and holding exactly the compatible indices |
| Compatibility.BuildCompatibility | GarberBlockCalc.java:44-53 | after the nested loop, `adj[i]` holds, strictly increasing and without duplicates, exactly the indices `j` with `rows[j]` compatible with `rows[i]` |
| Levels.NextLevel | GarberBlockCalc.java:72-87 | one round, scattered per source row into a freshly zeroed vector, equals the vector-times-adjacency product gathered per target row |
| Levels.LevelCountsStacks | GarberBlockCalc.java:64-88 | after `h - 1` rounds, entry `k` of the level vector is the number of stacks of `h` rows with row `k` on top and every adjacent pair allowed |
| Levels.SliceOfTopped | GarberBlockCalc.java:77-82 | the stacks of height `h + 1` topped by `k` with row `j` below it are the stacks of height `h` topped by `j`, extended by `k`, exactly when `k` is on `j`'s list |
| Levels.AscendingOccurrences | GarberBlockCalc.java:78-82 | an index occurs at most once in an ascending compatibility list, so each stack is added once |
| Levels.LevelTotalCountsStacks | GarberBlockCalc.java:90-94 | the sum of the final level vector is the number of stacks of the requested height |
| Levels.CountPanels | GarberBlockCalc.java:60-94 | the propagation and final sum return the number of stacks of `height` rows |
| Levels.HeightOneCount | GarberBlockCalc.java:64-66 | at height 1 the number of stacks is the number of rows |
| Levels.NoRowsNoStacks | GarberBlockCalc.java:60-66 | with no rows there is no stack of any positive height |
| Levels.ZeroCountPersists | GarberBlockCalc.java:68-88 | once no stack of some height exists, none of any greater height exists |
| Levels.ZeroLevelStaysZero | GarberBlockCalc.java:72-87 | an all-zero level vector gives an all-zero vector in the next round |
| BlockCalc.PanelsAreStacks | GarberBlockCalc.java:44-53 | stacks built along the compatibility lists are exactly the panels of the running-bond rule |
| BlockCalc.GetNumberOfPanels | GarberBlockCalc.java:35-95 | the count returned is the number of panels of `height` rows over the rows of `width` |
| BlockCalc.HeightOneCountsRows | GarberBlockCalc.java:60-66 | the count at height 1 equals the number of rows |
| BlockCalc.NoRowsNoPanels | GarberBlockCalc.java:60-66 | a width no row fits gives 0 at every height |
| BlockCalc.ZeroPanelsPersist | GarberBlockCalc.java:68-88 | a count of 0 at some height stays 0 at every greater height |
| BlockCalc.RowsOfOneBlock | GarberBlockCalc.java:97-115 | at width 3 or 4.5 the search emits exactly the one-block row |
| BlockCalc.SingleBlockWidth | GarberBlockCalc.java:35-95 | at width 3 or 4.5 there is one row and exactly one panel at every height |
| BlockCalc.RowsOfWidthSix | GarberBlockCalc.java:97-115 | at width 6 the search emits exactly [3, 3] |
| BlockCalc.WidthSix | GarberBlockCalc.java:35-95 | at width 6 the count is 1 at height 1 and 0 at every greater height |
| BlockCalc.RowsOfWidthSevenAndAHalf | GarberBlockCalc.java:97-115 | at width 7.5 the search emits exactly [3, 4.5] then [4.5, 3] |
| BlockCalc.TwoAlternatingRows | GarberBlockCalc.java:68-88 | with two rows that clash with themselves and fit on each other, the panels of every height are the two alternating stacks |
| BlockCalc.WidthSevenAndAHalf | GarberBlockCalc.java:35-95 | at width 7.5 the count is 2 at every height |

## Left out

- `main` and `commandLineIsValid` (GarberBlockCalc.java:24-33, 152-175) are argument parsing, stderr messages and `System.exit`. In their place, `GetNumberOfPanels` requires `width > 0` and `height >= 1`. The driver accepts only widths 6..96 (half-units) and heights 1..10, which is stronger. `width > 0` is all the code needs, because `rowsAreCompatible` reads each row's first block.
- The `double` fields and sums (GarberBlockCalc.java:12-15, 99-102, 121-147) are integer half-units. Every value is a multiple of 0.5 no larger than 52.5, which binary floating point represents exactly. So no rounding occurs, and the equality and order tests agree with the integer ones.
- The `long` level vectors and count (GarberBlockCalc.java:37, 61-92) are unbounded `nat`. Overflow is not modelled; within the driver's range the counts fit in 64 bits.
- The `Row extends ArrayList` class, its `clone` override and the mutable fields `width`, `height` and `rows` (GarberBlockCalc.java:15-17, 177-191) are Java mechanics. Rows are values. The compatibility lists are a separate sequence indexed like the rows. Width and height are parameters.
- Compatibility.RowsAreCompatible: the tie branch (GarberBlockCalc.java:137-145) is modelled as a no-op with a proved assertion that both rows are at their last block. A tie that gets past the check at line 127 has the first row at its last block, so its sum is the width. The second row's sum is then the width too, so neither guarded advance can fire. Writing the two advances out would leave unreachable statements in the method.
- "No branch continues once the sum exceeds the width" has no contract of its own. It is the `sum > width` case of `PlaceBlock`'s definition, which returns nothing, and termination is proved on `width - sum`.
- Compatibility.CompatibleSymmetric: symmetry is proved of the `Compatible` relation, not of two runs of the walk. Lemmas cannot call methods. `RowsAreCompatible` is proved equal to `Compatible`, so the two runs agree.

## Notes on the source

- The check at line 127 tests only whether the first row is at its last block, although the comment at line 126 speaks of "the end of the row" without saying which row. For rows with positive blocks that sum to the width, the two readings agree: equal sums mean both rows are short of the width, or both are at their last block. `RowsAreCompatible` is proved against the symmetric joint-set statement.
- The rule makes every row of two or more blocks incompatible with itself, and every one-block row compatible with everything. Both facts are proved (`MultiBlockRowSelfIncompatible`, `SingleBlockRowCompatible`).
