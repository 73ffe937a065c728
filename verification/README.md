# Seam carving engine — a Dafny model

This project models the pixel-grid core of a content-aware image resizer. Images are flat row-major vectors with a width. A *seam* is a connected path of cells, one per row (vertical seam) or one per column (horizontal seam). The resizer repeatedly finds the seam of least total energy and carves it out.

The repository holds several generations of that engine, each with its own `Matrix` and `Seam` shapes. The model keeps them apart, one Dafny module per source file:

| module | source | what it is |
|---|---|---|
| `TaggedMatrix` | `src/matrix.rs` | Cells carry an identity tag (`original_indices`). Seams name cells by tag. A vertical carve is one scan in storage order. A horizontal carve filters every column by tag and rebuilds the rows. |
| `SeamCarver` | `src/seam_carver.rs` | The gap-skipping dynamic-programming search. Removed cells have infinite energy and are stepped over when looking for neighbours. Also holds the random pick among minimal cells and the rule that decides between a vertical and a horizontal seam. |
| `PositionalMatrix` | `src/structs/matrix.rs` | The older engine. Seams are column (row) numbers, neighbours are clamped at the border, and carving removes by position. |
| `Utils` | `src/utils.rs` | `grayscale`, the neighbour lookups and masking of `gradient_magnitude`, and the free-standing `carve_horizontal_seam`. |
| `SeamHolder` | `src/structs/seam_holder.rs` | A log of seams per orientation: push, pop the last `n`, and splicing "overflowing" indices into the most recent seams. |
| `SeamExtractor` | `src/seam_extractor.rs` | The pure `vertical_seam` search: a single-`while` DP fill and a walk back on raw energies. |
| `Energies`, `Seqs` | — | Shared vocabulary. `Energy` is `Fin(int)` or the `Inf` sentinel of a removed cell. `Seqs` holds distinctness, subsequences and the row/column views of flat vectors. |

Energies are exact integers plus an explicit infinity. `Add` lets infinity absorb any summand, and `Min`/`LessEq` order `Inf` above every finite value. That is how `f32` behaves on the values the engine produces, without rounding.

Every loop-based routine exists twice:
- a recursive reference definition (for example `DpAt`, `KeepUnlisted`, `InsertIntoSeam`);
- a method or function that follows the source's loop, proved equal to the reference.

Optimality, round trips and tag bookkeeping are then proved about the reference.

## Model

| member | source | states |
|---|---|---|
| Energies.Min | src/seam_carver.rs:71-89 | `f32::min` as used by the DP: the result is one of the two arguments and at most both. |
| Energies.Add | src/seam_carver.rs:89 | Adding to an infinite energy gives infinity, and only then is the sum infinite. |
| Energies.NearestLiveBefore | src/seam_carver.rs:73-79 | The reversed `find` before `j` returns the nearest position whose cell is not removed, and `None` exactly when every earlier cell is removed. |
| Energies.NearestLiveFrom | src/seam_carver.rs:82-88 | The forward `find` over `j..width` (the DP passes `j + 1`) returns the first live position in that range, and `None` exactly when all of them are removed. |
| Energies.MinOf | src/seam_carver.rs:97-112 | The minimum of a non-empty line is one of its entries and at most every entry. |
| TaggedMatrix.Height | src/matrix.rs:20-22 | `len / width` rounded down: the complete rows fit in the vector and one more row does not. |
| TaggedMatrix.New | src/matrix.rs:23-29 | The width and vector are kept, and the tags are `0, 1, …, len - 1`, hence distinct. |
| TaggedMatrix.Scan | src/matrix.rs:74-94 | The storage-order scan of a vertical carve keeps values and tags parallel and never grows. |
| TaggedMatrix.ScanKeepsOthers | src/matrix.rs:81-94 | The surviving tags are a subsequence of the input tags. Every tag that is neither the current target nor still pending survives. |
| TaggedMatrix.KeepUnlisted | src/matrix.rs:81-94 | Reference removal: a tag survives iff it is present and not in the drop set, in storage order. |
| TaggedMatrix.ScanMissing | src/matrix.rs:81-94 | A target tag that no cell carries stops the scan from removing anything. |
| TaggedMatrix.ScanRemovesSeam | src/matrix.rs:67-101 | With distinct tags and the seam listed in storage order, the scan equals the reference removal of exactly the seam's tags, one cell per entry. |
| TaggedMatrix.CarveVertical | src/matrix.rs:67-101 | An empty seam returns the matrix unchanged, width included. Otherwise the width drops by one and the surviving tags are a subsequence of the old ones. |
| TaggedMatrix.CarveVerticalRemovesSeam | src/matrix.rs:67-101 | A seam in storage order over distinct tags removes exactly its cells, one per entry, and the surviving tags stay distinct. |
| TaggedMatrix.CarveVerticalKeepsHeight | src/matrix.rs:67-101 | One seam entry per row of a full rectangle leaves the same number of complete rows, one cell narrower. |
| TaggedMatrix.KeptRows | src/matrix.rs:38-44 | The rows of one column whose tag differs from the seam entry: increasing, all below `n`, and every such row listed. |
| TaggedMatrix.CarveHorizontal | src/matrix.rs:30-66 | The width is kept and exactly one complete row disappears. |
| TaggedMatrix.DropTagged | src/matrix.rs:38-44 | Reference per-column filter: no surviving cell carries the tag, and a column without the tag is kept whole. |
| TaggedMatrix.DropTaggedKept | src/matrix.rs:38-44 | Filtering a column's (value, tag) pairs keeps exactly the cells of the rows `KeptRows` lists. |
| TaggedMatrix.KeptRowsCount | src/matrix.rs:38-44 | With distinct tags a column loses one cell when it holds the seam tag and none otherwise. |
| TaggedMatrix.CarvedGrids | src/matrix.rs:50-65 | The carved values and tags are the per-column kept cells regrouped row-major. Row `i` takes the `i`-th kept cell of every column, values and tags together, where each column keeps the rows whose tag differs from its seam entry. |
| TaggedMatrix.CarveHorizontalColumns | src/matrix.rs:30-66 | Every column of the result is the filtered input column cut to `height - 1` cells, top to bottom. |
| TaggedMatrix.RegroupKeepsDistinct | src/matrix.rs:50-59 | Regrouping strictly increasing kept rows of a grid with distinct cells gives distinct cells. |
| TaggedMatrix.CarveHorizontalKeepsTags | src/matrix.rs:39-65 | A horizontal carve keeps tags distinct, and every surviving tag was a tag before. |
| TaggedMatrix.CarvedTagFrom | src/matrix.rs:39-65 | Each tag of the carved matrix occurs in the input matrix. |
| TaggedMatrix.ExactColumn | src/matrix.rs:38-44 | A column that holds its seam tag, with distinct tags, keeps exactly `height - 1` rows. |
| TaggedMatrix.CarveHorizontalExact | src/matrix.rs:30-66 | When every column holds its seam tag, the carve is possible and each column loses exactly the named cell. |
| TaggedMatrix.ExactColumnCarve | src/matrix.rs:30-66 | A column holding its seam tag comes out as the input column without that cell. |
| TaggedMatrix.CarveSeam | src/matrix.rs:102-108 | The dispatch is vertical iff `is_vertical`. |
| TaggedMatrix.CarveSeamKeepsTags | src/matrix.rs:30-108 | Either carve keeps tags distinct and within the old ones. |
| TaggedMatrix.CarveAll | src/matrix.rs:102-108 | Carving seams one after another never grows the vector. |
| TaggedMatrix.CarveAllKeepsTags | src/matrix.rs:30-108 | Through any number of carves, tags stay distinct and a subset of the original tags. |
| TaggedMatrix.IdentityHorizontalCarve | src/matrix.rs:190-239 | On a fresh 4 by 4 matrix, seam `[0, 5, 6, 11]` leaves the cells `4 1 2 3 / 8 9 10 7 / 12 13 14 15`, width 4, with those tags. |
| TaggedMatrix.IdentityVerticalCarve | src/matrix.rs:241-290 | On a fresh 4 by 4 matrix, the diagonal seam `[0, 5, 10, 15]` leaves the twelve off-diagonal cells, width 3. |
| TaggedMatrix.MixedOrderVerticalCarve | src/matrix.rs:292-344 | With tags `[0, 5, 2, 3, 4, 9, …, 17, 14, 15]`, seam `[0, 9, 10, 15]` removes storage positions 0, 5, 10 and 15. |
| SeamCarver.DpLineStep | src/seam_carver.rs:69-91 | Line `k` of the DP table is line `k - 1` relaxed by the energies of line `k`: each cell adds its own energy to the cheapest of its straight, nearest-live-before and nearest-live-after predecessors. With `rawAfter`, the after-side predecessor contributes its raw energy. |
| SeamCarver.DpStep | src/seam_carver.rs:71-89 | `dp[i][j] = e[i][j] + min(dp[i-1][j], dp[i-1][L], dp[i-1][R])` over the nearest live `L` and `R`, a missing neighbour counting as infinity. |
| SeamCarver.DeadStaysDead | src/seam_carver.rs:71-89 | A removed cell never gets a finite DP value. |
| SeamCarver.DpAt | src/seam_carver.rs:69-91 | The DP value of a cell, defined by the recurrence over the nearest live neighbours on the line before (`rawAfter` selects the as-written horizontal variant of lines 170-192). `DpStep` and `DpLineStep` show each DP line is the previous one relaxed. `FillVertical` shows the in-place loop stores it. `DpLowerBound` and `BacktrackCost` show it is the cost of a cheapest path reaching the cell. |
| SeamCarver.CostSnoc | src/seam_carver.rs:158-160 | The seam energy is folded left from zero over the path cells. |
| SeamCarver.Cost | src/seam_carver.rs:158-160 | The seam energy: a sum from zero of the energies along the path, infinite as soon as one cell is removed. `CostSnoc` states the left fold, and `BacktrackCost` equates it with the DP value at the path's end. |
| SeamCarver.MinScan | src/seam_carver.rs:97-112 | Every listed position holds the running minimum, every position holding it is listed, and the minimum is below every scanned entry. |
| SeamCarver.MinCandidates | src/seam_carver.rs:97-112 | The candidates are non-empty, every candidate holds the line minimum, and every minimal position is a candidate. |
| SeamCarver.NewMinimumPushedTwice | src/seam_carver.rs:104-111 | A strictly smaller entry is pushed twice, because the equality test is not an `else`: on `[5, 3, 3]` the list is `[1, 1, 2]`. |
| SeamCarver.StepBack | src/seam_carver.rs:116-147 | The step back is straight or to the nearest live neighbour, and lands on the cheapest of them. The before side is taken only when strictly cheaper than the straight cell. Whenever the after side is among the cheapest, it is taken, so it wins every tie. |
| SeamCarver.Backtrack | src/seam_carver.rs:116-148 | The backtracked positions form a valid seam: one per line, each step straight or to a nearest live neighbour. |
| SeamCarver.LinePath | src/seam_carver.rs:93-148 | The search returns one position per line, forming a valid seam. |
| SeamCarver.LinePathEndsAtMin | src/seam_carver.rs:97-113 | The seam ends on a cell of minimal DP value in the last line. |
| SeamCarver.Pick | src/seam_carver.rs:113 | The random draw among the candidates lands on a minimal cell of the last line. |
| SeamCarver.BacktrackCost | src/seam_carver.rs:116-160 | Along a backtracked path, the summed energy equals the DP value the path ends at. |
| SeamCarver.BestBelowNeighbours | src/seam_carver.rs:71-89 | The relaxed value is at most the DP value of each neighbour the recurrence considers. |
| SeamCarver.DpLowerBound | src/seam_carver.rs:69-91 | No valid path reaching a cell costs less than the DP value there. |
| SeamCarver.CleanPathCost | src/seam_carver.rs:93-160 | The returned energy is the minimum of the last DP line. |
| SeamCarver.CleanPathBelow | src/seam_carver.rs:69-91 | Every full valid path costs at least the minimum of the last DP line. |
| SeamCarver.CleanPathIsOptimal | src/seam_carver.rs:63-161 | The search returns a cheapest seam. |
| SeamCarver.VerticalPath | src/seam_carver.rs:63-148 | The vertical search gives one valid position per row. |
| SeamCarver.ExtractVerticalSeam | src/seam_carver.rs:150-161 | The seam has one entry per row, and entry `i` is the original index (tag) of the path cell in row `i`. `is_vertical` is set, and the energy is the fold over the path cells. |
| SeamCarver.VerticalSeamIsOptimal | src/seam_carver.rs:63-161 | The vertical seam is a cheapest seam, and its energy is the minimum of the last DP row. |
| SeamCarver.Columns | src/seam_carver.rs:164-167 | The horizontal search runs over the `width` columns, each `height` long. |
| SeamCarver.HorizontalPath | src/seam_carver.rs:164-253 | The as-written horizontal search gives one valid position per column. |
| SeamCarver.ExtractHorizontalSeam | src/seam_carver.rs:194-266 | `width` tags, one per column from that column's path cell, with `is_vertical` cleared and the energy folded along the path. |
| SeamCarver.HorizontalPathCorrected | src/seam_carver.rs:164-253 | The corrected search, with the clean column recurrence, gives one valid position per column. |
| SeamCarver.ExtractHorizontalSeamCorrected | src/seam_carver.rs:194-266 | As `ExtractHorizontalSeam`, over the corrected path. |
| SeamCarver.HorizontalSeamCorrectedIsOptimal | src/seam_carver.rs:164-266 | The corrected horizontal seam is a cheapest seam, and its energy is the minimum of the last DP column. |
| SeamCarver.Orientation | src/seam_carver.rs:26-46 | Nothing is carved once the image fits. Otherwise the result is horizontal if the width fits, vertical if the height fits, and else vertical iff its energy is strictly smaller. |
| SeamCarver.NextSeam | src/seam_carver.rs:31-46 | The seam carved next: none once the image fits, the vertical extraction only when the width is too large, and the as-written horizontal extraction only when the height is too large. When both are too large, vertical is chosen iff its energy is strictly below the horizontal one. |
| SeamCarver.NextSeamCorrected | src/seam_carver.rs:31-46 | The same choice with the corrected horizontal search as the horizontal candidate. |
| SeamCarver.VerticalCell | src/seam_carver.rs:70-89 | One cell of the vertical fill keeps "finished cells hold DP values, the rest raw energy". |
| SeamCarver.FillVertical | src/seam_carver.rs:64-91 | The in-place vertical loop computes the DP recurrence in every cell. |
| SeamCarver.RowMajorCellValue | src/seam_carver.rs:172-190 | In row-major order, the value stored at `(i, j)` is the column recurrence with the below side taken raw, because those rows are not visited yet. |
| SeamCarver.RowMajorStep | src/seam_carver.rs:170-192 | One cell of the row-major fill keeps that invariant. |
| SeamCarver.FillRowMajor | src/seam_carver.rs:165-192 | The in-place horizontal loop computes the column recurrence with the after-side value raw. |
| SeamCarver.RowMajorHorizontalMissesCheapest | src/seam_carver.rs:170-192 | On columns `[[10, 10], [10, 0], [1, 0]]` the as-written search returns `[1, 1, 0]`, costing 11, while `[1, 1, 1]` costs 10. |
| SeamCarver.SampleTable | src/seam_carver.rs:170-192 | The as-written table of that example is `[[10, 10], [20, 10], [1, 10]]`. |
| SeamCarver.SampleBacktrack | src/seam_carver.rs:218-253 | The walk back from row 0 of the last column of that table is `[1, 1, 0]`. |
| PositionalMatrix.Height | src/structs/matrix.rs:29-31 | `len / width` rounded down. |
| PositionalMatrix.Cells | src/structs/matrix.rs:70-78 | The row view of a full matrix is a rectangle of `height` rows. |
| PositionalMatrix.CompleteRows | src/structs/matrix.rs:179-181 | The row view of the `len / width` complete rows, leaving out a trailing partial row. On a full matrix it is the whole row view. |
| PositionalMatrix.CompleteRowsAt | src/structs/matrix.rs:179-181 | Cell `(i, j)` of the complete rows is flat position `i * width + j`. |
| PositionalMatrix.RemoveAt | src/structs/matrix.rs:50 | `Vec::remove`: one shorter, earlier entries kept, later ones shifted down. |
| PositionalMatrix.CarveVertical | src/structs/matrix.rs:69-88 | Row `i` loses column `columns[i]`, every other cell keeps its row and order, and the width drops by one. |
| PositionalMatrix.CarveHorizontal | src/structs/matrix.rs:38-68 | Column `j` loses row `rows[j]`, survivors keep their column and order, and the height drops by one. |
| PositionalMatrix.DpAt | src/structs/matrix.rs:98-113 | The DP value of a cell, defined by the recurrence over the clamped neighbours on the line before. `FillRows` and `FillColumns` show the in-place loops store it. `DpLowerBound` and `BacktrackCost` show it is the cost of a cheapest path reaching the cell. |
| PositionalMatrix.MinScanLists | src/structs/matrix.rs:120-134 | With `else if`, the scan lists each minimal position once, in increasing order, and lists all of them. |
| PositionalMatrix.MinScan | src/structs/matrix.rs:120-134 | The `min_columns` scan with its running minimum. `MinScanLists` shows that the list holds every minimal position once, in increasing order, and nothing else. |
| PositionalMatrix.MinCandidates | src/structs/matrix.rs:120-134 | The candidate list is non-empty, and each entry is minimal, listed once and in order. |
| PositionalMatrix.Pick | src/structs/matrix.rs:135-136 | The random draw lands on a minimal bottom cell. |
| PositionalMatrix.StepBack | src/structs/matrix.rs:140-171 | The step back goes to a clamped neighbour and lands on the cheapest of the three. It moves to the before side only when that is strictly cheaper than straight. Whenever the after side is among the cheapest, it is taken, so it wins every tie. |
| PositionalMatrix.Backtrack | src/structs/matrix.rs:140-174 | The walk back gives positions below `w`, consecutive ones at most one apart. |
| PositionalMatrix.Cost | src/structs/matrix.rs:116-172 | The `total_energy` sum along the path. `BacktrackCost` equates it with the DP value at the path's end, and `PathAboveMin` bounds every path's sum from below. |
| PositionalMatrix.Search | src/structs/matrix.rs:115-176 | The result has one position per line, is a valid path, ends on a minimal DP cell, and reports its summed energy. |
| PositionalMatrix.BacktrackCost | src/structs/matrix.rs:137-173 | The energy summed along the walk back equals the DP value it starts from. |
| PositionalMatrix.DpLowerBound | src/structs/matrix.rs:98-113 | No valid path reaching a cell costs less than the DP value there. |
| PositionalMatrix.SearchCost | src/structs/matrix.rs:115-176 | The reported energy is the minimum of the last DP line. |
| PositionalMatrix.PathAboveMin | src/structs/matrix.rs:98-113 | Every full valid path costs at least that minimum. |
| PositionalMatrix.SearchIsOptimal | src/structs/matrix.rs:92-177 | The search returns a cheapest seam. |
| PositionalMatrix.RowCellKeeps | src/structs/matrix.rs:98-113 | One cell of the vertical fill keeps "finished cells hold DP values". |
| PositionalMatrix.FillRows | src/structs/matrix.rs:98-113 | The in-place vertical loop computes the clamped recurrence in every cell. |
| PositionalMatrix.RelaxCellKeeps | src/structs/matrix.rs:184-199 | One cell of the column-major fill keeps its invariant. |
| PositionalMatrix.FillColumn | src/structs/matrix.rs:185-198 | One column of the horizontal fill finishes that column. |
| PositionalMatrix.FillColumns | src/structs/matrix.rs:184-199 | Because the loop is column-major, the in-place horizontal fill computes the column recurrence exactly. |
| PositionalMatrix.ExtractVertical | src/structs/matrix.rs:92-177 | `height` columns, consecutive ones at most one apart, with the energy summed along them. |
| PositionalMatrix.ExtractHorizontal | src/structs/matrix.rs:178-261 | On any matrix with at least one complete row: `width` rows, each below `height`, consecutive ones at most one apart, with the energy summed along the complete rows' columns. |
| PositionalMatrix.ExtractVerticalIsOptimal | src/structs/matrix.rs:92-177 | The vertical extraction returns a cheapest vertical seam. |
| PositionalMatrix.ExtractHorizontalIsOptimal | src/structs/matrix.rs:178-261 | The horizontal extraction returns a cheapest horizontal seam through the complete rows, whether or not a partial row trails them. |
| PositionalMatrix.SampleShape | src/tests/matrix.rs:188-206 | The test energy `[0, 1, 3, 2, 0, 1, 3, 2, 0]` of width 3 as rows and as columns. |
| PositionalMatrix.DiagonalSearch | src/tests/matrix.rs:188-206 | A search whose DP singles out the diagonal returns `[0, 1, 2]` with energy 0. |
| PositionalMatrix.SampleVerticalExtraction | src/tests/matrix.rs:198-206 | The vertical extraction of the test energy is columns `[0, 1, 2]` with energy 0, for every draw. |
| PositionalMatrix.SampleHorizontalExtraction | src/tests/matrix.rs:188-196 | The horizontal extraction of the test energy is rows `[0, 1, 2]` with energy 0, for every draw. |
| PositionalMatrix.CarveVerticalMatches | src/structs/matrix.rs:69-88 | A vertical carve is fixed by its cell-by-cell description. |
| PositionalMatrix.CarveHorizontalMatches | src/structs/matrix.rs:38-68 | A horizontal carve is fixed by its cell-by-cell description. |
| PositionalMatrix.VerticalCarvingExample | src/tests/matrix.rs:138-186 | On the 4 by 4 colour grid, seam columns `[0, 1, 2, 3]` leave the listed 3-wide grid. |
| PositionalMatrix.HorizontalCarvingExample | src/tests/matrix.rs:88-136 | On the same grid, seam rows `[0, 1, 1, 2]` leave the listed 3-high grid. |
| Utils.Grayscale | src/utils.rs:3-13 | The width, length and tags are kept, and each cell becomes the luma of its own colour. |
| Utils.GrayscaleCommutesWithVerticalCarve | src/utils.rs:3-13 | Grayscale before or after a vertical carve gives the same matrix. |
| Utils.AboveOf | src/utils.rs:32-37 | The row of the nearest live cell strictly above, or `None` when every one is removed. |
| Utils.BelowOf | src/utils.rs:38-43 | The row of the nearest live cell at or below, so the search starts at the cell itself. |
| Utils.LeftOf | src/utils.rs:45-50 | The column of the nearest live cell strictly to the left. |
| Utils.RightOf | src/utils.rs:51-56 | The column of the nearest live cell at or to the right of the cell. |
| Utils.GradientAt | src/utils.rs:28-58 | The gradient of one cell: infinite for a removed cell, otherwise `magnitude` of the vertical and horizontal differences between the found neighbours. `GradientKeepsMask` and `GradientOfLiveCell` state what that means for removed and live cells. |
| Utils.Padded | src/utils.rs:16-20 | The result starts all `INFINITY`, and only complete rows are written. |
| Utils.Gradient | src/utils.rs:15-63 | Width, length and tags are kept. Cell `(i, j)` of every complete row gets the gradient `GradientAt` of that cell, and cells of a trailing partial row stay infinite. |
| Utils.GradientKeepsMask | src/utils.rs:29-31 | A removed cell stays removed. With a finite magnitude function, a cell is live after exactly when it was live before. |
| Utils.GradientOfLiveCell | src/utils.rs:32-58 | For a live cell the below and right lookups find the cell itself, so its gradient compares it with its upper and left neighbours only. |
| Utils.KeepColumn | src/utils.rs:95-110 | The per-column loop collects exactly the values and tags of the rows whose tag differs from the seam entry, top to bottom. |
| Utils.KeepColumnStep | src/utils.rs:100-106 | One row of that loop appends its cell exactly when its tag differs. |
| Utils.KeepColumns | src/utils.rs:95-110 | Every column is collected against its own seam entry. |
| Utils.RowOf | src/utils.rs:114-119 | A rebuilt row takes entry `i` of every column list, left to right. |
| Utils.Rebuild | src/utils.rs:112-121 | The first `height - 1` rows are read across the column lists. |
| Utils.RebuiltIsRegroup | src/utils.rs:112-127 | Rebuilding rows from the gathered columns regroups the kept cells. |
| Utils.CarveHorizontalSeam | src/utils.rs:91-128 | The free-standing carve builds a new matrix equal to the tagged matrix's own horizontal carve: same width, one row fewer. |
| SeamHolder.New | src/structs/seam_holder.rs:13-18 | Both logs start empty. |
| SeamHolder.PushSeam | src/structs/seam_holder.rs:19-25 | The seam goes on top of the log its flag names, and the other log is unchanged. |
| SeamHolder.PopNSeams | src/structs/seam_holder.rs:26-52 | `min(n, len)` seams are returned oldest first, remainder plus returned equals the old log, and the other log is untouched. |
| SeamHolder.PopUndoesPush | src/structs/seam_holder.rs:19-52 | Popping one right after a push returns that seam and the holder as it was. |
| SeamHolder.PopTwice | src/structs/seam_holder.rs:26-52 | Popping `a` then `b` is popping `a + b` at once. |
| SeamHolder.PushAllAppends | src/structs/seam_holder.rs:19-25 | Pushing seams of one orientation appends them in order to that log alone. |
| SeamHolder.PushThenPop | src/structs/seam_holder.rs:19-52 | Pushing into a fresh holder and popping `n` returns the last `n` in push order and keeps the first ones. |
| SeamHolder.VerticalPopping | src/tests/seam_holder.rs:5-52 | Eleven column seams pushed, three popped: seams 8 to 10 come back, and 0 to 7 stay. |
| SeamHolder.HorizontalPopping | src/tests/seam_holder.rs:53-99 | The same on the horizontal log with row seams, and the vertical log stays empty. |
| SeamHolder.PoppingOverflow | src/tests/seam_holder.rs:101-132 | Popping from an empty log of either orientation returns nothing and leaves the holder as it was. |
| SeamHolder.FirstAtLeast | src/structs/seam_holder.rs:71-83 | The first entry `>= id`, with every earlier entry below `id`, and `None` exactly when every entry is below. |
| SeamHolder.InsertIntoSeam | src/structs/seam_holder.rs:68-86 | The splice of one id into one seam. `ShiftInsert` shows the carried-value pass computes it. `InsertKeepsAscending` shows it keeps a seam ascending and adds the id once, unless the id is larger than every entry. |
| SeamHolder.ShiftInsert | src/structs/seam_holder.rs:68-86 | The carried-value pass equals the splice: `id` goes in front of the first entry `>= id`, later entries move right, and nothing happens when every entry is smaller. |
| SeamHolder.CarriedStep | src/structs/seam_holder.rs:71-83 | One entry of the pass keeps its invariant, in each of the three branches. |
| SeamHolder.CarriedDone | src/structs/seam_holder.rs:84-86 | Pushing the carried value at the end completes the splice. |
| SeamHolder.InsertKeepsAscending | src/structs/seam_holder.rs:68-86 | Splicing into an ascending seam keeps it ascending and adds `id` exactly once, unless `id` exceeds every entry. |
| SeamHolder.InsertOverflowingIndices | src/structs/seam_holder.rs:53-97 | Id `k` is spliced into seam `len - count + k`, earlier seams and the other log are unchanged, and the log keeps its length. |
| SeamHolder.InsertOverflowing | src/structs/seam_holder.rs:53-97 | The loop over the ids computes that splice. |
| SeamExtractor.RelaxedKeeps | src/seam_extractor.rs:48-63 | The stored value is the clean bordered recurrence, and one cell keeps the fill invariant. |
| SeamExtractor.VisitedWrap | src/seam_extractor.rs:43-46 | Wrapping `j` to 0 moves the invariant to the next row. |
| SeamExtractor.Dp | src/seam_extractor.rs:42-66 | The clean bordered recurrence. `Fill` shows the loop stores it on exactly the cells it rewrites, and `FilledFollowsRecurrence` shows those cells satisfy it read from the table itself. |
| SeamExtractor.Fill | src/seam_extractor.rs:36-66 | The single-`while` fill rewrites rows `1..h-1`, plus only column 0 of the last row when there are at least three rows. |
| SeamExtractor.FilledFollowsRecurrence | src/seam_extractor.rs:42-66 | Every rewritten cell satisfies `dp[i][j] = e[i][j] + min(dp[i-1][j-1], dp[i-1][j], dp[i-1][j+1])`, with the border counting as infinity. |
| SeamExtractor.FirstMin | src/seam_extractor.rs:71-85 | The fold from `(0, INFINITY)` stays in range, and starts at 0. |
| SeamExtractor.FirstMinIsFirstMinimum | src/seam_extractor.rs:71-85 | The fold ends on the first position of the smallest entry, or on 0 when every entry is infinite. |
| SeamExtractor.BottomIsFirstMinimum | src/seam_extractor.rs:71-85 | Over the last row as the fill leaves it, the bottom column holds the first smallest value, and is 0 when that row is all infinite. |
| SeamExtractor.Bottom | src/seam_extractor.rs:71-85 | The fold over the last row's first `width` cells gives a column of the image. `BottomIsFirstMinimum` states which one. |
| SeamExtractor.StepUp | src/seam_extractor.rs:87-101 | The step moves to `prev - 1`, `prev` or `prev + 1`, lands on the smallest raw energy of them, and moves sideways only when strictly smaller. |
| SeamExtractor.WalkUp | src/seam_extractor.rs:70-105 | The walk gives columns below `w`, consecutive ones at most one apart. |
| SeamExtractor.WalkUpSteps | src/seam_extractor.rs:86-104 | Every earlier row of the walk is the raw-energy step from the row below it. |
| SeamExtractor.VerticalSeam | src/seam_extractor.rs:35-110 | `height` columns below `w`, consecutive ones at most one apart, the bottom one the first minimum, and each earlier one the raw-energy step up. |

## Left out

- The window, render loop and locks of `src/main.rs` are not modelled: they are UI and concurrency. The same goes for the thread and lock loop of `spawn_seam_carver` (`src/seam_carver.rs:5-30`, `47-61`) and for `start_seam_extractor_thread` with its channel (`src/seam_extractor.rs:7-33`). Only the orientation rule (`SeamCarver.Orientation`, `SeamCarver.NextSeam`) is kept, as one round of that loop.
- `f32` arithmetic is replaced by exact integers plus `Inf`, and NaN is not modelled. Because addition is exact, `src/structs/matrix.rs` summing the seam bottom-up and the model summing top-down give the same total.
- The luma weights and `sqrt` are parameters:
  - `Utils.Grayscale` takes the per-colour value function `luma`;
  - `Utils.Gradient` takes `magnitude(dy, dx)` in place of `sqrt(dy² + dx²)`.
- The random number generator is a parameter `rand`. The pick is `candidates[rand % |candidates|]`, which covers every outcome of `gen_range`.
- `image_to_matrix` and `matrix_to_image` (`src/utils.rs:65-89`) are not modelled: they use an image API that is not part of this model.
- `insert_vertical_seam` and `insert_horizontal_seam` (`src/structs/matrix.rs:262-339`) and their tests are not modelled. They are float averaging, and the tests call them with a seam argument that does not match their signature.
- `src/structs/color.rs` is not modelled. `src/structs.rs` contributes only declarations, which the modules reuse.
- Rayon's parallel iterators are modelled as ordinary sequential maps. Each item is independent, so the result is the same.
- `SeamHolder.InsertOverflowingIndices` requires `|ids| <= |log|` unless the log is empty. With more ids than seams in a non-empty log, the source's index arithmetic underflows and panics.
- SeamHolder's `Seam` is the `Seam` of `src/matrix.rs` (tags plus `is_vertical`). `src/structs/seam_holder.rs` imports a `Seam` that the `src/structs/matrix.rs` shown here does not define, and its tests build seams of `MemoryPoint`s. The model keeps only their `original_index`.
- `PositionalMatrix.CarveVertical` and `PositionalMatrix.CarveHorizontal` require a vector of complete rows (`Full`). On a trailing partial row the source carves the complete rows and drops the rest.
- `SeamExtractor.VerticalSeam` takes a rectangle of rows. Its source ignores a trailing partial row, because its bottom scan takes `width` cells (`src/seam_extractor.rs:76`).
- `SeamCarver.ExtractVerticalSeam` and `PositionalMatrix.ExtractVertical` require complete rows, through `Extractable` and `Full`. These requirements exclude inputs on which the source misbehaves:
  - the source's bottom scans (`src/seam_carver.rs:99-103`, `src/structs/matrix.rs:122-126`) skip to the last complete row without a `width` limit, so they also read the raw cells of a partial row;
  - the pick can then land past the last complete row, and the backtrack runs one row off.
- `SeamCarver.ExtractHorizontalSeam` (and the other `SeamCarver` searches, through `Extractable`) require complete rows for a different reason. Its scan down the last column (`src/seam_carver.rs:201-205`) stays within the complete rows. But its backtrack looks for the next live cell below over `(mid_index + width)..len` (`src/seam_carver.rs:236-237`), which can step into a partial row whose cells were never filled, and the seam then leaves the complete rows. The model does not describe that behaviour.
- `PositionalMatrix.ExtractHorizontal` needs no such restriction. Its fill, scan and walk back stay within `height` rows (`src/structs/matrix.rs:184-185`, `210-211`, `240`), so the model searches the columns of the complete rows and accepts any matrix with at least one complete row.
- `SeamExtractor.VerticalSeam` requires at least one row and one column. The source underflows on `height - 1` for an empty matrix.
- `SeamCarver.MinScan` models the double push of a new minimum as written (`SeamCarver.NewMinimumPushedTwice`). The pick is still a minimal cell, and only the draw's distribution is skewed, which a `rand` parameter does not capture.
- `Utils.BelowOf` and `Utils.RightOf` model the below and right lookups as written: they start at the cell itself. `Utils.GradientOfLiveCell` states the consequence.
- `SeamHolder.InsertKeepsAscending` states that an id larger than every entry of its seam is dropped, as the source does.

## Findings

| source | as written | input that shows it | evidently intended | confidence | as-written member | corrected member |
|---|---|---|---|---|---|---|
| src/seam_carver.rs:170-192 | The horizontal DP loops row by row. When cell `(i, j)` reads its lower neighbour in column `j - 1`, that row has not been visited yet, so it reads the raw energy instead of the DP value. | Energy columns `[[10, 10], [10, 0], [1, 0]]` (two rows, three columns): the search returns rows `[1, 1, 0]` with energy 11, while rows `[1, 1, 1]` cost 10. | The column recurrence used by the vertical search, with all three predecessors taken from the finished column. `extract_horizontal_seam` in `src/structs/matrix.rs:184-199` gets this by looping column-major. | not executed | SeamCarver.RowMajorHorizontalMissesCheapest | SeamCarver.HorizontalSeamCorrectedIsOptimal |

`SeamCarver.FillRowMajor` proves that the in-place loop computes exactly the raw-below recurrence that `SeamCarver.HorizontalPath` uses. `SeamCarver.NextSeam` composes the as-written horizontal search, as the carving loop does; `SeamCarver.NextSeamCorrected` is the same round with the corrected search.
