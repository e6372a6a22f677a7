# Serial CSR sparse matrix-vector benchmark, modelled in Dafny

`serial.c` reads a sparse matrix from a text file of 1-indexed
`(row, column, value)` triplets, converts it to CSR form (the arrays `row_ptr`,
`col_ind` and `values`), and then repeatedly multiplies it with a vector:
`x` starts as all ones, each repetition computes `y = A * x`, copies `y` into
`x` and clears `y`.

The model follows the program's three parts.

- `csr_spec.dfy` (module `CsrSpec`) defines what `read_matrix` computes, as
  functions on the triplet list:
  - `Histogram` is pass 1's per-row count.
  - `RowPtr` is its exclusive prefix sum, with the last slot forced to `num_vals`.
  - `Placement` / `Order` says which triplet each slot of `col_ind`/`values` holds: triplets grouped by row, file order kept inside a row.
  - `ColIndOf` / `ValuesOf` are the filled prefix of the finished arrays. They are the whole arrays when the triplet count is `num_vals`; otherwise `col_ind` continues with `-1`s.
  - `FinishedColInd` is the whole `col_ind`: the filled prefix, then the `-1`s.
  - `TripletProduct` is the matrix the triplets denote, applied to a vector.

  The file also holds the lemmas about these functions.
- `csr_build.dfy` (module `CsrBuild`) holds `read_matrix` itself, as imperative methods over arrays.
  - `CountRowOccurrences` is the histogram pass.
  - `SetRowPtr` is the running-index prefix sum.
  - `ProbeFreeSlot` is the sentinel probe.
  - `FillColumns` is the sentinel fill plus the second pass.
  - `ReadMatrix` composes the three.

  Each method is proved against the functions above.
- `spmv.dfy` (module `SpmvKernel`) holds `spmv_csr`, with its two loops, proved against `MatVec` / `Dot`.
- `driver.dfy` (module `Repetition`) holds the driver in `main`: the initialisation of `x`/`y`, the repetition loop, and the copy-back loop. It is proved against `Power`, the matrix applied `reps` times.
- `end_to_end.dfy` (module `EndToEnd`) connects the pieces.
  - The CSR arrays multiply exactly like the triplet list.
  - `Benchmark` (read, then repeat) leaves in `x` the triplet matrix applied `numRepeat` times to the all-ones vector.

Values are `real`, so every sum is exact.

The file is modelled as the sequence of its triplet lines (`seq<Triplet>`). Pass 2 re-reads that same sequence, as the program rewinds the file.

## Model

| member | source | states |
|---|---|---|
| CsrBuild.CountRowOccurrences | serial.c:128-141 | after pass 1, slot `r` of the fresh histogram array is the number of triplets whose 1-indexed row is `r + 1`, for every `r < num_rows` |
| CsrBuild.SetRowPtr | serial.c:143-149 | into a newly allocated array, the running index gives `row_ptr[i]` as the sum of the histogram's first `i` slots, for `i < num_rows`; `row_ptr[num_rows]` is the declared `num_vals` |
| CsrSpec.RowPtrSteps | serial.c:144-149 | `row_ptr[0] == 0` when `num_rows > 0` (with no rows, the only slot is `num_vals`); `row_ptr[i + 1] == row_ptr[i] + occ[i]` for `i < num_rows - 1`; the last slot is `num_vals`; the last step equals `occ[num_rows - 1]` exactly when `num_vals` is the histogram total |
| CsrSpec.RowPtrMonotone | serial.c:144-149 | with a non-negative histogram and `num_vals` at least its total, `row_ptr` never decreases |
| CsrSpec.RowPtrCountsEarlierRows | serial.c:144-148 | `row_ptr[r]` is the number of triplets whose row is below `r + 1` (1-indexed) |
| CsrSpec.HistogramTotal | serial.c:135-141 | with every row in range, the histogram sums to the number of triplet lines |
| CsrSpec.RowPtrLastIsTotalIff | serial.c:149 | `row_ptr[num_rows]` is always `num_vals`, and it equals the histogram total if and only if `num_vals` is the triplet count |
| CsrSpec.RowPtrStepIsCount | serial.c:144-149 | when the triplet count is `num_vals`, `row_ptr[r + 1] - row_ptr[r]` is row `r`'s triplet count, the last row included |
| CsrSpec.CsrRowPtrShape | serial.c:144-149 | when the triplet count is `num_vals`: `row_ptr` starts at 0, ends at `num_vals`, and steps by each row's triplet count |
| CsrSpec.RowPtrIsOrderLength | serial.c:144-148 | `row_ptr[r]` is where row `r`'s segment of the placement starts |
| CsrSpec.RowPtrNextBounds | serial.c:144-149 | row `r`'s slot range reaches at least to the end of row `r`'s segment of the placement and never past `num_vals` (triplet count at most `num_vals`) |
| CsrBuild.ProbeFreeSlot | serial.c:166-169 | the probe returns the offset of the first `-1` at or after `row_ptr[row]`; every slot it skips holds a column |
| CsrSpec.ProbeStaysInRow | serial.c:162-171 | triplet `t`'s slot, `row_ptr[row]` plus the number of earlier triplets of its row, lies in `[row_ptr[row], row_ptr[row + 1])` and below `num_vals` |
| CsrSpec.SlotOfTriplet | serial.c:162-171 | triplet `t` sits at offset "earlier triplets of its row" of its row's segment of the placement |
| CsrSpec.EarlierSlots | serial.c:162-171 | the slots of `t`'s row segment before `t`'s own slot hold triplets read before `t` |
| CsrSpec.PlacementDistinct | serial.c:162-173 | no triplet is placed in two slots |
| CsrBuild.FilledAtStart | serial.c:156-158 | an all-sentinel `col_ind` is the pass-2 state before any triplet is read |
| CsrBuild.FirstFreeIsPlacementSlot | serial.c:162-171 | in any pass-2 state, the first `-1` at or after `row_ptr[row]` is the slot the placement gives triplet `t`; it lies inside the row's range and below `num_vals` |
| CsrBuild.PlacementSlot | serial.c:162-171 | triplet `t`'s target `row_ptr[row]` plus the number of earlier triplets of its row is a placement slot holding `t`, and the slots of the row before it hold earlier triplets |
| CsrBuild.FilledSlots | serial.c:167-169 | in the pass-2 state after `t` triplets, `t`'s placement slot still holds `-1`, and the earlier slots of its row hold columns (never `-1`) |
| CsrBuild.PlaceTriplet | serial.c:162-172 | one iteration of the second pass (probe, then write column and value) moves the pass-2 state from `t` placed triplets to `t + 1` |
| CsrBuild.FillStep | serial.c:170-171 | writing triplet `t`'s column and value into its slot moves the pass-2 state from `t` triplets to `t + 1` |
| CsrBuild.FilledAtEnd | serial.c:162-173 | after the last triplet, the pass-2 state is exactly the finished arrays: placed columns, then `-1` in the slots past the triplet count |
| CsrBuild.FillColumns | serial.c:155-173 | the sentinel fill plus the second pass produce, in newly allocated arrays, `col_ind` = the placed triplets' 0-indexed columns followed by `-1`s, and `values` = the placed values |
| CsrBuild.ReadMatrix | serial.c:113-180 | `read_matrix` returns three newly allocated arrays: `row_ptr == RowPtr(Histogram)`, `col_ind` and `values` in placement order, arrays of sizes `num_rows + 1`, `num_vals` and `num_vals` |
| CsrSpec.OrderPermutation | serial.c:162-173 | the placement of the first `t` triplets has length `t` and lists each of them |
| CsrSpec.OrderStablyOrdered | serial.c:162-173 | the placement is sorted by row, and equal rows keep file order |
| CsrSpec.PlacementIsStableSortByRow | serial.c:162-173 | pass 2 places the triplets as a stable sort by row: `|ts|` distinct positions, each triplet exactly once, rows ascending, ties in file order |
| CsrSpec.RowSegment | serial.c:162-173 | row `r`'s slice of the placement is the list of row `r`'s triplets in file order |
| CsrSpec.RowSegmentBounds | serial.c:144-173 | row `r`'s range `[row_ptr[r], row_ptr[r + 1])` is as long as row `r`'s entry list and lies inside `col_ind` |
| CsrSpec.SlotHoldsEntry | serial.c:162-173 | slot `row_ptr[r] + j` of `col_ind`/`values` holds entry `j` of row `r` |
| CsrSpec.RowSegmentHoldsRowEntries | serial.c:144-173 | slots `[row_ptr[r], row_ptr[r + 1])` hold row `r`'s entries `(column - 1, value)` in file order, not sorted by column |
| CsrSpec.NoSentinelRemains | serial.c:156-173 | with no column 0 on disk, no slot of the filled prefix of `col_ind` is `-1` |
| CsrSpec.FinishedColIndSentinels | serial.c:155-173 | with no column 0 on disk, a slot of the whole finished `col_ind` (length `num_vals`) is `-1` exactly when its index is at least the triplet count; so when the triplet count equals `num_vals`, no slot is `-1` |
| SpmvKernel.MatVecAt | serial.c:17-29 | row `i` of `A * x` is the sum of `values[k] * x[col_ind[k]]` over `[row_ptr[i], row_ptr[i + 1])` |
| SpmvKernel.SpmvCsr | serial.c:17-29 | `y[0..num_rows)` becomes `A * x` row by row; the rest of `y` is unchanged; only `y` is modified |
| Repetition.CopyBack | serial.c:86-89 | after the copy loop, `x` holds the old `y` and `y` is all zeros |
| Repetition.Iterate | serial.c:46-90 | into newly allocated `x` and `y`, after the initialisation and `num_repeat` repetitions, `x` is `A` applied `num_repeat` times to the all-ones vector and `y` is all zeros; a `num_repeat` of 0 or less leaves `x` all ones |
| Repetition.PowerAdditive | serial.c:82-90 | running `a + b` repetitions is running `b` repetitions on the result of `a` |
| Repetition.EmptyRowStaysZero | serial.c:82-90 | a row with an empty slot range holds 0 after every repetition |
| EndToEnd.BuiltMatrixFits | serial.c:17-29 | when the triplet count is `num_vals` and columns are in range, every row range of the built arrays can be read by `spmv_csr` |
| EndToEnd.RowProductIsEntriesDot | serial.c:23-25 | row `r` of the triplet product is the dot product over row `r`'s entries in file order |
| EndToEnd.DotOverEntries | serial.c:23-25 | a slot range holding a list of entries slot by slot has that list's dot product |
| EndToEnd.CsrProductMatchesTriplets | serial.c:17-29 | the arrays `read_matrix` builds multiply every vector exactly like the triplet list: row `r` sums `value * x[col - 1]` over row `r`'s triplets |
| EndToEnd.PowerMatchesTriplets | serial.c:82-90 | repeating the CSR product from the all-ones vector is repeating the triplet product |
| EndToEnd.Benchmark | serial.c:44-90 | `main` without printing and timing: newly allocated CSR arrays are the specified ones, and `x` ends as the triplet matrix applied `num_repeat` times to all ones |
| EndToEnd.SingleEntryProduct | serial.c:17-29 | a matrix whose only non-zero is `v` at `(i, j)`, applied to all ones, gives `v` in row `i` and 0 elsewhere |
| EndToEnd.DiagonalExampleArrays | serial.c:113-180 | the triplets `(1,1,3.0)` and `(2,2,4.0)` give `row_ptr = [0,1,2]`, `col_ind = [0,1]` and `values = [3.0,4.0]` |
| EndToEnd.DiagonalExampleRepetitions | serial.c:82-90 | with that matrix, one repetition gives `x = [3.0,4.0]` and two give `[9.0,16.0]` |

## Left out

- Command-line handling (serial.c:32-42): the argument count check and `atoi`. `numRepeat` is a parameter, and any integer is accepted. `print_mode` is not modelled.
- All printing (serial.c:53-78, 94-103) and timing with `clock()` (serial.c:81, 91-92). These are output only.
- File I/O (serial.c:114-121, 153, 160, 175). The header becomes the parameters `numRows`/`numVals`, and the triplet lines become `seq<Triplet>`. The file-open failure path is not modelled. `num_cols` is read but never used by the program, so it is not a parameter.
- `malloc`/`free` (serial.c:46-47, 105-107, 123-128, 150) become fresh Dafny arrays. The model drops every `free`, including `free(row_occurances)` at serial.c:150.
- IEEE `float` arithmetic (serial.c:19, 24). Values and sums are exact `real`s, so rounding and the order-dependence of float accumulation are not captured.
- 32-bit `int` overflow in the histogram and the running index. Dafny integers are unbounded.
- Malformed input is excluded by `requires` clauses, because the program has undefined behaviour there (out-of-bounds writes or an endless probe):
  - a row outside `[1, num_rows]` (serial.c:140, 167);
  - a column of 0 on disk, which would store the sentinel `-1` and derail later probes (serial.c:167-170); other columns, negative ones included, are accepted by the construction;
  - more triplet lines than `num_vals` (serial.c:167-171).

  Fewer triplet lines than `num_vals` is modelled: the trailing `col_ind` slots stay `-1`, and `values` is stated only for the filled prefix, since the program leaves the rest uninitialised.
- `SpmvKernel.SpmvCsr` requires `y` to be a different array from `x` and `values`, as it is in `main`. Aliased calls are not modelled.
- EndToEnd.Benchmark: requires the number of triplet lines to equal `num_vals`, although `ReadMatrix` accepts fewer. With fewer lines, the last row's range `[row_ptr[num_rows - 1], num_vals)` includes slots still holding `-1`, and `spmv_csr` would read `x[-1]` (serial.c:24).
- `EndToEnd.Benchmark` and `EndToEnd.PowerMatchesTriplets` require every column to be at most `num_rows`, because `x` has `num_rows` entries. A wider matrix would read outside `x` in the program.
