# Conway's Game of Life board and pattern explorer, in Dafny

This project models the repository's Game of Life engine and the brute-force
pattern explorer built on it.

- **`GOL` (gol.py)**: a `rows` x `columns` board of 0/1 cells.
  - `set_square` sets one cell.
  - `add_structure` stamps a small matrix onto the board, overwriting what is there.
  - `update_board` advances one generation under the B3/S23 rule, using the neighbour count of `_calculate_neighbours`. It records whether the new board is blank and whether any cell changed. The first update since construction or `reset` keeps a snapshot of the board it started from.
  - `reset` restores that snapshot.
  - `test` runs up to `rounds` updates and stops with failure at the first blank board or the first unchanged one, depending on its two switches.
- **Explorer (gol.py, gol_gen.py)**:
  - `generate_binary_grid(n)` ripple-increments a flat counter of `n * n` digits and records every intermediate count, cut row by row into an `n` x `n` matrix.
  - `test_list` trials each structure on its own fresh square board, stamped at the centre offset, and keeps those that pass, in order.
  - `test_iterations` does the same over all patterns of a given side.
  - gol_gen.py repeats these three functions. Its copies are the same code and are modelled by the same members.
- **gen_test.py**: the same counter without the reshape. It appends the counter list itself, so every entry of its result is one and the same list.

Files:

- `binary.dfy` (module `Binary`): least-significant-first digit sequences and the in-place ripple increment on an `array<int>`. The three generators share this increment.
- `life.dfy` (module `Life`): grids as `seq<seq<int>>`, the source's neighbour count with Python's negative indexing, the rule, the next generation `Step`, and stamping.
- `gol.dfy` (module `Gol`): the board's observable state as a value (`GameState`), with the transitions `update_board`, `reset` and `test` as functions.
  - These transitions are stated for any generation function. Their properties do not depend on the rule.
  - The class `GOL` performs the transitions in place, and each method is proved to produce exactly the transition's result.
- `explorer.dfy` (module `Explorer`): the patterns, the trials, `test_list` and `test_iterations`.
- `gen_test.dfy` (module `GenTest`): the aliasing counter and its copying counterpart.
- `seqs.dfy` (module `Seqs`): proof helpers, three facts about sequence concatenation.

The neighbour count follows the code rather than a symmetric Moore count.
- `x >= 0` is always true, so at column 0 the probe `board[y+1][x-1]` reads `board[y+1][-1]`. That is the last cell of the next row, and it is counted whenever that row exists.
- Every other out-of-grid probe either raises `IndexError`, which the source catches, or is rejected by its guard.
- The model therefore counts the in-grid Moore neighbours plus this one wrap term (`Life.Neighbours`). `Life.NeighboursMatchSource` proves that this equals the source's probe-by-probe count under Python indexing. `Life.WrapChangesTheCount` gives a 3 x 3 board where the wrap term decides whether a cell is born.
- The usual Game of Life count is symmetric and does not wrap; this code's count is not, and the model follows the code.

## Model

| member | source | states |
|---|---|---|
| `Life.EmptyGrid` | gol.py:21-23 | The initial board has `rows` rows of `columns` cells, holds only 0 and 1, and has no live cell. |
| `Gol.GOL.constructor` | gol.py:10-23 | A new board has `x` columns and `y` rows, all dead. It has not run, has no snapshot, counts iteration 0 and has no flags. |
| `Gol.GOL.SetSquare` | gol.py:25-27 | Cell (x, y) becomes 1 and every other cell keeps its value. |
| `Gol.GOL.AddStructure` | gol.py:29-40 | The board becomes the stamp of the old one. Each covered cell is 1 iff the structure entry is 1, and 0 otherwise (an overwrite, not an OR). Cells outside the footprint are unchanged. The dimensions are kept. |
| `Life.Stamp` | gol.py:34-40 | The board after stamping has the old board's shape. Each covered cell is 1 when the structure's entry is 1 and 0 otherwise; every other cell keeps its value. |
| `Life.StampBinary` | gol.py:34-40 | Stamping keeps a board of zeros and ones binary. |
| `Life.StampIdempotent` | gol.py:29-33 | Overwrite semantics: stamping a structure twice gives the same board as stamping it once. |
| `Life.StampOntoBlank` | gol.py:34-40 | Stamped onto a blank board, the result is blank iff no entry of the structure is 1. |
| `Life.PyIndex` | gol.py:124-125 | A Python list lookup succeeds exactly for indices from `-len` to `len - 1`. |
| `Life.SourceNeighbours` | gol.py:121-163 | The eight probes in the source's order, with Python indexing and the source's guards. A lookup that raises `IndexError` counts 0. The total is at most 8. |
| `Life.NeighboursMatchSource` | gol.py:121-163 | For every cell, the eight guarded probes with Python indexing count exactly the live in-grid Moore neighbours plus the column-0 wrap term. |
| `Life.NeighboursClean` | gol.py:153-157 | Away from column 0, and on the last row, the source's count is the plain in-grid Moore count. |
| `Life.NeighboursBound` | gol.py:121-163 | The source's count is between 0 and 8, and at most 6 at column 0. |
| `Life.WrapChangesTheCount` | gol.py:154-155 | On a 3 x 3 horizontal blinker, the top-left cell counts 3 neighbours instead of 2 and is born, where the in-grid count would leave it dead. |
| `Life.Rule` | gol.py:80-93 | The new cell is 0 or 1. It is 1 iff the cell is alive with 2 or 3 neighbours, or dead with exactly 3. A cell that matches no branch stays 0. |
| `Life.Step` | gol.py:68-93 | The next generation, rebuilt row by row and cell by cell: each cell is `Rule` of the old cell and of its neighbour count on the old board. It has as many rows as the old board. |
| `Life.StepCell` | gol.py:74-93 | Each cell of the next generation is computed from the old board only, by the rule applied to the source's neighbour count. |
| `Life.StepShape` | gol.py:71-72 | The next generation has the shape of the old board. |
| `Life.StepBinary` | gol.py:71-93 | The next generation holds only 0 and 1. |
| `Life.StepOfBlank` | gol.py:80-93 | A blank board stays blank, and a blank binary board does not change. |
| `Gol.GOL.NextGeneration` | gol.py:68-93 | The nested loops build exactly `Step(board)`, a `rows` x `columns` binary grid. `blank` holds iff the new grid has no live cell. `changed` holds iff some cell differs from the old board. |
| `Gol.GOL.UpdateCell` | gol.py:76-93 | One cell's branches write that cell's next-generation value into the new grid. They clear `blank` iff the new cell is alive, and set `changed` iff the cell flips. |
| `Gol.GOL.UpdateBoard` | gol.py:64-105 | The state becomes `AfterUpdate(Step, old state)`: the next generation, a snapshot of the old board when the board had not run, the iteration plus 1, both flags, and the run flag set. |
| `Gol.AfterUpdate` | gol.py:64-105 | `update_board` as a transition: the board becomes the next generation and the run flag is set. The snapshot is the old board when the board had not run, and is kept otherwise. The iteration grows by 1, and both flags are recorded. |
| `Gol.AfterUpdatesState` | gol.py:64-105 | After n updates the board is the n-th generation and the iteration has grown by exactly n. A snapshot taken earlier is kept, and the board has run when n >= 1. |
| `Gol.ResetAfterUpdates` | gol.py:64-109 | After any n >= 1 updates from a board that had not run, `reset` restores exactly the board before the first update and clears the run flag. The iteration is not reset. |
| `Gol.GOL.Reset` | gol.py:107-109 | The board becomes the snapshot and the run flag is cleared. Nothing else changes. |
| `Gol.AfterReset` | gol.py:107-109 | `reset` as a transition: the board becomes the snapshot and the run flag is cleared. The snapshot and the iteration are kept. |
| `Gol.ResetIdempotent` | gol.py:107-109 | Resetting twice gives the same state as resetting once. |
| `Gol.GOL.Test` | gol.py:165-175 | The result and the final state are those of `Trial(Step, old state, rounds, ...)`. |
| `Gol.Trial` | gol.py:165-175 | `test` as a transition: at most `rounds` updates. A passing trial performs exactly `rounds` of them; a failing one performs at least one and leaves a board that has run. |
| `Gol.TrialPassed` | gol.py:165-175 | A trial returns True exactly when none of its steps fails, so `rounds == 0` passes. |
| `Gol.TrialFinal` | gol.py:165-175 | A trial leaves the state of exactly the updates it performed: all `rounds` of them if it passes, and up to and including the first failing one otherwise. |
| `Gol.PassesIff` | gol.py:167-174 | Passing is equivalent to no failing step among the first `rounds` generations. |
| `Gol.StepsTakenOfPass` | gol.py:167-175 | A passing trial performs exactly `rounds` updates. |
| `Gol.StepsTakenFirstFailure` | gol.py:167-174 | A failing trial performs between 1 and `rounds` updates. It stops right after a failing step, and no earlier step fails. |
| `Gol.FailsByFlags` | gol.py:169-173 | A step fails exactly when `failisblank` holds and the update records a blank board, or `failnochange` holds and it records no change. |
| `Gol.BlankFails` | gol.py:169-171 | A blank board fails any trial of at least one round that fails blank boards, after exactly one update. |
| `Binary.Increment` | gol.py:228-236 | One pass of the ripple carry adds exactly one to the counter's value and leaves every digit 0 or 1. The counter must not already hold all ones. |
| `Binary.CarryStaysInside` | gen_test.py:13-15 | While the counter stays below `2^len`, a digit that reached 2 is never the last one, so `grid[index+1]` stays in range. |
| `Binary.CarryKeepsValue` | gol_gen.py:56-58 | Turning a 2 into 0 and carrying one into the next digit keeps the counter's value. |
| `Binary.ValueOfDigits` | gol_gen.py:51-60 | Reading back the `len`-digit expansion of any k below `2^len` gives k. |
| `Binary.DigitsOfValue` | gen_test.py:9-17 | Any 0/1 sequence is the expansion of its value, and that value lies in `[0, 2^len)`. |
| `Binary.DigitAt` | gol.py:225-237 | Digit i of the expansion of k is bit i of k, `(k / 2^i) % 2`. |
| `Binary.DigitsInjective` | gol_gen.py:51-62 | Two numbers below `2^len` have equal expansions iff they are equal. |
| `Binary.DigitsHaveOne` | gol.py:227-236 | The `len`-digit expansion of a positive number below `2^len` has a 1 digit. |
| `Binary.DigitsAllOnes` | gen_test.py:8-20 | The largest count, `2^len - 1`, is written with ones only. |
| `Binary.DigitsOfZero` | gol.py:225 | The initial all-zero counter is the expansion of 0. |
| `Explorer.ReshapeInjective` | gol_gen.py:61 | Cutting a flat counter into rows loses nothing: two counters give the same matrix iff they are equal. |
| `Explorer.Reshape` | gol.py:237 | The flat counter cut into `n` rows of `n` cells, as the slices `grid[i:i+n]` for `i = 0, n, 2n, ...` do. |
| `Explorer.GenerateBinaryGrid` | gol.py:218-239 | The result is exactly `AllPatterns(n)`: `2^(n*n) - 1` matrices, entry k holding the digits of k + 1 row by row. It is empty for n = 0. |
| `Explorer.PatternCell` | gol.py:225-237 | Cell (r, c) of entry k is bit `r * n + c` of k + 1: flat index 0 is the least significant bit, and the reshape is row-major. |
| `Explorer.PatternsShape` | gol_gen.py:61-62 | Every entry is `n` rows of `n` cells, each 0 or 1. |
| `Explorer.PatternsDistinct` | gol_gen.py:51-62 | Two entries are equal iff they are at the same position. |
| `Explorer.PatternsNotBlank` | gol.py:227-237 | No entry is all zeros. |
| `Explorer.LastPatternAllOnes` | gol_gen.py:49-62 | For n >= 1 the last entry is the all-ones matrix. |
| `Explorer.Survivors` | gol.py:203-210 | The kept structures are no more than the input, and each is a structure of the input whose trial passes. |
| `Explorer.SurvivorsAppend` | gol_gen.py:27-34 | Filtering a concatenation filters each part in turn, so the input order is preserved. |
| `Explorer.SurvivorsComplete` | gol_gen.py:28-33 | Every structure of the input whose trial passes is kept. |
| `Explorer.DeadStructureFails` | gol.py:187-193 | A structure without a live cell never survives a trial of at least one round that fails blank boards. |
| `Explorer.PatternsCentred` | gol_gen.py:13-15 | Every pattern of side n fits the centre footprint of a board of side g when `g / 2 + n <= g`. |
| `Explorer.TrialStructure` | gol_gen.py:29-31 | A fresh board of side `gridsize` with the structure stamped at `(gridsize / 2, gridsize / 2)`, then `test`, returns exactly whether the structure survives. Trials share no state. |
| `Explorer.TestList` | gol.py:197-210 | The result is the subsequence of the input whose trials pass, in input order. |
| `Explorer.TestIterations` | gol.py:179-194 | The result is `test_list` applied to `generate_binary_grid(structuresize)`: the survivors among all patterns, in counting order. |
| `GenTest.GenerateAliased` | gen_test.py:3-20 | As written: the result has `2^(n*n) - 1` entries, all of them the same array, and on return that array holds all ones. |
| `GenTest.GenerateCopies` | gen_test.py:6-17 | Corrected: entry k is a copy of the counter after its (k+1)-th increment, the digits of k + 1. |
| `GenTest.FlatPatternsDistinct` | gen_test.py:9-17 | The copied entries are pairwise distinct, and none is all zeros. |
| `GenTest.AliasingLosesFirstPattern` | gen_test.py:18-19 | From side 2 on, the first aliased entry (all ones) is not the count 1 that belongs there. |

## Left out

- The curses rendering and playback (`initilize_screen`, `end_screen`, `print_board`, `run`, the `stdscr` field) and the `time.sleep` pacing: terminal I/O and wall-clock time.
- `rotate_structure`: its body is empty, so it has no behaviour to state.
- The unused `import pickle` in gol_gen.py.
- `IndexError` as control flow in `_calculate_neighbours`. It is modelled as an explicit lookup (`Life.PyIndex`) that yields nothing where Python would raise.
- `Gol.GOL.SetSquare`: requires the cell to lie inside the grid. The source raises `IndexError` for a cell outside it, or wraps for a negative index.
- `Gol.GOL.AddStructure`: requires the offsets to be natural and every row of the structure, empty rows included, to lie inside the grid. Outside that case the source behaves in three other ways, none of them modelled. A negative offset wraps as Python indexing does: `add_structure([[1]], -1, -1)` writes the bottom-right cell and raises nothing. An empty structure row that lies past the grid is skipped, because the inner loop never indexes it. Otherwise, the source writes the cells before the first one outside the grid and then raises `IndexError`.
- `Gol.GOL.Reset`: requires a recorded snapshot. Before the first `update_board` the source would set the board to `None`.
- Object identity between `board` and `original_board`: the snapshot is a value. In the source, a `set_square` or `add_structure` between `reset` and the next update also changes the snapshot list.
- `int(gridsize / 2)` computes through floating point. It is modelled as `gridSize / 2` on naturals, which gives the same result for every non-negative size that a float represents exactly.
- The `new_board` field is a local of the update in the model. The source sets it back to `None` at the end of every update, so it is never observable between calls.
- The loops of `update_board` are split across `Gol.GOL.UpdateBoard`, `Gol.GOL.NextGeneration` (the two nested loops) and `Gol.GOL.UpdateCell` (the body of the inner loop). The split keeps the proof of each small; the order of writes and the flag updates are those of the source.
- The state transitions in module `Gol` take the generation function as a parameter; the board object always passes `Step`.
- `Explorer.TestList`: every row of every structure, empty rows included, must lie inside the board when stamped at the centre offset. The source also accepts a structure whose extra rows are empty, such as `[[1], [], []]` on a board of side 2, because `add_structure` skips empty rows past the grid; that case is outside the model. A structure with a cell outside the board makes the source raise `IndexError` part-way through `add_structure`.
- `Explorer.TestIterations`: requires the patterns to fit the centre footprint, `gridsize / 2 + structuresize <= gridsize`, for the same reason.
- `Gol.GOL.constructor`: takes natural dimensions. With a negative `x` the source builds `y` empty rows and records the negative column count, and every later update keeps that shape; this case is outside the model.
- `Gol.GOL.Test`: takes a natural round count. With a negative `rounds` the source performs no update and returns True, as for 0; this case is outside the model.
- `Explorer.GenerateBinaryGrid`: takes a natural side. With a negative side `-m` the source counts through `m * m` digits, but `range(0, m * m, -m)` is empty, so every entry is an empty matrix; this case is outside the model.
- `Explorer.TestList`: takes a natural board side and round count. Negative values, which the source passes on to `GOL` and `test`, are outside the model, as above.
- `GenTest.GenerateAliased`: takes a natural side. The source only uses the side squared, so a negative side `-m` behaves as `m`; the model does not state that case.
- `GenTest.GenerateCopies`: takes a natural side, for the same reason.
- `Explorer.TestIterations` calls `Explorer.TestList` instead of repeating its loop: the two loops in the source are identical.

## Findings

| source | as written | input that shows it | evidently intended | confidence | as-written member | corrected member |
|---|---|---|---|---|---|---|
| gen_test.py:18-19 | `new_grid = grid` appends the counter list itself, so every entry is the same list, and after the last increment every entry reads all ones | `generate_binary_grid(2)`: 15 entries, each `[1, 1, 1, 1]`, where entry 0 should be `[1, 0, 0, 0]` | a copy of the counter per entry, the counts 1 .. 2^(n*n) - 1 (as the slicing in gol.py:237 does) | not executed; follows from the aliasing semantics of Python lists | `GenTest.GenerateAliased`, `GenTest.AliasingLosesFirstPattern` | `GenTest.GenerateCopies`, `GenTest.FlatPatternsDistinct` |
