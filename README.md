# SudokLite solver core in Dafny

This project models `sudok_solver.hpp`, the header that makes up the whole
SudokLite engine, and proves properties of that model. The engine is a 9×9
Sudoku solver that works on bits, in four layers:

- **Cells** (`cells.dfy`, with bit helpers in `bits.dfy`).
  - A cell is a 16-bit state. Bit 0 is the "confirmed" flag and bits 1–9 are the candidate digits.
  - The queries `isConfirmed`, `possibleMask`, `isValid` and `getConfirmedValue` are functions of
    `SudokuCell(state: bv16)`.
  - `popcount16` and `get_power_of_two_runtime` become `Bits.Popcount` and `Bits.PowerOfTwoIndex`.
  - The search's `mask & -mask` becomes `Bits.LowestSetBit`.
- **Board** (`groups.dfy`, `grids.dfy`, `deduction.dfy`, `board.dfy`).
  - The 81 cells are kept in row-major order.
  - `get_row`, `get_col` and `get_box` become the index lists `Groups.Row`, `Groups.Col` and `Groups.Box`.
  - The board is the class `Boards.Board`, whose `cells` array the methods update in place, as the C++
    struct does.
  - Each method is proved equal to a function on the sequence of cells, and the properties are lemmas
    about those functions. For example, `deduce_group` is specified by `Deduction.DeducedGroup` and
    `deduce_full` by `Deduction.DeducedFull`.
- **Search** (`solver.dfy`).
  - `solve` is an iterative backtracking search. It runs over an array of 81 `Frame`s with a `top`
    index.
  - A ghost copy of the frames and of each frame's count of untried candidates carries the stack
    invariant.
  - Termination is proved with a measure: the counts read as base-10 digits, bottom frame most
    significant.
- **Entry point** (`api.dfy`).
  - `sudoku_solver(puzzle, size)` becomes `Api.SudokuSolver`.
  - It returns a `Status`. `Api.Message` maps each status to the exact string the C++ returns.

Central notions:

- `Narrows(a, b)`: a cell is unchanged, or it was open and is now a valid, clean state whose
  candidates are a subset of the old ones. Every write that deduction and guessing make is such a
  step, and `GridNarrows` lifts the notion to whole boards.
- `Admits(s, sol)`: every cell of board `s` still allows the digit that solution `sol` puts there.
  Deduction keeps every solution a board admits.
- `UnitOk` / `UnitsOk`: what `check_unit` / `check_initial_valid` test. `Grids.UnitsOkIff` relates them
  to a reference definition over cell pairs (`NoClash`).

A few behaviours of the code are modelled as written:

- `deduce_group` returns `false` both for "no change" and for "a cell's mask became empty". The emptied
  cell is not written, and earlier cells of the group keep their new states.
- Every state the code writes passes `isValid`. So `deduce_full` never fails on a board of valid cells
  (`Deduction.FullKeepsValid`), and `inner_solve`'s `-2` cannot occur from a loaded board.
- `getConfirmedValue` returns `-1`, not `0`, for state `1`: the mask is 0, it passes the single-bit
  test, and `get_power_of_two_runtime(0)` is `-1` (`Cells.ConfirmedValueSpec`).
- In `solve`:
  - the solved return comes before the duplicate check;
  - a failed duplicate check pops the whole frame, untried candidates included;
  - `res == -2` stays on the same frame.

## Model

| member | source | states |
|---|---|---|
| Bits.PowerOfTwoIndexSpec | sudok_solver.hpp:205-216 | the result is -1 exactly when the word does not have exactly one bit set; otherwise the word is `1 << result` with the result in 0..15 |
| Bits.PowerOfTwoIndexOfShift | sudok_solver.hpp:205-216 | the index of `1 << d` is d |
| Bits.PopcountZero | sudok_solver.hpp:221-233 | the bit count is 0 exactly for the zero word |
| Bits.PopcountOne | sudok_solver.hpp:221-233 | a nonzero word has a bit count of 1 exactly when it has a single bit |
| Bits.PopcountSubMask | sudok_solver.hpp:221-233 | a sub-mask has no more bits than the mask, and strictly fewer when it differs |
| Bits.PopcountAtMostNine | sudok_solver.hpp:221-233 | a candidate mask has at most nine bits |
| Bits.PopcountRemove | sudok_solver.hpp:221-233 | clearing one set bit lowers the count by exactly one |
| Bits.LowestSetBitSpec | sudok_solver.hpp:469 | `mask & -mask` of a nonzero mask is a single bit, lies inside the mask, and no lower bit of the mask is set |
| Bits.LowestSetBitRemove | sudok_solver.hpp:469-470 | `remaining ^= pick` leaves a sub-mask with exactly one bit fewer |
| Cells.IsValidSpec | sudok_solver.hpp:254-260 | isValid is false exactly for state 0, state 1, and confirmed states with two or more candidate bits |
| Cells.ConfirmedValueSpec | sudok_solver.hpp:262-267 | getConfirmedValue is 0 for open cells and for confirmed multi-bit cells, -1 for a confirmed cell with no bits, and d with mask `1 << d` (d in 1..9) for a single bit |
| Cells.ConfirmedDigit | sudok_solver.hpp:262-267 | a valid, confirmed cell with no stray high bits reads back as a digit 1..9 |
| Cells.GivenCell | sudok_solver.hpp:374-382 | a buffer value v in 1..9 loads as a valid confirmed cell with mask `1 << v` that reads back as v |
| Cells.BlankCell | sudok_solver.hpp:374-382 | any other value loads as a valid open cell with all nine candidates |
| Cells.FromCharSpec | sudok_solver.hpp:364-372 | load treats '1'..'9' as the digits 1..9 and every other character as a blank, as load_int8_t does |
| Cells.GivenOverlap | sudok_solver.hpp:414-424 | two given digits share a candidate bit exactly when they are equal |
| Cells.ClashComm | sudok_solver.hpp:414-424 | the duplicate relation between two confirmed cells is symmetric |
| Cells.NarrowsTrans | sudok_solver.hpp:314-327 | narrowing steps compose |
| Cells.NarrowsKeeps | sudok_solver.hpp:314-327 | a narrowing step keeps validity and cleanliness, never rewrites a confirmed cell, and only removes candidates |
| Cells.NarrowsWeight | sudok_solver.hpp:314-327 | a narrowing step never raises candidate count plus openness |
| Cells.ActNarrows | sudok_solver.hpp:315-325 | the write deduce_group makes to an open cell is a narrowing step that strictly lowers candidates plus openness; a promotion writes `mask \| 1`, a confirmed cell whose candidate is exactly mask |
| Cells.ActConfirmNarrows | sudok_solver.hpp:318-321 | a promotion writes `mask \| 1`: a narrowing step to a confirmed cell whose candidate is exactly the new mask, with strictly lower weight |
| Cells.ActShrinkNarrows | sudok_solver.hpp:322-325 | a shrink writes the new mask: a narrowing step with strictly lower weight |
| Cells.ActShape | sudok_solver.hpp:316-323 | a shrunk cell stays open, and a promoted bit lies outside confirmedMask |
| Cells.Guess | sudok_solver.hpp:473 | writing `pick \| 1` for a single candidate bit of an open cell is a narrowing step that confirms that bit |
| Cells.ActAdmits | sudok_solver.hpp:315-325 | if a cell allows a digit that confirmedMask does not hold, deduce_group does not empty it, promotes only to that digit, and the new state still allows it |
| Cells.GuessAdmits | sudok_solver.hpp:473 | the guessed cell allows a digit exactly when the pick is that digit's bit |
| Groups.Row | sudok_solver.hpp:284-289 | get_row yields nine distinct indices below 81 |
| Groups.RowSpec | sudok_solver.hpp:280-289 | the j-th cell of row r is r*9+j |
| Groups.Col | sudok_solver.hpp:291-296 | get_col yields nine distinct indices below 81 |
| Groups.ColSpec | sudok_solver.hpp:280-296 | the j-th cell of column c is j*9+c |
| Groups.Box | sudok_solver.hpp:298-306 | get_box yields nine distinct indices below 81 |
| Groups.BoxSpec | sudok_solver.hpp:298-306 | the j-th cell of box b lies in box b, at row offset j/3 and column offset j%3 of the box |
| Groups.RowPlace | sudok_solver.hpp:280-289 | every cell a is in row a/9, at position a%9 |
| Groups.ColPlace | sudok_solver.hpp:280-296 | every cell a is in column a%9, at position a/9 |
| Groups.BoxPlace | sudok_solver.hpp:298-306 | every cell a is in the box numbered BoxOf(a) |
| Groups.UnitOf | sudok_solver.hpp:280-306 | two distinct cells that share a row, a column or a box are two distinct positions of one of the 27 unit lists |
| Grids.GridNarrowsKeeps | sudok_solver.hpp:314-327 | a narrowed board keeps validity, cleanliness and every confirmed cell |
| Grids.PotentialUpdate | sudok_solver.hpp:341-346 | rewriting one cell changes the board's termination measure by the change in that cell's weight |
| Grids.ConfirmedCountUpdate | sudok_solver.hpp:473 | confirming an open cell adds exactly one confirmed cell |
| Grids.ConfirmedCountNarrows | sudok_solver.hpp:314-327 | narrowing never lowers the number of confirmed cells |
| Grids.ConfirmedCountAll | sudok_solver.hpp:348-352 | at most 81 cells are confirmed, and all 81 exactly when is_solved holds |
| Grids.ConfirmedUnionDisjoint | sudok_solver.hpp:309-312 | the union of the confirmed masks misses a bit set exactly when every confirmed cell misses it |
| Grids.UnitOkStep | sudok_solver.hpp:416-421 | one step of check_unit: a clean prefix stays clean with the next cell exactly when that cell, if confirmed, misses the bits confirmed so far |
| Grids.UnitsOkIff | sudok_solver.hpp:405-424 | the 27 unit checks pass exactly when no two distinct cells sharing a row, column or box are confirmed with a common bit |
| Grids.AdmitsAllValid | sudok_solver.hpp:254-260 | a board that still allows some solution has only valid cells |
| Grids.AdmitsSolved | sudok_solver.hpp:348-352 | a completed board that allows a solution reads back as that solution |
| Grids.LoadedGridSpec | sudok_solver.hpp:374-382 | a loaded board is valid and clean, its confirmed cells are exactly the entries in 1..9, and each reads back as its entry |
| Grids.LoadedUnitsOk | sudok_solver.hpp:405-424 | a loaded board passes check_initial_valid exactly when no digit is given twice in a row, column or box |
| Grids.FewestChoicesUnique | sudok_solver.hpp:389-402 | at most one index is the first open cell with the fewest candidates, so inner_solve's target is determined by the board |
| Deduction.DeducedGroupSpec | sudok_solver.hpp:308-329 | deduce_group only narrows cells, never touches a cell outside the group, never raises the measure, and strictly lowers it when it reports a change |
| Deduction.GroupFromNarrows | sudok_solver.hpp:314-327 | every write in the second loop is a narrowing step |
| Deduction.GroupFromOutside | sudok_solver.hpp:314-327 | the second loop writes only cells of the group |
| Deduction.ConfirmedUnionCovers | sudok_solver.hpp:309-312 | the first loop's mask holds the bits of every confirmed cell of the group |
| Deduction.GroupFromUnitOk | sudok_solver.hpp:314-327 | while confirmedMask covers the group's confirmed cells, the group keeps having no duplicate |
| Deduction.DeducedGroupUnitOk | sudok_solver.hpp:308-329 | a group that passes check_unit still passes it after deduce_group |
| Deduction.DeducedGroupAdmits | sudok_solver.hpp:308-329 | deduce_group keeps every solution the board allows |
| Deduction.SweepAdmits | sudok_solver.hpp:333-337 | one row, column and box pass keeps every solution the board allows |
| Deduction.OnceNarrows | sudok_solver.hpp:331-339 | deduce_once only narrows cells |
| Deduction.OncePotential | sudok_solver.hpp:331-339 | deduce_once never raises the measure, and strictly lowers it when it reports a change, so deduce_full terminates |
| Deduction.FullNarrows | sudok_solver.hpp:341-346 | deduce_full only narrows cells |
| Deduction.FullFlag | sudok_solver.hpp:341-346 | deduce_full succeeds exactly when every cell of its result is valid |
| Deduction.FullKeepsValid | sudok_solver.hpp:341-346 | from a board of valid cells, deduce_full always succeeds |
| Deduction.FullAdmits | sudok_solver.hpp:341-346 | deduce_full keeps every solution the board allows |
| Deduction.FullSolves | sudok_solver.hpp:341-346 | if deduce_full completes a board that allows a solution, the result is that solution |
| Deduction.GroupFromConfirmed | sudok_solver.hpp:314-327 | on a board whose every cell is confirmed, the second loop writes nothing and keeps the changed flag |
| Deduction.SweepConfirmed | sudok_solver.hpp:333-337 | on an all-confirmed board, one row, column and box pass changes nothing and reports no change |
| Deduction.OnceConfirmed | sudok_solver.hpp:331-339 | on an all-confirmed board, the remaining iterations of deduce_once change nothing and leave the changed flag as it was |
| Deduction.FullConfirmed | sudok_solver.hpp:341-346 | on an all-confirmed board, deduce_full leaves the board as it is and succeeds exactly when every cell is valid |
| Boards.Board.constructor | sudok_solver.hpp:505 | `Board board{}` has every state zero |
| Boards.Board.Copy | sudok_solver.hpp:472 | the copy holds the given board |
| Boards.Board.Assign | sudok_solver.hpp:477 | after `root = next`, root holds next's cells |
| Boards.Board.ConfirmedBits | sudok_solver.hpp:309-312 | the first loop computes bit 0 plus the union of the group's confirmed masks |
| Boards.Board.DeduceGroup | sudok_solver.hpp:308-329 | the new cells and the flag are DeducedGroup of the old cells |
| Boards.Board.DeduceOnce | sudok_solver.hpp:331-339 | the new cells and the flag are DeducedOnce of the old cells |
| Boards.Board.DeduceFull | sudok_solver.hpp:341-346 | the new cells and the flag are DeducedFull of the old cells |
| Boards.Board.AllCellsValid | sudok_solver.hpp:344 | true exactly when every cell passes isValid |
| Boards.Board.IsSolved | sudok_solver.hpp:348-352 | true exactly when every cell is confirmed |
| Boards.Board.Load | sudok_solver.hpp:364-372 | cell i becomes the cell of character i |
| Boards.Board.LoadInt8 | sudok_solver.hpp:374-382 | the cells become the loaded board of the first 81 buffer entries |
| Boards.Board.InnerSolve | sudok_solver.hpp:384-403 | the board is propagated; the result is -2 exactly when propagation fails, -1 exactly when it succeeds and every cell is confirmed, and otherwise the first open cell with the fewest candidates |
| Boards.Board.FewestChoicesIndex | sudok_solver.hpp:389-402 | -2 exactly when every cell is confirmed; otherwise an open cell with no open cell having fewer candidates and none before it having as few |
| Boards.Board.CheckUnit | sudok_solver.hpp:414-424 | true exactly when no two confirmed cells of the group share a bit |
| Boards.Board.CheckInitialValid | sudok_solver.hpp:405-412 | true exactly when every row, column and box passes check_unit |
| Solver.StackLower | sudok_solver.hpp:461-470 | taking the lowest bit of a nonzero remaining mask picks a single candidate of the target cell and keeps the stack invariant, with one untried candidate fewer |
| Solver.StackPush | sudok_solver.hpp:486-489 | a pushed frame keeps the stack invariant, and the stack had fewer than 81 frames, so top stays within 0..80 |
| Solver.StackPop | sudok_solver.hpp:463-465 | popping the top frame keeps the stack invariant |
| Solver.ChildNarrows | sudok_solver.hpp:472-475 | the propagated guess narrows the search's starting board and confirms more cells than the frame's depth |
| Solver.PushedFrame | sudok_solver.hpp:486-489 | a frame whose target is chosen by inner_solve targets an open cell whose candidates are its untried set |
| Solver.StackWeightLower | sudok_solver.hpp:469-470 | removing an untried candidate lowers the termination measure |
| Solver.StackWeightLowerPush | sudok_solver.hpp:470-489 | removing a candidate and then pushing a frame with at most nine candidates lowers the measure |
| Solver.StackWeightPop | sudok_solver.hpp:463-465 | popping a frame does not raise the measure |
| Solver.StackWeightLowered | sudok_solver.hpp:469-470 | taking one from the top frame's count lowers the measure by exactly the place value of that frame |
| Solver.StackWeightBump | sudok_solver.hpp:469-470 | raising the last count by one raises the measure by exactly that position's place value |
| Solver.StackWeightTopBound | sudok_solver.hpp:486-489 | a pushed frame with at most nine candidates adds at most nine times its place value |
| Solver.Expand | sudok_solver.hpp:472-475 | the new board is `DeducedFull` of the frame's board with `pick \| 1` at the target; -2 exactly when that propagation fails, -1 exactly when it succeeds with every cell confirmed (and then every cell is valid), otherwise the first open cell with the fewest candidates; the board narrows the starting board and has more confirmed cells than the frame's depth |
| Solver.SetTop | sudok_solver.hpp:470 | the top frame is replaced and nothing else changes |
| Solver.PushTop | sudok_solver.hpp:486-489 | a frame is written just above the top |
| Solver.Step | sudok_solver.hpp:459-490 | an empty `remaining_mask` pops the frame without solving; otherwise the iteration guesses the lowest untried bit, with the outcome `GuessOutcome` describes; so the iteration is exactly one `Moves` step when it does not solve, and a `Solves` step with the new root when it does; when it does not solve, the stack invariant holds, root is untouched, and the measure drops or stays equal with `top` lower |
| Solver.Lower | sudok_solver.hpp:468-489 | on a frame with untried candidates, the iteration guesses exactly the lowest untried bit (`GuessOutcome` of `mask & -mask`); when it does not solve, the stack invariant holds and the measure strictly drops |
| Solver.Advance | sudok_solver.hpp:470-489 | with the top frame minus the picked bit, the guess ends as `GuessOutcome` says: solved exactly when propagating the guess succeeds with every cell confirmed, root then being that board; otherwise the stack moves as `Settled` says, with the invariant kept and the measure lower |
| Solver.Conclude | sudok_solver.hpp:476-489 | given the propagation result r of the guess, solved exactly when r succeeds with every cell confirmed, root then holding r's board; otherwise `Settled` on r, with the invariant kept and the measure lower |
| Solver.SettledFrom | sudok_solver.hpp:480-489 | the three moves Settle makes, with -2 meaning that propagation failed and any index being the fewest-choices cell, are the move `Settled` prescribes |
| Solver.SettledUnique | sudok_solver.hpp:480-489 | `Settled` determines the new top and the new frames from the board and the propagation flag |
| Solver.MovesUnique | sudok_solver.hpp:459-489 | the stack after a non-solving iteration is determined by the stack before it |
| Solver.MovesNotSolves | sudok_solver.hpp:476-479 | an iteration that moves the stack does not solve, so the two outcomes exclude each other |
| Solver.RunUnique | sudok_solver.hpp:459-490 | two runs of the loop from the same stack agree for as long as both last: the loop is deterministic |
| Solver.ChainUnique | sudok_solver.hpp:459-490 | chains of a deterministic step relation from the same start agree on their common length |
| Solver.ChainExtend | sudok_solver.hpp:459-490 | a chain followed by one more step is a chain |
| Solver.Settle | sudok_solver.hpp:480-489 | a failed duplicate check pops the frame (frames become `frames[..top]`); otherwise -2 leaves the stack as it is; otherwise the frame `(next, next[res].possibleMask(), res)` is pushed on top; in each case the invariant holds and the measure is below the one before the pick |
| Solver.Search | sudok_solver.hpp:455-492 | the loop terminates; the ghost run it returns starts from the single frame of the root's fewest-choices cell, each stack in it follows from the one before by one non-solving iteration (`Moves`), and it ends either with `top` at -1 and false, or with true and root holding the board the last iteration's guess propagated to (`Solves`), which is complete, valid and narrows the start; on false root is unchanged |
| Solver.Solve | sudok_solver.hpp:446-493 | true leaves root complete, valid and narrowing the starting board, and only happens when propagating the root succeeds; when that propagation alone completes the board, solve returns true with exactly that board; false leaves root propagated by deduce_full; when propagation succeeds without completing the board, the result and the final root are those of the run of loop iterations from the propagated root, as in Search; all three cases together are `SolveOutcome` of the starting board |
| Api.SolvedReadback | sudok_solver.hpp:514-517 | a completed board grown from the loaded puzzle reads back as digits 1..9 and keeps every given |
| Api.WriteBack | sudok_solver.hpp:515-517 | entries 0..80 become the board's digits, each in 1..9, the givens are unchanged, and entries past 80 are untouched |
| Api.SolveLoaded | sudok_solver.hpp:511-520 | after loading: "Invalid puzzle" exactly when a digit is given twice in a unit; otherwise "Solved" exactly when solve on the loaded board succeeds (`SolveOutcome` of the loaded board, with the ghost run and final board), and on "Solved" the buffer reads back getConfirmedValue of that final board, digits 1..9 with the givens kept; any other status leaves the buffer alone; a fully given, duplicate-free puzzle comes back "Solved" with the buffer unchanged |
| Api.SolveChecked | sudok_solver.hpp:514-520 | "Solved" exactly when solve on the loaded board succeeds (`SolveOutcome`), the buffer then reading back getConfirmedValue of the board solve left, digits 1..9 with the givens kept; "No solution found" leaves the buffer alone; a fully given puzzle is "Solved" and unchanged |
| Api.Report | sudok_solver.hpp:514-520 | "Solved" exactly when solve returned true, and then entry i of the buffer is getConfirmedValue of cell i of the board, a digit 1..9, with the givens and the tail kept; "No solution found" leaves the buffer alone; a fully given puzzle is written back unchanged |
| Api.GivenGridFixed | sudok_solver.hpp:384-386 | a fully given puzzle loads as a complete board that deduce_full leaves as it is and reports as valid, so inner_solve returns -1 at once |
| Api.SameBuffer | sudok_solver.hpp:514-517 | a write-back that keeps every given and the tail leaves a fully given buffer as it was |
| Api.SudokuSolver | sudok_solver.hpp:501-521 | "Invalid size" exactly when size is not 81; the size-mismatch text is never returned; with size 81, "Invalid puzzle" exactly when a digit is given twice in a unit, and otherwise "Solved" exactly when solve on the loaded board succeeds (`SolveOutcome`: propagation refutes, completes, or hands over to the run of the loop, which ends exhausted or solved); on "Solved" the buffer reads back getConfirmedValue of the board solve left, digits 1..9 with the givens kept; any other status leaves the buffer alone; a fully given puzzle with no repeated digit returns "Solved" with the buffer unchanged |
| Api.LoadAndSolve | sudok_solver.hpp:505-520 | with size 81: the same outcomes as SudokuSolver, from the buffer as given |

## Left out

- `Board::print` (sudok_solver.hpp:354-362) is console output.
- The `jh::pod` detection, the `array_impl` aliases and their `memcmp` equality (sudok_solver.hpp:113-187) are
  storage plumbing. The board is a Dafny array of 81 cells, and a frame holds its board as a sequence of 81 cells.
- The compiler builtins and preprocessor branches of the bit helpers. Only the result each helper specifies is
  modelled.
- The uninitialised stack allocation (sudok_solver.hpp:447-448) is modelled as an array of 81 frames, each
  filled with a placeholder that is never read.
- The `try`/`catch` around `load_int8_t` (sudok_solver.hpp:506-510) is dead code because nothing inside can
  throw. `Api.SudokuSolver` proves that "Size mismatch with declared size" is never returned.
- Integer widths:
  - `top` is `int8_t`, `target_idx` is `uint8_t`, and `inner_solve` returns `int8_t`.
  - The model uses unbounded integers, because every value is proved to stay in -2..80.
  - The buffer entries written back are proved to lie in 1..9, so the cast to `int8_t` loses nothing.
- Solver.Solve: does not state that a "Solved" board has each digit once per unit. The code returns at
  `res == -1` before its duplicate check (sudok_solver.hpp:476-478), so it does not promise it either.
- Api.SudokuSolver: does not state that "No solution found" means the puzzle has no solution. A failed duplicate
  check drops the whole frame with its untried candidates (sudok_solver.hpp:480-482), so the search is not
  complete. Likewise, "Solved" is not shown to be free of duplicates.
- `Api.Message` maps each status to its C++ string; it has no contract beyond its definition.
- `sd_c_api.h` (a one-line C forwarder), the Python bindings and the GUI example are not part of this model.
