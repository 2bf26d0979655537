# Sudoku solver core in Dafny

This project models the non-window part of `Sudoku.py`. That part is a backtracking Sudoku solver built around one
global 9x9 integer grid. It also keeps a free-cell counter (`cnt_free_cells`), an interactive cursor (`cur_loc`) and a
list of free positions (`lst_free_cells`).

The model has three modules:

- `Grid` (grid.dfy) treats the grid as a value. It contains:
  - a row-major board of 81 integers, where 0 is an empty cell;
  - the `Point` position;
  - the legality rule that `legal_next` scans for, and the Sudoku rule it encodes, stated independently through peers and consistency;
  - the row-major enumeration of empty cells and the count of empty cells.
- `Search` (search.dfy) covers the backtracking search on board values:
  - one `test_cell` step as a function;
  - the invariant the `solve` loop keeps;
  - how the loop ends;
  - a base-11 measure showing that the loop terminates.
- `Session` (session.dfy) turns the module globals into the class `Sudoku`:
  - `grid` is an `array2<int>`, paired with a ghost `board` that mirrors its contents;
  - `cntFreeCells`, `cur` and `freeCells` are the other fields;
  - each function of the source is a method that changes these fields in place and is proved against the value-level functions above.

Proved properties:

- **`legal_next`.** It decides exactly the Sudoku rule: the cell is empty, the digit is non-zero, and no peer (a cell in the same row, column or block) holds it. A legal placement keeps a rule-abiding grid rule-abiding.
- **`make_free_cell_list`.** It appends exactly the empty cells, each once, in row-major order. There are as many of them as there are empty cells.
- **The search.** Each step keeps an invariant:
  - free cells before the cursor were placed legally against the givens and the earlier free cells;
  - the free cells after the cursor are empty;
  - the givens are untouched;
  - no completion of the puzzle lies lexicographically at or below the part of the search already done.
- **How the search ends.** It always ends. It ends in one of two ways:
  - every free cell was placed legally; when the givens break no rule, that board is a completion of the puzzle;
  - the first free cell holds 9 and the puzzle has no completion.

Where the code and its documentation differ, the model follows the code:

- **Unsolvable puzzles.** `test_cell` returns 5 both when the puzzle is solved and when the first free cell is exhausted (Sudoku.py:173-175, 183-185). An unsolvable search leaves 9 in the first free cell.
- **The free-cell list.** `make_free_cell_list` appends to the existing list and never resets it (Sudoku.py:150).
- **Imports.** `import_sudoku` places values with no legality or range check. It lowers the counter once per non-zero entry.
- **Legality.** `legal_next` scans the grid; no row, column or block sets are kept.
- **Deleting an empty cell.** `delete_value` raises the counter even when the cell was already empty.

## Model

| member | source | states |
|---|---|---|
| Grid.Point.Shift | Sudoku.py:16-18 | the shifted point differs from the original by exactly `x` rows and `y` columns |
| Grid.Set | Sudoku.py:93 | writing one cell gives that cell the new value and leaves every other cell unchanged |
| Grid.PlaceThenDelete | Sudoku.py:92-106 | placing a value in an empty cell and then deleting it restores the board exactly |
| Grid.Legal | Sudoku.py:71-83 | the cell is empty, `v` is in no cell of its column or row and in no other cell of its 3x3 block; an accepted `v` is never 0, since the empty cell itself lies in the column scanned |
| Grid.LegalExcludesPeers | Sudoku.py:71-83 | a value the scan accepts is non-zero and is held by no row, column or block peer of the cell |
| Grid.NoPeerIsLegal | Sudoku.py:71-83 | a non-zero value held by no peer of an empty cell passes every check of the scan |
| Grid.LegalIffNoPeer | Sudoku.py:63-83 | the scan accepts `v` at `loc` iff the cell is empty, `v` is non-zero and no peer holds `v` |
| Grid.LegalPlacementKeepsConsistent | Sudoku.py:42-44 | writing a value the scan accepts into a board that breaks no rule gives a board that breaks no rule |
| Grid.FreePrefix | Sudoku.py:147-150 | every listed cell is on the board, empty and before the bound, and the list is strictly increasing in row-major order (so no cell appears twice) |
| Grid.FreePrefixNext | Sudoku.py:148-150 | visiting one more cell appends it exactly when it is empty |
| Grid.FreeCells | Sudoku.py:147-150 | the list that `make_free_cell_list` builds from an empty list: every listed cell is on the board and empty, in strictly increasing row-major order |
| Grid.FreePrefixComplete | Sudoku.py:147-150 | every empty cell before the bound is listed |
| Grid.FreeCellsExact | Sudoku.py:147-150 | a cell is in the free-cell list iff it is empty |
| Grid.FreeCellsCount | Sudoku.py:147-150 | the free-cell list is as long as the number of empty cells |
| Grid.ZeroCountSet | Sudoku.py:93-95 | writing one cell changes the number of empty cells by that cell's change of emptiness, so a counter moved by one per write stays at a fixed offset from it |
| Search.TestStep | Sudoku.py:153-191 | a step returns -1, 0, 1 or 5 and writes no cell other than free cell `index` |
| Search.TestStepExhausted | Sudoku.py:172-180 | a cell holding 9 stops the search at index 0 with the board unchanged, and elsewhere is cleared with return -1 |
| Search.TestStepWrites | Sudoku.py:167-191 | a cell holding 0..8 gets the next candidate written whether legal or not; the step returns 0 if the candidate is illegal, else 5 at the last index and 1 before it |
| Search.SearchStarts | Sudoku.py:130-133 | the search invariant holds at cursor 0 on the unchanged board with the fresh free-cell list |
| Search.StayKeepsSearch | Sudoku.py:189-191 | writing an illegal candidate keeps the invariant at the same cursor and raises the measure key |
| Search.RejectedKeepsFrontier | Sudoku.py:189-191 | writing an illegal candidate skips no completion of the puzzle: every completion still lies beyond the search done so far |
| Search.ForwardKeepsSearch | Sudoku.py:181-188 | placing a legal candidate before the last index keeps the invariant at the next cursor and raises the key |
| Search.LastPlacementSolves | Sudoku.py:181-185 | a legal candidate at the last index ends the search with every free cell placed legally and the givens kept |
| Search.BackKeepsSearch | Sudoku.py:176-180 | clearing an exhausted cell after the first keeps the invariant one cell back and raises the key |
| Search.ExhaustedFirstCell | Sudoku.py:173-175 | an exhausted first free cell ends the search, and then the puzzle has no completion |
| Search.KeyRaise | Sudoku.py:169-171 | trying the next candidate in place strictly raises the key |
| Search.KeyForward | Sudoku.py:186-188 | moving forward onto an empty cell after a candidate strictly raises the key |
| Search.KeyBack | Sudoku.py:176-180 | stepping back from a 9 to a filled cell strictly raises the key |
| Search.KeyBound | Sudoku.py:134-138 | with digits in 0..9 the key stays below 11 to the number of free cells, so it can rise only finitely often |
| Search.StepKeepsSearch | Sudoku.py:134-138 | from any state that satisfies the invariant, one step either ends with the search outcome (code 5) or moves the cursor by its code to a state satisfying the invariant with a larger key |
| Search.StepLands | Sudoku.py:134-138 | one loop iteration keeps the cursor in range while running, stops exactly on code 5, keeps the loop state and lowers the non-negative measure |
| Search.SolvedIsConsistent | Sudoku.py:181-185 | if the givens break no rule, a search that placed every free cell legally leaves a board that breaks no rule |
| Search.SolvedIsCompletion | Sudoku.py:181-185 | if the givens break no rule, a search that placed every free cell legally yields a completion of the puzzle |
| Session.ImportedPrefix | Sudoku.py:198-204 | after `k` entries, cell `m` holds entry `m` if `m < k` and the entry is non-zero, and otherwise keeps its old value |
| Session.ImportOnEmptyCount | Sudoku.py:198-204 | importing into an empty grid leaves as many empty cells as 81 minus the non-zero entries |
| Session.Step | Sudoku.py:118-121 | an axis inside 0..8 stays inside 0..8; the axis either stays or moves by the change; a unit step is taken iff it stays on the board, so a step off the board leaves the axis unchanged; any other change leaves the axis unchanged |
| Session.KeyDigit | Sudoku.py:42-43 | key code `48 + d` stands for digit `d`, so codes 49..57 are the digits 1..9 |
| Session.Sudoku.constructor | Sudoku.py:217-220 | the grid is all zeros, the counter is 81 and equals the number of empty cells, the cursor is (0, 0) and the free list is empty |
| Session.Sudoku.ColumnHolds | Sudoku.py:73-74 | the result is true iff some cell of the column holds the value |
| Session.Sudoku.RowHolds | Sudoku.py:75-76 | the result is true iff some cell of the row holds the value |
| Session.Sudoku.BlockHolds | Sudoku.py:77-82 | the result is true iff some other cell of the block holds the value |
| Session.Sudoku.LegalNext | Sudoku.py:63-83 | the result is exactly the legality rule on the current grid, so by `Grid.LegalIffNoPeer` it is the Sudoku rule; nothing changes |
| Session.Sudoku.ChangeValue | Sudoku.py:86-95 | only that cell of the grid changes, and it gets the value; the counter drops by exactly 1; the cursor and free list are unchanged |
| Session.Sudoku.DeleteValue | Sudoku.py:99-108 | only that cell changes, and it becomes 0; the counter rises by exactly 1, even for an empty cell |
| Session.Sudoku.ChangeCurLoc | Sudoku.py:111-123 | each cursor coordinate moves by the clamped `Step` rule, so it stays in 0..8 and `(0, 0)` leaves it unchanged; nothing else changes |
| Session.Sudoku.MakeFreeCellList | Sudoku.py:143-150 | the list becomes its old contents followed by exactly the empty cells in row-major order; the grid is unchanged |
| Session.Sudoku.TestCell | Sudoku.py:153-191 | the new grid and the return code are those of `Search.TestStep`, and the counter keeps its offset from the number of empty cells |
| Session.Sudoku.Solve | Sudoku.py:126-141 | the loop terminates; the free list is the row-major list of the puzzle's empty cells; the givens are kept; the end is either every free cell placed legally or an exhausted first cell with no completion; with rule-abiding givens a solved end is a completion |
| Session.Sudoku.ImportSudoku | Sudoku.py:194-204 | entry `k` is written to cell `(k / 9, k % 9)` exactly when it is non-zero; the counter drops by the number of non-zero entries; on an empty grid with counter 81 the counter then equals the number of empty cells |
| Session.Sudoku.PressDigitKey | Sudoku.py:42-44 | a digit is written iff the key is 49..57 and the scan accepts the digit at the cursor; the counter drops by one exactly then; a rule-abiding grid stays rule-abiding |

## Left out

- The PyQt5 window is left out: `WindowSudoku`, `setText`, `setStyleSheet`, `QApplication` and the start-up `show`/`exec`. The source reads emptiness and values from cell texts, which every mutator keeps in step with `sudoku_grid`. The model reads grid value 0 as an empty cell text.
- `keyPressEvent` dispatch is left out except for the digit-key rule (`Session.Sudoku.PressDigitKey`). Escape closes the window. Delete and the arrow keys call `delete_value` and `change_cur_loc` directly, and those two are modelled.
- `print`, `time.time()` and the `cell_cnt` statistic are left out; they are diagnostics only.
- The grid holds integers; numpy stores floats in the source, but only whole numbers are ever written.
- The cursor: the source moves `cur_loc` by assigning its fields in place. The model reassigns a `Point` value instead. No other object shares `cur_loc`, so this loses nothing observable. `Point.shift` likewise returns a new point.
- Session.Sudoku.Solve: requires an empty free-cell list and at least one empty cell. With a non-empty old list, the appended list holds stale positions. With no empty cell, `test_cell(0)` indexes out of range. Neither case is modelled.
- Session.Sudoku.ImportSudoku: requires at least 81 entries, since a shorter list makes the source index out of range. Values are not range-checked, as in the source.
- The module-global `lst_free_cells` is an explicit parameter of `Search.TestStep`. The return code of the exhausted first cell is the same 5 as for a solved puzzle, as in the source. `Search.Exhausted` tells the two apart only at the proof level.
- Loop termination is proved with a base-11 key over the free-cell digits. The source states no bound on the number of steps.
