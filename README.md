# Sudoku grid and solver of puzzle_main.c, modelled in Dafny

The program keeps a 9×9 Sudoku board as a growable block of cell slots.
Slot `row*9 + column` holds the cell of that position, and the value -1
marks an empty cell. The program has four operations on the board:

- `init_grid` appends the 81 cells in row-major order. It doubles the
  capacity whenever the block is full, and seeds eight clues.
- `is_legal` reports 1 (unsafe) when a candidate value already occurs in
  the cell's row, column or 3×3 block. Otherwise it reports 0.
- `apply_cell` writes one value into its slot.
- `solve_puzzle` walks the board recursively in row-major order. It tries
  the candidates 0..8 at each empty cell.

The model has four modules:

- `Cells` (cells.dfy) holds the data. It defines the `Cell` record, the
  constraint units, the invariant that no filled value repeats within a
  unit (`LegalState`), and the clue table.
- `Legality` (legality.dfy) says what `is_legal` decides, without its
  loops. `Conflicts` is that verdict. The module also gives the exact set
  of slots the three scans read.
- `Search` (search.dfy) states `solve_puzzle` as ghost functions.
  `Solve` and `Candidates` follow the code branch by branch. `Greedy` is an
  independent reference: a walk that never backtracks. It gives each empty
  cell the smallest candidate that does not conflict, and it stops at the
  first empty cell that has none. `SolveIsGreedy` proves that the two are
  the same function.
- `Puzzle` (puzzle.dfy) holds the class `Grid`, whose fields are those of
  the C struct: `cells` (an `array<Cell>`), `size` and `cap`. Its methods
  `InitGrid`, `IsLegal`, `ApplyCell` and `Solve` (with its candidate loop
  `TryCandidates` and `Place`) work in place. Each one is
  proved against the functions above.

The code differs from a textbook backtracking solver, and from its own
comment at puzzle_main.c:177, which promises 1 when the board has no
solution, in these ways. The model follows the code:

- The code never backtracks past a legal placement. Every `return` in
  `solve_puzzle` returns 0 (lines 195, 230 and 240). So the recursive call
  always "succeeds", and the reset at line 234 runs only after an unsafe
  candidate. "No solution" is never reported.
- The code never reaches a "past the last row" success state. From
  cursor (8, 9) it wraps to (9, 0) and dereferences slot 81 before it tests
  `row > 8` again. Slot 81 lies beyond `size` and holds no cell. The model
  makes this read the outcome `OutOfRange(81)`, and that outcome ends every
  enclosing call. Reaching it means the walk filled every cell from the
  cursor on. A board that is already full therefore faults instead of
  returning at once.
- `is_legal` scans the target cell as well. A value already there is
  reported unsafe.
- The candidates are 0..8, not 1..9.

## Model

| member | source | states |
|---|---|---|
| `Cells.Clue` | puzzle_main.c:83-99 | The seed chain for position (r, c) gives only 2, 5, 0 or the empty marker -1. |
| `Cells.SeedCell` | puzzle_main.c:80-99 | The cell stored for slot k sits at row k/9 and column k%9. For k in 0..80 its position is on the board and indexes back to slot k (`row*9 + column == k`). Its value is -1 or in 0..8. |
| `Cells.SeedClues` | puzzle_main.c:83-99 | The seeded board has exactly eight filled slots. Value 2 is at slots 7, 19, 48 and 68, value 5 at slots 17 and 78, and value 0 at slots 29 and 58. Every other slot holds -1. |
| `Cells.SeedIsLegal` | puzzle_main.c:80-99 | Slot k of the seeded board is at position (k/9, k%9). Every value is -1 or in 0..8. No clue repeats in a row, a column or a block. |
| `Legality.Conflicts` | puzzle_main.c:123-159 | The verdict of `is_legal` as a predicate, with no ensures of its own: `v` is held by some slot k in 0..80 that shares the row, the column or the 3×3 block of (row, column). `Puzzle.Grid.IsLegal`, `Legality.ScannedIsUnit` and `Legality.SelfConflict` state its relation to the code's scans. |
| `Legality.BlockOrigin` | puzzle_main.c:144-145 | The block origin `(row - row%3, column - column%3)` is a multiple of 3 in each coordinate and lies at most 2 before (row, column). |
| `Legality.ScannedIsUnit` | puzzle_main.c:125-156 | The row, column and block scans read exactly the slots of the row, column and block of (row, column). So every slot read lies in 0..80. |
| `Legality.SelfConflict` | puzzle_main.c:127-156 | The target cell is not excluded: if it already holds `val`, the verdict is unsafe. |
| `Legality.PlaceKeepsLegal` | puzzle_main.c:213-223 | Writing a candidate that `is_legal` accepts keeps every row, column and block free of repeated values. |
| `Legality.ClearKeepsLegal` | puzzle_main.c:234 | Resetting a cell to -1 keeps every unit free of repeated values. |
| `Legality.ConflictsAfterWrite` | puzzle_main.c:234 | Overwriting a cell that does not hold v with a value other than v leaves the verdict for v unchanged at every position. |
| `Search.Solve` | puzzle_main.c:190-211 | `solve_puzzle(grid, row, column)` branch by branch: row > 8 returns 0, a column past 8 wraps to the next row, a filled cell is skipped, an empty one goes to `Search.Candidates`. The board keeps 81 cells, and the only slot ever read out of range is slot 81. |
| `Search.Candidates` | puzzle_main.c:213-240 | The candidate loop from candidate i on. A non-conflicting candidate is written and the walk recurses. The loop returns at once when that call returns 0 or faults. Otherwise the cell is reset to -1 and the next candidate is tried. After candidate 8 it returns 0. The board keeps 81 cells, and a fault can only be the read of slot 81. |
| `Search.FirstLegal` | puzzle_main.c:213-223 | The result is the smallest candidate from i to 8 that does not conflict. If it is None, every candidate from i to 8 conflicts. |
| `Search.NextVisit` | puzzle_main.c:198-210 | After the column wrap, each recursive call inspects the next linear slot. The index `row*9 + column` grows by exactly 1. |
| `Search.WrapPastLastRow` | puzzle_main.c:193-208 | From row 8, any column past 8 wraps to row 9. The call then faults on slot 81, whatever the board holds. |
| `Search.SolveIsGreedy` | puzzle_main.c:190-242 | `solve_puzzle` equals the walk with no backtracking. Each visited empty cell ends holding the smallest candidate in 0..8 that is legal when the walk visits it. If there is none, the walk stops at that cell and leaves it at -1. |
| `Search.CandidatesIsGreedy` | puzzle_main.c:213-240 | The candidate loop keeps the first candidate that `is_legal` accepts, followed by the rest of the walk. If every candidate is unsafe, the cell ends at -1 and the call returns 0. |
| `Search.FirstLegalAfterClear` | puzzle_main.c:213-238 | Resetting an empty target cell to -1 between candidates does not change which later candidate is first legal. |
| `Search.GreedyFrame` | puzzle_main.c:208-234 | The walk changes only the value field, and only in empty cells at or after its start. It writes only -1 or 0..8. |
| `Search.GreedyOutcome` | puzzle_main.c:193-240 | The walk ends with 0 or with the fault on slot 81. It faults exactly when every cell from its start on ends filled. |
| `Search.GreedyKeepsLegal` | puzzle_main.c:213-234 | A board with no repeated value in any unit still has none when the walk ends. |
| `Search.SolveOutcome` | puzzle_main.c:190-242 | Every return of `solve_puzzle` is 0, so the "no solution" branch of main (lines 272-280) is unreachable. The only other ending is the fault on slot 81. It happens exactly when row ≤ 8 and every cell from the cursor on ends filled. |
| `Search.SolveFrame` | puzzle_main.c:193-234 | With row > 8 the board is returned unchanged with 0. A filled cell (value > -1) is never modified, and neither is any cell before the cursor. Positions never change. Changed values are -1 or 0..8. |
| `Search.SolveKeepsLegal` | puzzle_main.c:213-234 | A board with no repeated value in any row, column or block keeps that property through `solve_puzzle`. |
| `Search.FullBoardReadsPastEnd` | puzzle_main.c:198-211 | On a board with no empty cell, `solve_puzzle(grid, 0, 0)` skips all 81 cells and faults on slot 81. The board stays unchanged. |
| `Puzzle.SeededCapacity` | puzzle_main.c:101-107 | Starting from capacity 5, the only capacity of the form 5·2^d that holds 81 cells, and that is below twice 81 when it grew, is 160 (d = 5). |
| `Puzzle.Grid.constructor` | puzzle_main.c:250-253 | A fresh block of 5 slots, with `size` 0 and `cap` 5. |
| `Puzzle.Grid.Grow` | puzzle_main.c:102-107 | The capacity doubles. The block is replaced by a fresh one that starts with the old block's slots. |
| `Puzzle.Grid.AppendAt` | puzzle_main.c:101-114 | The block grows only when `size == cap`, and then `cap` doubles. The cell is stored in slot i and `size` grows by 1. All other slots are kept. |
| `Puzzle.Grid.InitGrid` | puzzle_main.c:67-119 | Returns 0. The block is the old one or, after a realloc, a fresh one. `size` grows by 81 and stays ≤ `cap`. Slot `r*9+c` holds `Cell(r, c, clue)` with the eight clues, and -1 elsewhere. `cap` is the old capacity times 2^d, and is below twice `size` when it grew. |
| `Puzzle.Grid.IsLegal` | puzzle_main.c:123-161 | Returns 1 exactly when `val` occurs in the row, the column or the 3×3 block of (row, column), and 0 otherwise. Every slot it reads is below `size`, and it modifies nothing. |
| `Puzzle.Grid.ApplyCell` | puzzle_main.c:168-174 | Slot `row*9 + column` gets the new value, with its position kept. Every other slot is unchanged. |
| `Puzzle.Grid.Solve` | puzzle_main.c:190-211 | The new board and the outcome are those of `Search.Solve`: row > 8 returns 0, a column past 8 wraps, a slot at or past `size` faults, a filled cell is skipped and an empty one goes to the candidate loop. The slots at or past `size` are unchanged. The `Search` lemmas above state what that function does. |
| `Puzzle.Grid.TryCandidates` | puzzle_main.c:213-240 | The loop over the candidates 0..8 ends with the board and the outcome of `Search.Candidates` from candidate 0: an unsafe candidate, or one whose recursive call does not return 0, leaves the cell reset to -1 before the next one, and the loop returns 0 when it runs out. The slots at or past `size` are unchanged. |
| `Puzzle.Grid.Place` | puzzle_main.c:222-230 | An accepted candidate is written into its slot, and the board and outcome are those of `Search.Solve` on the written board from the next column. The slots at or past `size` are unchanged. |
| `Puzzle.NewSeededGrid` | puzzle_main.c:250-254 | main's set-up ends with 81 cells and capacity 160, in a freshly allocated block. The board is the seeded one, with no repeated clue. |
| `Puzzle.SolveSeeded` | puzzle_main.c:270-280 | main's call `solve_puzzle(&sudo_grid, 0, 0)` on the seeded grid ends with 0 or with the fault on slot 81, never with a nonzero return, so the "no solution" branch is unreachable. Every clue keeps its value, positions are kept, every value is -1 or 0..8, and no unit holds a repeated value. |

## Left out

- `print_grid` (console output, and `sqrt` to find the board side) is not modelled.
- `main` is modelled only through its set-up of `size`, `cap` and the initial block, the `init_grid` call and the `solve_puzzle` call. Its messages, its `print_grid` calls, its `free` and its exit code are left out.
- Heap mechanics are left out: the per-cell `malloc`, the cells that are never freed, and a failing `realloc`. Each slot holds its cell by value. The C cells are never shared between slots, so writes through a slot behave the same.
- Undefined behaviour after the read of slot 81 is not modelled. The code would go on dereferencing an uninitialised pointer. The model stops at that read with `OutOfRange(81)` and propagates it out of every enclosing call.
- 32-bit `int` overflow is not modelled. The indices stay below 90. From main's start, the capacity never exceeds 160.
- The commented-out debug printing inside `solve_puzzle` is not modelled.
- The board that `solve_puzzle` produces from the seeded clues is not computed. The model proves what the walk does on every board, but it does not evaluate the walk on this particular one.
