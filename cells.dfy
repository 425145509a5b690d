/**
 * The data of the 9×9 puzzle: a cell record, the row-major index of a
 * position, the three constraint units (row, column, 3×3 block), the
 * "no repeated value in a unit" invariant, and the fixed clue layout that
 * init_grid seeds.
 */
module Cells {

  /** Number of cells on the board: 9 rows of 9 columns. */
  const CellCount := 81

  /** The sentinel an empty cell holds. */
  const Empty := -1

  /** One square of the board: its position and the value it holds. */
  datatype Cell = Cell(row: int, column: int, val: int)

  /**
   * What solve_puzzle ends with: the integer it returns, or the fault of
   * dereferencing a slot at or past `size`, which holds no cell.
   */
  datatype Outcome = Returned(code: int) | OutOfRange(index: int)

  datatype Option<T> = None | Some(value: T)

  /** The solver treats a cell as filled exactly when its value exceeds -1. */
  predicate Filled(c: Cell) {
    c.val > Empty
  }

  /**
   * Linear index k (row k / 9, column k % 9) lies in row `row`, in column
   * `column`, or in the 3×3 block that holds (row, column).
   */
  predicate InUnit(k: int, row: int, column: int) {
    k / 9 == row || k % 9 == column || (k / 9 / 3 == row / 3 && k % 9 / 3 == column / 3)
  }

  /** Cells i and j share a row, a column or a block. */
  predicate Peers(i: int, j: int) {
    InUnit(i, j / 9, j % 9)
  }

  /** No filled value appears twice in any row, column or block. */
  ghost predicate LegalState(g: seq<Cell>) {
    |g| == CellCount &&
    forall i, j :: 0 <= i < CellCount && 0 <= j < CellCount && i != j && Peers(i, j) && Filled(g[i]) ==>
      g[i].val != g[j].val
  }

  /** Every value is the empty sentinel or one of the candidates 0..8. */
  ghost predicate InDomain(g: seq<Cell>) {
    forall k :: 0 <= k < |g| ==> g[k].val == Empty || 0 <= g[k].val <= 8
  }

  /** Slot k holds the cell of position (k / 9, k % 9). */
  ghost predicate Positioned(g: seq<Cell>) {
    forall k :: 0 <= k < |g| ==> g[k].row == k / 9 && g[k].column == k % 9
  }

  lemma IndexParts(row: int, column: int)
    requires 0 <= row && 0 <= column < 9
    ensures (row * 9 + column) / 9 == row && (row * 9 + column) % 9 == column
  {
  }

  /** The clue layout of init_grid: 2, 5 or 0 at eight positions, empty elsewhere. */
  function Clue(r: int, c: int): (v: int)
    ensures v == Empty || v == 0 || v == 2 || v == 5
  {
    if (r == 0 && c == 7) || (r == 2 && c == 1) || (r == 5 && c == 3) || (r == 7 && c == 5) then 2
    else if (r == 1 && c == 8) || (r == 8 && c == 6) then 5
    else if (r == 3 && c == 2) || (r == 6 && c == 4) then 0
    else Empty
  }

  /**
   * The cell init_grid stores in slot k: it sits at position (k / 9, k % 9),
   * so apply_cell's index row * 9 + column finds it again, and it holds -1 or
   * a value in 0..8.
   */
  function SeedCell(k: int): (cell: Cell)
    ensures cell.row == k / 9 && cell.column == k % 9
    ensures 0 <= k < CellCount ==> cell.row * 9 + cell.column == k && 0 <= cell.row <= 8 && 0 <= cell.column <= 8
    ensures cell.val == Empty || 0 <= cell.val <= 8
  {
    Cell(k / 9, k % 9, Clue(k / 9, k % 9))
  }

  ghost function SeedGrid(): seq<Cell> {
    seq(CellCount, k => SeedCell(k))
  }

  /** The eight clue positions, as linear indices. */
  lemma SeedClues(k: int)
    requires 0 <= k < CellCount
    ensures Filled(SeedCell(k)) <==> k in {7, 19, 48, 68, 17, 78, 29, 58}
    ensures SeedCell(k).val == (if k in {7, 19, 48, 68} then 2 else if k in {17, 78} then 5
                                else if k in {29, 58} then 0 else Empty)
  {
    var r, c := k / 9, k % 9;
    assert k == r * 9 + c;
  }

  /** The seeded board is well formed and has no repeated clue in any unit. */
  lemma SeedIsLegal()
    ensures LegalState(SeedGrid()) && InDomain(SeedGrid()) && Positioned(SeedGrid())
  {
    var g := SeedGrid();
    forall i, j | 0 <= i < CellCount && 0 <= j < CellCount && i != j && Peers(i, j) && Filled(g[i])
      ensures g[i].val != g[j].val
    {
      SeedClues(i);
      SeedClues(j);
    }
    forall k | 0 <= k < CellCount ensures g[k].val == Empty || 0 <= g[k].val <= 8 {
      SeedClues(k);
    }
  }
}
