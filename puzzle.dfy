/**
 * The Grid record of puzzle_main.c and the four operations that change or
 * read it in place: init_grid, is_legal, apply_cell and solve_puzzle.
 *
 * `cells` is the growable block of cell slots, `size` the number of slots
 * filled so far and `cap` the number allocated. Each slot holds its cell
 * by value: no two slots share a cell, so writing through a slot is writing
 * the array element.
 */
module Puzzle {
  import opened Cells
  import opened Legality
  import Search

  function Pow2(n: nat): (p: nat)
    ensures p >= 1
  {
    if n == 0 then 1 else 2 * Pow2(n - 1)
  }

  /**
   * Starting from main's capacity of 5, the only capacity 5 * 2^d that holds
   * 81 cells and is less than twice 81 is 160, reached after five doublings.
   */
  lemma SeededCapacity(d: nat)
    requires 81 <= 5 * Pow2(d) && (d > 0 ==> 5 * Pow2(d) < 2 * 81)
    ensures d == 5 && 5 * Pow2(d) == 160
  {
    if d <= 4 {
      assert Pow2(4) == 16;
      Pow2Monotone(d, 4);
    } else if d >= 6 {
      assert Pow2(6) == 64;
      Pow2Monotone(6, d);
    } else {
      assert Pow2(5) == 32;
    }
  }

  lemma {:induction false} Pow2Monotone(a: nat, b: nat)
    requires a <= b
    ensures Pow2(a) <= Pow2(b)
    decreases b - a
  {
    if a < b {
      Pow2Monotone(a, b - 1);
    }
  }

  lemma DoubleScale(c: int, d: nat)
    ensures c * Pow2(d + 1) == 2 * (c * Pow2(d))
  {
  }

  class Grid {
    var cells: array<Cell>
    var size: int
    var cap: int

    ghost predicate Valid()
      reads this
    {
      cells.Length == cap && 0 <= size <= cap
    }

    /** The cells held by the slots filled so far. */
    ghost function Board(): seq<Cell>
      reads this, cells
      requires Valid()
    {
      cells[..size]
    }

    /** The slots at or past `size`, which hold no cell of the board. */
    ghost function Tail(): seq<Cell>
      reads this, cells
      requires Valid()
    {
      cells[size..]
    }

    /** The value of the cell in slot k; only the slots below `size` hold a cell. */
    function Val(k: int): int
      reads this, cells
      requires Valid() && 0 <= k < size
    {
      cells[k].val
    }

    /** The grid main starts from: room for five slots, none filled. */
    constructor ()
      ensures Valid() && fresh(cells)
      ensures size == 0 && cap == 5
    {
      cells := new Cell[5];
      size := 0;
      cap := 5;
    }

    /** Doubles the capacity and moves every slot into a new block of that size, as realloc does. */
    method Grow()
      requires Valid()
      modifies this
      ensures Valid() && fresh(cells)
      ensures cap == 2 * old(cap) && size == old(size)
      ensures cells[..old(cap)] == old(cells[..])
    {
      var source, n := cells, cap;
      var block := new Cell[2 * n];
      var j := 0;
      while j < n
        invariant 0 <= j <= n
        invariant block[..j] == source[..j]
        modifies block
      {
        block[j] := source[j];
        j := j + 1;
      }
      cap := 2 * n;
      cells := block;
    }

    /**
     * One step of init_grid's loop: grow the block if it is full, store the
     * cell in slot i and count it in `size`.
     */
    method AppendAt(i: int, cell: Cell) returns (grew: bool)
      requires Valid() && cap > 0 && 0 <= i <= size
      modifies this, cells
      ensures Valid() && cap > 0 && size == old(size) + 1
      ensures grew == (old(size) == old(cap))
      ensures cap == (if grew then 2 * old(cap) else old(cap))
      ensures grew ==> fresh(cells)
      ensures !grew ==> cells == old(cells)
      ensures cells[i] == cell
      ensures forall k :: 0 <= k < old(cap) && k != i ==> cells[k] == old(cells[k])
    {
      grew := size == cap;
      if grew {
        Grow();
      }
      cells[i] := cell;
      size := size + 1;
    }

    /**
     * Appends the 81 cells of the seeded board in row-major order, doubling
     * the capacity whenever the block is full. The cells are written to slots
     * 0..80 whatever `size` was; `size` itself grows by 81.
     */
    method InitGrid() returns (status: int, ghost doublings: nat)
      requires Valid() && cap > 0
      modifies this, cells
      ensures Valid() && status == 0
      ensures cells == old(cells) || fresh(cells)
      ensures size == old(size) + 81
      ensures forall k :: 0 <= k < 81 ==> cells[k] == SeedCell(k)
      ensures forall k :: 81 <= k < old(size) ==> cells[k] == old(cells[k])
      ensures cap == old(cap) * Pow2(doublings)
      ensures doublings > 0 ==> cap < 2 * size
    {
      ghost var size0, cap0, block0 := size, cap, cells[..];
      doublings := 0;
      var i := 0;
      for r := 0 to 9
        invariant Valid() && cap > 0
        invariant cells == old(cells) || fresh(cells)
        invariant i == r * 9 && size == size0 + i
        invariant forall k :: 0 <= k < i ==> cells[k] == SeedCell(k)
        invariant forall k :: i <= k < size0 ==> cells[k] == block0[k]
        invariant cap == cap0 * Pow2(doublings)
        invariant doublings > 0 ==> cap < 2 * size
      {
        for c := 0 to 9
          invariant Valid() && cap > 0
          invariant cells == old(cells) || fresh(cells)
          invariant i == r * 9 + c && size == size0 + i
          invariant forall k :: 0 <= k < i ==> cells[k] == SeedCell(k)
          invariant forall k :: i <= k < size0 ==> cells[k] == block0[k]
          invariant cap == cap0 * Pow2(doublings)
          invariant doublings > 0 ==> cap < 2 * size
        {
          var grew := AppendAt(i, Cell(r, c, Clue(r, c)));
          if grew {
            DoubleScale(cap0, doublings);
            doublings := doublings + 1;
          }
          IndexParts(r, c);
          i := i + 1;
        }
      }
      status := 0;
    }

    /**
     * is_legal: 1 (unsafe) when the candidate's value already occurs in its
     * row, its column or its 3×3 block, the cell itself included; 0 otherwise.
     */
    method IsLegal(cell: Cell) returns (unsafe: int)
      requires Valid() && size == CellCount
      requires 0 <= cell.row <= 8 && 0 <= cell.column <= 8
      ensures unsafe == (if Conflicts(Board(), cell.row, cell.column, cell.val) then 1 else 0)
    {
      var row, column, v := cell.row, cell.column, cell.val;
      for i := 0 to 9
        invariant forall j :: 0 <= j < i ==> Val(RowSlot(row, j)) != v
      {
        RowSlotInUnit(row, column, i);
        if Val(RowSlot(row, i)) == v {
          assert Board()[RowSlot(row, i)].val == v;
          return 1;
        }
      }
      for i := 0 to 9
        invariant forall j :: 0 <= j < i ==> Val(ColumnSlot(column, j)) != v
      {
        ColumnSlotInUnit(row, column, i);
        if Val(ColumnSlot(column, i)) == v {
          assert Board()[ColumnSlot(column, i)].val == v;
          return 1;
        }
      }
      var (startRow, startColumn) := BlockOrigin(row, column);
      for r := 0 to 3
        invariant forall r', c' :: 0 <= r' < r && 0 <= c' < 3 ==> Val(BlockSlot(startRow, startColumn, r', c')) != v
      {
        for c := 0 to 3
          invariant forall c' :: 0 <= c' < c ==> Val(BlockSlot(startRow, startColumn, r, c')) != v
        {
          BlockSlotInUnit(row, column, r, c);
          if Val(BlockSlot(startRow, startColumn, r, c)) == v {
            assert Board()[BlockSlot(startRow, startColumn, r, c)].val == v;
            return 1;
          }
        }
      }
      forall k | 0 <= k < CellCount && InUnit(k, row, column) ensures Board()[k].val != v {
        UnitCovered(k, row, column);
      }
      return 0;
    }

    /** apply_cell: writes the cell's value into slot row * 9 + column; nothing else changes. */
    method ApplyCell(cell: Cell)
      requires Valid() && 0 <= cell.row * 9 + cell.column < size
      modifies cells
      ensures cells[..] == old(cells[..])[cell.row * 9 + cell.column := old(cells[cell.row * 9 + cell.column]).(val := cell.val)]
      ensures Valid() && Board() == old(Board())[cell.row * 9 + cell.column := old(cells[cell.row * 9 + cell.column]).(val := cell.val)]
    {
      var k := cell.row * 9 + cell.column;
      cells[k] := cells[k].(val := cell.val);
    }

    /**
     * solve_puzzle(grid, row, column): walks the board in row-major order
     * from the cursor and hands each empty cell to the candidate loop. Its
     * new board and outcome are those of Search.Solve, whose properties
     * Search proves.
     */
    method Solve(row: int, column: int) returns (outcome: Outcome)
      requires Valid() && size == CellCount && 0 <= row && 0 <= column
      modifies cells
      ensures Search.Run(Board(), outcome) == Search.Solve(old(Board()), row, column)
      ensures Tail() == old(Tail())
      decreases Search.Rank(row, column), 1
    {
      if row > 8 {
        return Returned(0);
      }
      var r, c := row, column;
      if c > 8 {
        r := r + 1;
        c := 0;
      }
      var k := r * 9 + c;
      if k >= size {
        return OutOfRange(k);
      }
      if Val(k) > Empty {
        outcome := Solve(r, c + 1);
      } else {
        outcome := TryCandidates(r, c);
      }
    }

    /**
     * The candidate loop of solve_puzzle at the empty cell (r, c): try 0..8
     * in order, place a candidate is_legal accepts and recurse on the next
     * cell; return 0 as soon as that call returns 0, otherwise reset the
     * cell to -1 and go on.
     */
    method TryCandidates(r: int, c: int) returns (outcome: Outcome)
      requires Valid() && size == CellCount && 0 <= r <= 8 && 0 <= c <= 8
      modifies cells
      ensures Search.Run(Board(), outcome) == Search.Candidates(old(Board()), r, c, 0)
      ensures Tail() == old(Tail())
      decreases Search.Rank(r, c), 0, 1
    {
      var k := r * 9 + c;
      ghost var goal := Search.Candidates(Board(), r, c, 0);
      for i := 0 to 9
        invariant Valid() && size == CellCount
        invariant Search.Candidates(Board(), r, c, i) == goal
        invariant Tail() == old(Tail())
      {
        ghost var g := Board();
        var unsafe := IsLegal(Cell(r, c, i));
        if unsafe == 0 {
          outcome := Place(r, c, i);
          if outcome == Returned(0) || outcome.OutOfRange? {
            return;
          }
        }
        ghost var h := Board();
        cells[k] := cells[k].(val := Empty);
        assert Board() == h[k := h[k].(val := Empty)];
      }
      return Returned(0);
    }

    /**
     * One accepted candidate of the loop: apply_cell writes `v` into (r, c)
     * and solve_puzzle goes on from the next column.
     */
    method Place(r: int, c: int, v: int) returns (outcome: Outcome)
      requires Valid() && size == CellCount && 0 <= r <= 8 && 0 <= c <= 8
      modifies cells
      ensures Valid() && size == CellCount
      ensures Search.Run(Board(), outcome) ==
        Search.Solve(old(Board())[r * 9 + c := old(Board())[r * 9 + c].(val := v)], r, c + 1)
      ensures Tail() == old(Tail())
      decreases Search.Rank(r, c), 0, 0
    {
      ghost var g := Board();
      ApplyCell(Cell(r, c, v));
      assert Board() == g[r * 9 + c := g[r * 9 + c].(val := v)];
      outcome := Solve(r, c + 1);
    }
  }

  /**
   * main's set-up: a grid with capacity 5, seeded by init_grid. It ends with
   * 81 cells, capacity 160 and a board with no repeated clue.
   */
  method NewSeededGrid() returns (g: Grid)
    ensures fresh(g) && fresh(g.cells) && g.Valid() && g.size == 81 && g.cap == 160
    ensures g.Board() == SeedGrid() && LegalState(g.Board())
  {
    g := new Grid();
    var status, doublings := g.InitGrid();
    SeededCapacity(doublings);
    SeedIsLegal();
    assert g.Board() == SeedGrid();
  }

  /**
   * main's call solve_puzzle(&sudo_grid, 0, 0) on the seeded grid. It ends
   * with 0 or with the fault on slot 81, never with a nonzero return, so the
   * "no solution" branch of main is unreachable. The board keeps every clue
   * and has no repeated value in any unit.
   */
  method SolveSeeded() returns (g: Grid, outcome: Outcome)
    ensures fresh(g) && fresh(g.cells) && g.Valid() && g.size == 81
    ensures outcome == Returned(0) || outcome == OutOfRange(CellCount)
    ensures LegalState(g.Board()) && Positioned(g.Board()) && InDomain(g.Board())
    ensures forall k :: 0 <= k < CellCount && Filled(SeedCell(k)) ==> g.Board()[k] == SeedCell(k)
  {
    g := NewSeededGrid();
    outcome := g.Solve(0, 0);
    Search.SolveOutcome(SeedGrid(), 0, 0);
    Search.SolveKeepsLegal(SeedGrid(), 0, 0);
    Search.SolveFrame(SeedGrid(), 0, 0);
  }
}
