/**
 * What is_legal decides, stated without its loops: a candidate value is
 * unsafe at (row, column) when it already occurs anywhere in that cell's
 * row, column or 3×3 block, the cell itself included.
 */
module Legality {
  import opened Cells

  /** `v` occurs in the row, the column or the block of (row, column). */
  ghost predicate Conflicts(g: seq<Cell>, row: int, column: int, v: int)
    requires |g| == CellCount
  {
    exists k :: 0 <= k < CellCount && InUnit(k, row, column) && g[k].val == v
  }

  /** The block scanned for (row, column) starts at (row - row % 3, column - column % 3). */
  function BlockOrigin(row: int, column: int): (o: (int, int))
    requires 0 <= row <= 8 && 0 <= column <= 8
    ensures o.0 % 3 == 0 && o.1 % 3 == 0
    ensures o.0 <= row < o.0 + 3 && o.1 <= column < o.1 + 3
  {
    (row - row % 3, column - column % 3)
  }

  /** The i-th index of the row scan. */
  function RowSlot(row: int, i: int): int { row * 9 + i }

  /** The i-th index of the column scan. */
  function ColumnSlot(column: int, i: int): int { column + i * 9 }

  /** The index at offset (r, c) from the block origin (sr, sc). */
  function BlockSlot(sr: int, sc: int, r: int, c: int): int { (sr + r) * 9 + (sc + c) }

  /** The linear indices is_legal reads: its row scan, its column scan and its block scan. */
  ghost function Scanned(row: int, column: int): set<int>
    requires 0 <= row <= 8 && 0 <= column <= 8
  {
    var (sr, sc) := BlockOrigin(row, column);
    (set i | 0 <= i < 9 :: RowSlot(row, i)) +
    (set i | 0 <= i < 9 :: ColumnSlot(column, i)) +
    (set r, c | 0 <= r < 3 && 0 <= c < 3 :: BlockSlot(sr, sc, r, c))
  }

  /** Each slot of the row scan lies on the board and in the unit of (row, column). */
  lemma RowSlotInUnit(row: int, column: int, i: int)
    requires 0 <= row <= 8 && 0 <= column <= 8 && 0 <= i < 9
    ensures 0 <= RowSlot(row, i) < CellCount && InUnit(RowSlot(row, i), row, column)
  {
    IndexParts(row, i);
  }

  /** Each slot of the column scan lies on the board and in the unit of (row, column). */
  lemma ColumnSlotInUnit(row: int, column: int, i: int)
    requires 0 <= row <= 8 && 0 <= column <= 8 && 0 <= i < 9
    ensures 0 <= ColumnSlot(column, i) < CellCount && InUnit(ColumnSlot(column, i), row, column)
  {
    IndexParts(i, column);
  }

  /** Each slot of the block scan lies on the board and in the unit of (row, column). */
  lemma BlockSlotInUnit(row: int, column: int, r: int, c: int)
    requires 0 <= row <= 8 && 0 <= column <= 8 && 0 <= r < 3 && 0 <= c < 3
    ensures var (sr, sc) := BlockOrigin(row, column);
      0 <= BlockSlot(sr, sc, r, c) < CellCount && InUnit(BlockSlot(sr, sc, r, c), row, column)
  {
    var (sr, sc) := BlockOrigin(row, column);
    IndexParts(sr + r, sc + c);
  }

  /** Every index in unit (row, column) is hit by one of the three scans. */
  lemma UnitCovered(k: int, row: int, column: int)
    requires 0 <= row <= 8 && 0 <= column <= 8 && 0 <= k < CellCount && InUnit(k, row, column)
    ensures var (sr, sc) := BlockOrigin(row, column);
      (0 <= k % 9 < 9 && k == RowSlot(row, k % 9)) ||
      (0 <= k / 9 < 9 && k == ColumnSlot(column, k / 9)) ||
      (0 <= k / 9 - sr < 3 && 0 <= k % 9 - sc < 3 && k == BlockSlot(sr, sc, k / 9 - sr, k % 9 - sc))
  {
  }

  /**
   * The scans read exactly the 21 slots of the unit of (row, column), 27
   * reads with repeats, so every index read lies in 0..80.
   */
  lemma ScannedIsUnit(row: int, column: int)
    requires 0 <= row <= 8 && 0 <= column <= 8
    ensures Scanned(row, column) == set k | 0 <= k < CellCount && InUnit(k, row, column)
  {
    var (sr, sc) := BlockOrigin(row, column);
    forall k | k in Scanned(row, column) ensures 0 <= k < CellCount && InUnit(k, row, column) {
      if i :| 0 <= i < 9 && k == RowSlot(row, i) {
        RowSlotInUnit(row, column, i);
      } else if i :| 0 <= i < 9 && k == ColumnSlot(column, i) {
        ColumnSlotInUnit(row, column, i);
      } else {
        var r, c :| 0 <= r < 3 && 0 <= c < 3 && k == BlockSlot(sr, sc, r, c);
        BlockSlotInUnit(row, column, r, c);
      }
    }
    forall k | 0 <= k < CellCount && InUnit(k, row, column) ensures k in Scanned(row, column) {
      UnitCovered(k, row, column);
    }
  }

  /** is_legal does not skip the target cell: a value already there is reported unsafe. */
  lemma SelfConflict(g: seq<Cell>, row: int, column: int)
    requires |g| == CellCount && 0 <= row <= 8 && 0 <= column <= 8
    ensures Conflicts(g, row, column, g[row * 9 + column].val)
  {
    IndexParts(row, column);
    assert InUnit(row * 9 + column, row, column);
  }

  /** Placing a value that does not conflict keeps every unit free of repeats. */
  lemma PlaceKeepsLegal(g: seq<Cell>, row: int, column: int, v: int)
    requires LegalState(g) && 0 <= row <= 8 && 0 <= column <= 8
    requires !Conflicts(g, row, column, v)
    ensures LegalState(g[row * 9 + column := g[row * 9 + column].(val := v)])
  {
    var k := row * 9 + column;
    var h := g[k := g[k].(val := v)];
    IndexParts(row, column);
    forall i, j | 0 <= i < CellCount && 0 <= j < CellCount && i != j && Peers(i, j) && Filled(h[i])
      ensures h[i].val != h[j].val
    {
      if i == k {
        assert InUnit(j, row, column);
      } else if j == k {
        assert InUnit(i, row, column);
      }
    }
  }

  /** Writing a non-filled value never creates a repeat. */
  lemma ClearKeepsLegal(g: seq<Cell>, k: int, x: int)
    requires LegalState(g) && 0 <= k < CellCount && x <= Empty
    ensures LegalState(g[k := g[k].(val := x)])
  {
    var h := g[k := g[k].(val := x)];
    forall i, j | 0 <= i < CellCount && 0 <= j < CellCount && i != j && Peers(i, j) && Filled(h[i])
      ensures h[i].val != h[j].val
    {
      assert i != k;
      if j != k {
        assert g[i].val != g[j].val;
      }
    }
  }

  /**
   * Overwriting a cell that does not hold `v` with another value that is not
   * `v` leaves the verdict for `v` unchanged anywhere on the board.
   */
  lemma ConflictsAfterWrite(g: seq<Cell>, k: int, x: int, row: int, column: int, v: int)
    requires |g| == CellCount && 0 <= k < CellCount && g[k].val != v && x != v
    ensures Conflicts(g[k := g[k].(val := x)], row, column, v) <==> Conflicts(g, row, column, v)
  {
    var h := g[k := g[k].(val := x)];
    if Conflicts(h, row, column, v) {
      var j :| 0 <= j < CellCount && InUnit(j, row, column) && h[j].val == v;
      assert g[j].val == v;
    }
    if Conflicts(g, row, column, v) {
      var j :| 0 <= j < CellCount && InUnit(j, row, column) && g[j].val == v;
      assert h[j].val == v;
    }
  }
}
