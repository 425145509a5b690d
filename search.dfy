/**
 * solve_puzzle as a function of the board, and what it amounts to.
 *
 * `Solve` and `Candidates` follow the recursion and the candidate loop of
 * the code branch for branch. `Greedy` is an independent description of the
 * same walk: visit the cells in row-major order, give each empty cell the
 * smallest candidate that does not conflict, stop at the first empty cell
 * that has none, and fault on slot 81 when the walk runs off the board.
 * Because every return of solve_puzzle is 0, no placement is ever taken
 * back, and `SolveIsGreedy` proves the two descriptions equal.
 */
module Search {
  import opened Cells
  import opened Legality

  /** The board after a call, and how the call ended. */
  datatype Run = Run(grid: seq<Cell>, outcome: Outcome)

  /** Linear index of the cell inspected for cursor (row, column), after the column wrap. */
  function Visit(row: int, column: int): int {
    if column > 8 then (row + 1) * 9 else row * 9 + column
  }

  /** Termination measure: the cells left before the cursor passes slot 81. */
  function Rank(row: int, column: int): int {
    if row > 8 then 0 else 82 - Visit(row, column)
  }

  /** solve_puzzle(grid, row, column). */
  ghost function Solve(g: seq<Cell>, row: int, column: int): (run: Run)
    requires |g| == CellCount && 0 <= row && 0 <= column
    ensures |run.grid| == CellCount
    ensures run.outcome.OutOfRange? ==> run.outcome.index == CellCount
    decreases Rank(row, column), 1, 0
  {
    if row > 8 then Run(g, Returned(0))
    else
      var r := if column > 8 then row + 1 else row;
      var c := if column > 8 then 0 else column;
      var k := r * 9 + c;
      if k >= CellCount then Run(g, OutOfRange(k))
      else if Filled(g[k]) then Solve(g, r, c + 1)
      else Candidates(g, r, c, 0)
  }

  /** The candidate loop of solve_puzzle at the empty cell (r, c), from candidate i on. */
  ghost function Candidates(g: seq<Cell>, r: int, c: int, i: int): (run: Run)
    requires |g| == CellCount && 0 <= r <= 8 && 0 <= c <= 8 && 0 <= i <= 9
    ensures |run.grid| == CellCount
    ensures run.outcome.OutOfRange? ==> run.outcome.index == CellCount
    decreases Rank(r, c), 0, 9 - i
  {
    var k := r * 9 + c;
    if i == 9 then Run(g, Returned(0))
    else if !Conflicts(g, r, c, i) then
      var sub := Solve(g[k := g[k].(val := i)], r, c + 1);
      if sub.outcome == Returned(0) || sub.outcome.OutOfRange? then sub
      else Candidates(sub.grid[k := sub.grid[k].(val := Empty)], r, c, i + 1)
    else Candidates(g[k := g[k].(val := Empty)], r, c, i + 1)
  }

  /** The smallest candidate in i..8 that does not conflict at (r, c), if there is one. */
  ghost function FirstLegal(g: seq<Cell>, r: int, c: int, i: int): (v: Option<int>)
    requires |g| == CellCount && 0 <= i <= 9
    ensures v.Some? ==> i <= v.value <= 8 && !Conflicts(g, r, c, v.value)
    ensures forall u :: i <= u <= 8 && (v.None? || u < v.value) ==> Conflicts(g, r, c, u)
    decreases 9 - i
  {
    if i == 9 then None
    else if !Conflicts(g, r, c, i) then Some(i)
    else FirstLegal(g, r, c, i + 1)
  }

  /** The walk from slot k without backtracking. */
  ghost function Greedy(g: seq<Cell>, k: int): Run
    requires |g| == CellCount && 0 <= k <= CellCount
    decreases CellCount - k, 1
  {
    if k == CellCount then Run(g, OutOfRange(CellCount))
    else if Filled(g[k]) then Greedy(g, k + 1)
    else Settle(g, k, FirstLegal(g, k / 9, k % 9, 0))
  }

  /**
   * The walk at the empty slot k once its candidate is chosen: with none,
   * the cell is left at -1 and the walk returns 0; otherwise the candidate
   * is written and the walk goes on with the next slot.
   */
  ghost function Settle(g: seq<Cell>, k: int, choice: Option<int>): Run
    requires |g| == CellCount && 0 <= k < CellCount
    decreases CellCount - k, 0
  {
    match choice
    case None => Run(g[k := g[k].(val := Empty)], Returned(0))
    case Some(v) => Greedy(g[k := g[k].(val := v)], k + 1)
  }

  /** The cursor moves one slot forward on every recursive call. */
  lemma NextVisit(row: int, column: int)
    requires 0 <= row <= 8 && 0 <= column
    ensures var r := if column > 8 then row + 1 else row;
            var c := if column > 8 then 0 else column;
            Visit(r, c + 1) == Visit(row, column) + 1 == r * 9 + c + 1
  {
  }

  /**
   * h differs from g only in empty cells at or after slot k, and there only
   * in the value, which is -1 or a candidate 0..8.
   */
  ghost predicate ChangesFrom(g: seq<Cell>, h: seq<Cell>, k: int) {
    |g| == |h| == CellCount &&
    forall j :: 0 <= j < CellCount ==>
      h[j] == g[j] ||
      (k <= j && !Filled(g[j]) && h[j] == g[j].(val := h[j].val) && (h[j].val == Empty || 0 <= h[j].val <= 8))
  }

  /** The walk changes only empty cells at or after k, only their values, and only to -1 or 0..8. */
  lemma {:induction false} GreedyFrame(g: seq<Cell>, k: int)
    requires |g| == CellCount && 0 <= k <= CellCount
    ensures ChangesFrom(g, Greedy(g, k).grid, k)
    decreases CellCount - k, 1
  {
    if k < CellCount {
      if Filled(g[k]) {
        GreedyFrame(g, k + 1);
      } else {
        SettleFrame(g, k, FirstLegal(g, k / 9, k % 9, 0));
      }
    }
  }

  /** Settling the empty slot k changes only empty cells from k on, and only to -1 or 0..8. */
  lemma {:induction false} SettleFrame(g: seq<Cell>, k: int, choice: Option<int>)
    requires |g| == CellCount && 0 <= k < CellCount && !Filled(g[k])
    requires choice.Some? ==> 0 <= choice.value <= 8
    ensures ChangesFrom(g, Settle(g, k, choice).grid, k)
    decreases CellCount - k, 0
  {
    match choice
    case None =>
      var g' := g[k := g[k].(val := Empty)];
      ChangesFromStep(g, g', k, Empty);
    case Some(v) =>
      var g' := g[k := g[k].(val := v)];
      GreedyFrame(g', k + 1);
      ChangesFromStep(g, Greedy(g', k + 1).grid, k, v);
  }

  /** Writing -1 or 0..8 into the empty slot k, then changing cells from k + 1 on, changes cells from k on. */
  lemma ChangesFromStep(g: seq<Cell>, h: seq<Cell>, k: int, v: int)
    requires |g| == CellCount && 0 <= k < CellCount && !Filled(g[k]) && (v == Empty || 0 <= v <= 8)
    requires h == g[k := g[k].(val := v)] || ChangesFrom(g[k := g[k].(val := v)], h, k + 1)
    ensures ChangesFrom(g, h, k)
  {
    var g' := g[k := g[k].(val := v)];
    forall j | 0 <= j < CellCount
      ensures h[j] == g[j] ||
        (k <= j && !Filled(g[j]) && h[j] == g[j].(val := h[j].val) && (h[j].val == Empty || 0 <= h[j].val <= 8))
    {
      if j == k {
        assert h[j] == g'[j];
      } else {
        assert g'[j] == g[j];
      }
    }
  }

  /**
   * The walk ends with 0 or with the fault at slot 81, and it faults exactly
   * when every cell from k on ends filled.
   */
  lemma {:induction false} GreedyOutcome(g: seq<Cell>, k: int)
    requires |g| == CellCount && 0 <= k <= CellCount
    ensures var run := Greedy(g, k);
      |run.grid| == CellCount &&
      (run.outcome == Returned(0) || run.outcome == OutOfRange(CellCount)) &&
      (run.outcome == OutOfRange(CellCount) <==> forall j :: k <= j < CellCount ==> Filled(run.grid[j]))
    decreases CellCount - k, 1
  {
    if k < CellCount {
      if Filled(g[k]) {
        GreedyOutcome(g, k + 1);
        GreedyFrame(g, k + 1);
        FilledFrom(Greedy(g, k + 1).grid, k);
      } else {
        SettleOutcome(g, k, FirstLegal(g, k / 9, k % 9, 0));
      }
    }
  }

  /** Settling the empty slot k ends with 0, or with the fault once every cell from k on is filled. */
  lemma {:induction false} SettleOutcome(g: seq<Cell>, k: int, choice: Option<int>)
    requires |g| == CellCount && 0 <= k < CellCount
    requires choice.Some? ==> 0 <= choice.value <= 8
    ensures var run := Settle(g, k, choice);
      |run.grid| == CellCount &&
      (run.outcome == Returned(0) || run.outcome == OutOfRange(CellCount)) &&
      (run.outcome == OutOfRange(CellCount) <==> forall j :: k <= j < CellCount ==> Filled(run.grid[j]))
    decreases CellCount - k, 0
  {
    match choice
    case None =>
      var h := g[k := g[k].(val := Empty)];
      assert !Filled(h[k]);
    case Some(v) =>
      var g' := g[k := g[k].(val := v)];
      GreedyOutcome(g', k + 1);
      GreedyFrame(g', k + 1);
      FilledFrom(Greedy(g', k + 1).grid, k);
  }

  /** Every cell from k on is filled exactly when cell k is and every cell from k + 1 on is. */
  lemma FilledFrom(h: seq<Cell>, k: int)
    requires |h| == CellCount && 0 <= k < CellCount
    ensures (forall j :: k <= j < CellCount ==> Filled(h[j])) <==>
      Filled(h[k]) && forall j :: k + 1 <= j < CellCount ==> Filled(h[j])
  {
  }

  /** Every write of the walk keeps the board free of repeated values. */
  lemma {:induction false} GreedyKeepsLegal(g: seq<Cell>, k: int)
    requires LegalState(g) && 0 <= k <= CellCount
    ensures LegalState(Greedy(g, k).grid)
    decreases CellCount - k
  {
    if k < CellCount && !Filled(g[k]) {
      IndexParts(k / 9, k % 9);
      match FirstLegal(g, k / 9, k % 9, 0)
      case None =>
        ClearKeepsLegal(g, k, Empty);
      case Some(v) =>
        PlaceKeepsLegal(g, k / 9, k % 9, v);
        GreedyKeepsLegal(g[k := g[k].(val := v)], k + 1);
    } else if k < CellCount {
      GreedyKeepsLegal(g, k + 1);
    }
  }

  /** Clearing the target cell again does not change which candidates conflict. */
  lemma {:induction false} FirstLegalAfterClear(g: seq<Cell>, r: int, c: int, i: int)
    requires |g| == CellCount && 0 <= r <= 8 && 0 <= c <= 8 && 0 <= i <= 9
    requires !Filled(g[r * 9 + c])
    ensures FirstLegal(g[r * 9 + c := g[r * 9 + c].(val := Empty)], r, c, i) == FirstLegal(g, r, c, i)
    decreases 9 - i
  {
    if i < 9 {
      ConflictsAfterWrite(g, r * 9 + c, Empty, r, c, i);
      FirstLegalAfterClear(g, r, c, i + 1);
    }
  }

  /** solve_puzzle never backtracks: it is the greedy walk from the cell the cursor names. */
  lemma {:induction false} SolveIsGreedy(g: seq<Cell>, row: int, column: int)
    requires |g| == CellCount && 0 <= row <= 8 && 0 <= column
    ensures Solve(g, row, column) == Greedy(g, Visit(row, column))
    decreases Rank(row, column), 1, 0, 0
  {
    var r := if column > 8 then row + 1 else row;
    var c := if column > 8 then 0 else column;
    var k := r * 9 + c;
    if k < CellCount {
      IndexParts(r, c);
      NextVisit(row, column);
      if Filled(g[k]) {
        SolveIsGreedy(g, r, c + 1);
      } else {
        CandidatesIsGreedy(g, r, c, 0);
      }
    }
  }

  /** The candidate loop keeps the first candidate that does not conflict, or leaves the cell at -1. */
  lemma {:induction false} CandidatesIsGreedy(g: seq<Cell>, r: int, c: int, i: int)
    requires |g| == CellCount && 0 <= r <= 8 && 0 <= c <= 8 && 0 <= i <= 9
    requires !Filled(g[r * 9 + c]) && (i > 0 ==> g[r * 9 + c].val == Empty)
    ensures Candidates(g, r, c, i) == Settle(g, r * 9 + c, FirstLegal(g, r, c, i))
    decreases Rank(r, c), 0, 9 - i, 1
  {
    var k := r * 9 + c;
    if i == 9 {
      assert g[k := g[k].(val := Empty)] == g;
    } else if !Conflicts(g, r, c, i) {
      AcceptIsGreedy(g, r, c, i);
    } else {
      RejectIsGreedy(g, r, c, i);
    }
  }

  /** A candidate that does not conflict is kept, and the walk goes on with the next slot. */
  lemma {:induction false} AcceptIsGreedy(g: seq<Cell>, r: int, c: int, i: int)
    requires |g| == CellCount && 0 <= r <= 8 && 0 <= c <= 8 && 0 <= i < 9
    requires !Conflicts(g, r, c, i)
    ensures Candidates(g, r, c, i) == Settle(g, r * 9 + c, Some(i))
    decreases Rank(r, c), 0, 9 - i, 0
  {
    var k := r * 9 + c;
    var g' := g[k := g[k].(val := i)];
    NextVisit(r, c);
    SolveIsGreedy(g', r, c + 1);
    GreedyOutcome(g', k + 1);
  }

  /** A conflicting candidate resets the cell to -1 and the loop moves on to the next one. */
  lemma {:induction false} RejectIsGreedy(g: seq<Cell>, r: int, c: int, i: int)
    requires |g| == CellCount && 0 <= r <= 8 && 0 <= c <= 8 && 0 <= i < 9
    requires !Filled(g[r * 9 + c]) && Conflicts(g, r, c, i)
    ensures Candidates(g, r, c, i) == Settle(g, r * 9 + c, FirstLegal(g, r, c, i + 1))
    decreases Rank(r, c), 0, 9 - i, 0
  {
    var k := r * 9 + c;
    var g1 := g[k := g[k].(val := Empty)];
    assert Candidates(g, r, c, i) == Candidates(g1, r, c, i + 1);
    CandidatesIsGreedy(g1, r, c, i + 1);
    FirstLegalAfterClear(g, r, c, i + 1);
    SettleAfterClear(g, k, FirstLegal(g, r, c, i + 1));
  }

  /** Settling a slot does not depend on which negative value it held before. */
  lemma SettleAfterClear(g: seq<Cell>, k: int, choice: Option<int>)
    requires |g| == CellCount && 0 <= k < CellCount
    ensures Settle(g[k := g[k].(val := Empty)], k, choice) == Settle(g, k, choice)
  {
    var g1 := g[k := g[k].(val := Empty)];
    match choice
    case None =>
      assert g1[k := g1[k].(val := Empty)] == g[k := g[k].(val := Empty)];
    case Some(v) =>
      assert g1[k := g1[k].(val := v)] == g[k := g[k].(val := v)];
  }

  /**
   * Every return of solve_puzzle is 0: the only other ending is the fault on
   * slot 81, and that happens exactly when the walk leaves every cell from
   * the cursor on filled.
   */
  lemma SolveOutcome(g: seq<Cell>, row: int, column: int)
    requires |g| == CellCount && 0 <= row && 0 <= column
    ensures var run := Solve(g, row, column);
      (run.outcome == Returned(0) || run.outcome == OutOfRange(CellCount)) &&
      (run.outcome == OutOfRange(CellCount) <==>
         row <= 8 && forall j :: Visit(row, column) <= j < CellCount ==> Filled(run.grid[j]))
  {
    if row <= 8 {
      SolveIsGreedy(g, row, column);
      GreedyOutcome(g, Visit(row, column));
    }
  }

  /**
   * solve_puzzle changes only values, only of empty cells at or after the
   * cursor, and only to -1 or a candidate 0..8; past the last row it changes
   * nothing.
   */
  lemma SolveFrame(g: seq<Cell>, row: int, column: int)
    requires |g| == CellCount && 0 <= row && 0 <= column
    ensures var h := Solve(g, row, column).grid;
      (row > 8 ==> Solve(g, row, column) == Run(g, Returned(0))) &&
      (forall j :: 0 <= j < CellCount ==> h[j].row == g[j].row && h[j].column == g[j].column) &&
      (forall j :: 0 <= j < CellCount && (j < Visit(row, column) || Filled(g[j])) ==> h[j] == g[j]) &&
      (forall j :: 0 <= j < CellCount && h[j] != g[j] ==> h[j].val == Empty || 0 <= h[j].val <= 8) &&
      (Positioned(g) ==> Positioned(h)) &&
      (InDomain(g) ==> InDomain(h))
  {
    if row <= 8 {
      SolveIsGreedy(g, row, column);
      GreedyFrame(g, Visit(row, column));
    }
  }

  /** A board with no repeated value in any unit keeps that property through solve_puzzle. */
  lemma SolveKeepsLegal(g: seq<Cell>, row: int, column: int)
    requires LegalState(g) && 0 <= row && 0 <= column
    ensures LegalState(Solve(g, row, column).grid)
  {
    if row <= 8 {
      SolveIsGreedy(g, row, column);
      GreedyKeepsLegal(g, Visit(row, column));
    }
  }

  /**
   * On a board with no empty cell the walk skips every cell and faults on
   * slot 81 instead of returning 0.
   */
  lemma FullBoardReadsPastEnd(g: seq<Cell>)
    requires |g| == CellCount && forall j :: 0 <= j < CellCount ==> Filled(g[j])
    ensures Solve(g, 0, 0) == Run(g, OutOfRange(CellCount))
  {
    SolveIsGreedy(g, 0, 0);
    GreedyFrame(g, 0);
    GreedyOutcome(g, 0);
    assert Greedy(g, 0).grid == g;
  }

  /** The wrap from column 9 of the last row inspects slot 81 before row > 8 is tested again. */
  lemma WrapPastLastRow(g: seq<Cell>, column: int)
    requires |g| == CellCount && column > 8
    ensures Solve(g, 8, column) == Run(g, OutOfRange(81))
  {
  }
}
