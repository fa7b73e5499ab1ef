/**
  Choosing the next empty cell: the row-major scan of the deterministic solver
  and the minimum-remaining-values scan of the solution counter.
 */
module Scan {
  import opened Board
  import opened Constraints
  import opened Wrappers

  /** `res` is the first empty cell at row-major position `from` or later, or
      `None` when every cell from there on is filled. */
  ghost predicate FirstZeroFrom(b: Grid, from: int, res: Option<Cell>)
    requires WellShaped(b)
  {
    && (res.None? <==> forall r, c :: OnBoard(r, c) && r * BoardSize + c >= from ==> b[r][c] != 0)
    && (res.Some? ==>
          && OnBoard(res.value.0, res.value.1)
          && b[res.value.0][res.value.1] == 0
          && res.value.0 * BoardSize + res.value.1 >= from
          && forall r, c :: OnBoard(r, c) && from <= r * BoardSize + c < res.value.0 * BoardSize + res.value.1 ==> b[r][c] != 0)
  }

  /** `findNextZero`: the first empty cell at or after `(startRow, startCol)` in
      row-major order, or `None` when every such cell is filled. */
  method FindNextZero(b: Grid, startRow: int, startCol: int) returns (res: Option<Cell>)
    requires WellShaped(b)
    requires 0 <= startRow && 0 <= startCol <= BoardSize
    ensures FirstZeroFrom(b, startRow * BoardSize + startCol, res)
  {
    var sc := startCol;
    var row := startRow;
    while row < BoardSize
      invariant startRow <= row
      invariant row > startRow ==> row <= BoardSize
      invariant 0 <= sc <= BoardSize
      invariant row == startRow ==> sc == startCol
      invariant forall r, c :: OnBoard(r, c) && r * BoardSize + c >= startRow * BoardSize + startCol && r < row ==> b[r][c] != 0
    {
      // The start column applies to the first row only.
      if row != startRow {
        sc := 0;
      }
      var col := sc;
      while col < BoardSize
        invariant sc <= col <= BoardSize
        invariant forall c :: sc <= c < col ==> b[row][c] != 0
      {
        if b[row][col] == 0 {
          return Some((row, col));
        }
        col := col + 1;
      }
      row := row + 1;
    }
    return None;
  }

  /** What the minimum-remaining-values scan knows after the first `n` cells:
      no scanned empty cell is a dead end, and `idx` is the first scanned empty
      cell whose count `m` is the smallest so far (`None` and 10 before any). */
  ghost predicate MrvSoFar(b: Grid, t: Tracker, n: int, idx: Option<Cell>, m: int)
    requires WellShaped(b) && t.Valid()
  {
    && (forall r, c :: OnBoard(r, c) && r * BoardSize + c < n && b[r][c] == 0 ==> MrvHelper(t, r, c) > 0)
    && (idx.None? <==> forall r, c :: OnBoard(r, c) && r * BoardSize + c < n ==> b[r][c] != 0)
    && (idx.None? ==> m == BoardSize + 1)
    && (idx.Some? ==>
         && OnBoard(idx.value.0, idx.value.1)
         && idx.value.0 * BoardSize + idx.value.1 < n
         && b[idx.value.0][idx.value.1] == 0
         && MrvHelper(t, idx.value.0, idx.value.1) == m
         && (forall r, c :: OnBoard(r, c) && r * BoardSize + c < n && b[r][c] == 0 ==> MrvHelper(t, r, c) >= m)
         && (forall r, c :: OnBoard(r, c) && b[r][c] == 0 && r * BoardSize + c < idx.value.0 * BoardSize + idx.value.1 ==>
               MrvHelper(t, r, c) > m))
  }

  /** One step of the scan when the cell is not a dead end. */
  lemma MrvStep(b: Grid, t: Tracker, row: int, col: int, idx: Option<Cell>, m: int)
    requires WellShaped(b) && t.Valid() && OnBoard(row, col)
    requires MrvSoFar(b, t, row * BoardSize + col, idx, m)
    requires b[row][col] == 0 ==> MrvHelper(t, row, col) > 0
    ensures b[row][col] != 0 ==> MrvSoFar(b, t, row * BoardSize + (col + 1), idx, m)
    ensures b[row][col] == 0 && MrvHelper(t, row, col) < m ==>
      MrvSoFar(b, t, row * BoardSize + (col + 1), Some((row, col)), MrvHelper(t, row, col))
    ensures b[row][col] == 0 && MrvHelper(t, row, col) >= m ==> MrvSoFar(b, t, row * BoardSize + (col + 1), idx, m)
  {
    var n := row * BoardSize + col;
    assert forall r, c :: OnBoard(r, c) && r * BoardSize + c < n + 1 ==> r * BoardSize + c < n || (r == row && c == col);
  }

  /** `res` is the cell the minimum-remaining-values rule picks: `None` exactly
      when the board is full; otherwise an empty cell with fewer open digits
      than every empty cell before it, and, unless it is a dead end (no open
      digit), with no more open digits than any empty cell. So a dead end, if
      there is one, is picked first, and otherwise the first cell of minimal count. */
  ghost predicate MrvChoice(b: Grid, t: Tracker, res: Option<Cell>)
    requires WellShaped(b) && t.Valid()
  {
    && (res.None? <==> Complete(b))
    && (res.Some? ==>
          && OnBoard(res.value.0, res.value.1)
          && b[res.value.0][res.value.1] == 0
          && (forall r, c :: OnBoard(r, c) && b[r][c] == 0 && r * BoardSize + c < res.value.0 * BoardSize + res.value.1 ==>
                MrvHelper(t, r, c) > MrvHelper(t, res.value.0, res.value.1))
          && (MrvHelper(t, res.value.0, res.value.1) > 0 ==>
                forall r, c :: OnBoard(r, c) && b[r][c] == 0 ==> MrvHelper(t, r, c) >= MrvHelper(t, res.value.0, res.value.1)))
  }

  /** A dead end met during the scan is the rule's pick. */
  lemma MrvDeadEnd(b: Grid, t: Tracker, row: int, col: int, idx: Option<Cell>, m: int)
    requires WellShaped(b) && t.Valid() && OnBoard(row, col)
    requires MrvSoFar(b, t, row * BoardSize + col, idx, m)
    requires b[row][col] == 0 && MrvHelper(t, row, col) == 0
    ensures MrvChoice(b, t, Some((row, col)))
  {
  }

  /** A scan of all 81 cells without a dead end ends with the rule's pick. */
  lemma MrvDone(b: Grid, t: Tracker, idx: Option<Cell>, m: int)
    requires WellShaped(b) && t.Valid()
    requires MrvSoFar(b, t, CellCount, idx, m)
    ensures MrvChoice(b, t, idx)
  {
    assert forall r, c :: OnBoard(r, c) ==> r * BoardSize + c < CellCount;
  }

  /** `findNextZeroMRV`: scan every cell; return at once the first empty cell
      with no open digit, else the first empty cell (row-major) whose number of
      open digits is smallest; `None` when the board has no empty cell. */
  method FindNextZeroMRV(b: Grid, t: Tracker) returns (res: Option<Cell>)
    requires WellShaped(b) && t.Valid()
    ensures MrvChoice(b, t, res)
  {
    var minimumRemainingValue := BoardSize + 1;
    var mrvIndex: Option<Cell> := None;
    var row := 0;
    while row < BoardSize
      invariant 0 <= row <= BoardSize
      invariant MrvSoFar(b, t, row * BoardSize, mrvIndex, minimumRemainingValue)
    {
      var col := 0;
      while col < BoardSize
        invariant 0 <= col <= BoardSize
        invariant MrvSoFar(b, t, row * BoardSize + col, mrvIndex, minimumRemainingValue)
      {
        if b[row][col] == 0 {
          var answerCount := MrvHelper(t, row, col);
          if answerCount == 0 {
            // A dead end: return it so that the search backtracks at once.
            MrvDeadEnd(b, t, row, col, mrvIndex, minimumRemainingValue);
            return Some((row, col));
          }
          MrvStep(b, t, row, col, mrvIndex, minimumRemainingValue);
          if answerCount < minimumRemainingValue {
            minimumRemainingValue := answerCount;
            mrvIndex := Some((row, col));
          }
        } else {
          MrvStep(b, t, row, col, mrvIndex, minimumRemainingValue);
        }
        col := col + 1;
      }
      row := row + 1;
    }
    MrvDone(b, t, mrvIndex, minimumRemainingValue);
    return mrvIndex;
  }
}
