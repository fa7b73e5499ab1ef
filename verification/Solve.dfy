/**
  `solveBoard`: the deterministic backtracking search. It fills empty cells in
  row-major order, each with the smallest digit its sets allow above
  `startingNumber`, pushes the cell, and on a dead end pops the last cell and
  resumes it above the digit it held.
 */
module Solve {
  import opened Board
  import opened Constraints
  import opened Wrappers
  import opened Scan
  import opened Search
  import opened Units

  /** Cells are stacked in strictly increasing row-major order, all before `cur`,
      and every cell before `cur` is filled. */
  ghost predicate RowMajor(b: Grid, stack: seq<Cell>, cur: Cell)
    requires WellShaped(b)
  {
    && OnBoard(cur.0, cur.1)
    && (forall r, c :: OnBoard(r, c) && r * BoardSize + c < cur.0 * BoardSize + cur.1 ==> b[r][c] != 0)
    && (forall i :: 0 <= i < |stack| ==> stack[i].0 * BoardSize + stack[i].1 < cur.0 * BoardSize + cur.1)
    && (forall i, j :: 0 <= i < j < |stack| ==> stack[i].0 * BoardSize + stack[i].1 < stack[j].0 * BoardSize + stack[j].1)
  }

  /** Every solution of `b0` is still ahead of the search. */
  ghost predicate AllAhead(b0: Grid, stack: seq<Cell>, ds: seq<int>, cur: Cell, start: int)
    requires WellShaped(b0) && OnBoardCells(stack) && |ds| == |stack| && OnBoard(cur.0, cur.1)
  {
    forall s :: SolutionOf(s, b0) ==> Ahead(s, stack, ds, cur, start)
  }

  /** The loop invariant of `solveBoard`: `rowCol` is the cell to fill next
      (`None` once the board is full) and `start` the digit to continue after. */
  ghost predicate SolveState(b0: Grid, b: Grid, t: Tracker, stack: seq<Cell>, ds: seq<int>, rowCol: Option<Cell>, start: int)
  {
    && SearchInv(b0, b, t, stack, ds)
    && (rowCol.None? ==> Complete(b))
    && (rowCol.Some? ==>
          && RowMajor(b, stack, rowCol.value)
          && b[rowCol.value.0][rowCol.value.1] == 0
          && 0 <= start <= BoardSize
          && AllAhead(b0, stack, ds, rowCol.value, start))
  }

  /** Moving on from a filled `cur` to the next empty cell keeps the row-major order. */
  lemma RowMajorPush(b: Grid, stack: seq<Cell>, cur: Cell, next: Option<Cell>)
    requires WellShaped(b) && RowMajor(b, stack, cur) && b[cur.0][cur.1] != 0
    requires FirstZeroFrom(b, cur.0 * BoardSize + cur.1, next)
    ensures next.None? ==> Complete(b)
    ensures next.Some? ==> RowMajor(b, stack + [cur], next.value)
  {
    if next.Some? {
      var n := next.value;
      assert n != cur;
      assert n.0 * BoardSize + n.1 != cur.0 * BoardSize + cur.1;
      var stack' := stack + [cur];
      forall i, j | 0 <= i < j < |stack'|
        ensures stack'[i].0 * BoardSize + stack'[i].1 < stack'[j].0 * BoardSize + stack'[j].1
      {
        if j == |stack| {
          assert stack'[i] == stack[i];
        }
      }
    }
  }

  /** Popping the top cell makes it the cell to retry. */
  lemma RowMajorPop(b: Grid, b': Grid, stack: seq<Cell>, cur: Cell)
    requires WellShaped(b) && WellShaped(b') && RowMajor(b, stack, cur) && |stack| >= 1
    requires forall r, c :: OnBoard(r, c) && (r, c) != stack[|stack| - 1] ==> b'[r][c] == b[r][c]
    requires OnBoard(stack[|stack| - 1].0, stack[|stack| - 1].1)
    ensures RowMajor(b', stack[..|stack| - 1], stack[|stack| - 1])
  {
    var k := |stack|;
    var p := stack[k - 1];
    var front := stack[..k - 1];
    forall i | 0 <= i < k - 1
      ensures front[i].0 * BoardSize + front[i].1 < p.0 * BoardSize + p.1
    {
      assert front[i] == stack[i];
    }
  }

  /** One step of `solveBoard` when `findAnswer` finds a digit `a`: place and
      push it, then move on to the next empty cell `next`. */
  lemma SolvePush(b0: Grid, b: Grid, t: Tracker, stack: seq<Cell>, ds: seq<int>, cur: Cell, start: int, next: Option<Cell>)
    requires SolveState(b0, b, t, stack, ds, Some(cur), start)
    requires FindAnswer(t, cur.0, cur.1, start) > 0
    requires FirstZeroFrom(PlaceNumber(b, t, cur.0, cur.1, FindAnswer(t, cur.0, cur.1, start)).0, cur.0 * BoardSize + cur.1, next)
    ensures var a := FindAnswer(t, cur.0, cur.1, start);
      var placed := PlaceNumber(b, t, cur.0, cur.1, a);
      && SolveState(b0, placed.0, placed.1, stack + [cur], ds + [a], next, 0)
      && |ds| < |EmptyCells(b0)|
      && Rank(ds + [a], 0, |EmptyCells(b0)|) < Rank(ds, start, |EmptyCells(b0)|)
  {
    var a := FindAnswer(t, cur.0, cur.1, start);
    var (b', t') := PlaceNumber(b, t, cur.0, cur.1, a);
    assert cur in EmptyCells(b);
    InvPush(b0, b, t, stack, ds, cur.0, cur.1, a);
    RankPush(ds, start, a, |EmptyCells(b0)|);
    RowMajorPush(b', stack, cur, next);
    if next.Some? {
      forall s | SolutionOf(s, b0)
        ensures Ahead(s, stack + [cur], ds + [a], next.value, 0)
      {
        FrontierPush(b0, b, t, stack, ds, cur, start, s, next.value);
      }
    }
  }

  /** At a dead end every solution leaves the path at a stacked cell. */
  lemma SolveDeadEnd(b0: Grid, b: Grid, t: Tracker, stack: seq<Cell>, ds: seq<int>, cur: Cell, start: int)
    requires SolveState(b0, b, t, stack, ds, Some(cur), start)
    requires FindAnswer(t, cur.0, cur.1, start) == 0
    ensures forall s :: SolutionOf(s, b0) ==> Beyond(s, stack, ds)
  {
    forall s | SolutionOf(s, b0)
      ensures Beyond(s, stack, ds)
    {
      FrontierDeadEnd(b0, b, t, stack, ds, cur, start, s);
    }
  }

  /** Solutions that leave the path at a stacked cell are ahead once the top cell is retried. */
  lemma AllAheadAfterPop(b0: Grid, stack: seq<Cell>, ds: seq<int>)
    requires WellShaped(b0) && OnBoardCells(stack) && |ds| == |stack| >= 1
    requires forall s :: SolutionOf(s, b0) ==> Beyond(s, stack, ds)
    ensures var k := |stack|; AllAhead(b0, stack[..k - 1], ds[..k - 1], stack[k - 1], ds[k - 1])
  {
    var k := |stack|;
    forall s | SolutionOf(s, b0)
      ensures Ahead(s, stack[..k - 1], ds[..k - 1], stack[k - 1], ds[k - 1])
    {
      FrontierPop(stack, ds, s);
    }
  }

  /** One step of `solveBoard` when `findAnswer` finds nothing: with an empty
      stack the start board has no solution; otherwise pop the top cell, delete
      its digit and retry it above that digit. */
  lemma SolveBacktrack(b0: Grid, b: Grid, t: Tracker, stack: seq<Cell>, ds: seq<int>, cur: Cell, start: int)
    requires SolveState(b0, b, t, stack, ds, Some(cur), start)
    requires FindAnswer(t, cur.0, cur.1, start) == 0
    ensures DeleteNumberFromSets(b, t, cur.0, cur.1) == (b, t)
    ensures |stack| == 0 ==> NoSolution(b0)
    ensures |stack| > 0 ==>
      var top := stack[|stack| - 1];
      var popped := DeleteNumberFromSets(b, t, top.0, top.1);
      && OnBoard(top.0, top.1)
      && SolveState(b0, popped.0, popped.1, stack[..|stack| - 1], ds[..|ds| - 1], Some(top), b[top.0][top.1])
      && Rank(ds[..|ds| - 1], b[top.0][top.1], |EmptyCells(b0)|) < Rank(ds, start, |EmptyCells(b0)|)
  {
    SolveDeadEnd(b0, b, t, stack, ds, cur, start);
    if |stack| > 0 {
      var top := stack[|stack| - 1];
      var popped := DeleteNumberFromSets(b, t, top.0, top.1);
      InvPop(b0, b, t, stack, ds);
      RankPop(ds, start, |EmptyCells(b0)|);
      AllAheadAfterPop(b0, stack, ds);
      RowMajorPop(b, popped.0, stack, cur);
    }
  }

  /** `solveBoard` on a validated board `b0` whose sets are `t0`.

      It either fills the board with a solution of `b0`, which then passes
      `checkIfValidSolution`, or, when `b0` has no solution, gives back the
      board and the sets it started from. It never changes a clue. */
  method SolveBoard(b0: Grid, t0: Tracker) returns (b: Grid, t: Tracker)
    requires ValidStart(b0) && Tracks(b0, t0)
    ensures Tracks(b, t) && InRange(b) && NoConflicts(b)
    ensures Extends(b, b0)
    ensures Complete(b) <==> !NoSolution(b0)
    ensures Complete(b) ==> SolutionOf(b, b0) && ValidSolution(b)
    ensures !Complete(b) ==> b == b0 && t == t0
  {
    b, t := b0, t0;
    var stack: seq<Cell> := [];
    ghost var ds: seq<int> := [];
    ghost var n := |EmptyCells(b0)|;
    InvInit(b0, t0);
    var rowCol := FindNextZero(b, 0, 0);
    var startingNumber := 0;
    while rowCol.Some?
      invariant SolveState(b0, b, t, stack, ds, rowCol, startingNumber)
      invariant |ds| <= n
      decreases if rowCol.Some? then Rank(ds, startingNumber, n) + 1 else 0
    {
      var row, col := rowCol.value.0, rowCol.value.1;
      RankNonNegative(ds, startingNumber, n);
      var answer := FindAnswer(t, row, col, startingNumber);
      if answer > 0 {
        var placed := PlaceNumber(b, t, row, col, answer);
        var next := FindNextZero(placed.0, row, col);
        SolvePush(b0, b, t, stack, ds, (row, col), startingNumber, next);
        b, t := placed.0, placed.1;
        stack := stack + [(row, col)];
        ds := ds + [answer];
        rowCol := next;
        startingNumber := 0;
      } else {
        SolveBacktrack(b0, b, t, stack, ds, (row, col), startingNumber);
        // `findAnswer` found nothing; the cell is still empty, so this delete changes nothing.
        var cleared := DeleteNumberFromSets(b, t, row, col);
        b, t := cleared.0, cleared.1;
        if |stack| > 0 {
          var top := stack[|stack| - 1];
          startingNumber := b[top.0][top.1];
          var popped := DeleteNumberFromSets(b, t, top.0, top.1);
          b, t := popped.0, popped.1;
          stack := stack[..|stack| - 1];
          ds := ds[..|ds| - 1];
          rowCol := Some(top);
        } else {
          break;
        }
      }
    }
    if rowCol.None? {
      InvComplete(b0, b, t, stack, ds);
      SolvedIffValidSolution(b);
    } else {
      InvEmptyStack(b0, b, t);
      TrackerUnique(b0, t, t0);
    }
  }
}
