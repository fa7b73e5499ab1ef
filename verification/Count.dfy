/**
  `countUniqueSolutions`: the same backtracking search as `solveBoard`, but it
  picks cells by the minimum-remaining-values rule, and on reaching a full
  board counts it and backtracks for another, stopping at two.
 */
module Count {
  import opened Board
  import opened Constraints
  import opened Wrappers
  import opened Scan
  import opened Search

  /** The loop invariant of `countUniqueSolutions` while a cell is to be tried:
      `found` holds the full boards counted so far; they are solutions the
      search has passed, and every other solution is still ahead of it. */
  ghost predicate CountState(b0: Grid, b: Grid, t: Tracker, stack: seq<Cell>, ds: seq<int>, cur: Cell, start: int, found: set<Grid>)
  {
    && SearchInv(b0, b, t, stack, ds)
    && OnBoard(cur.0, cur.1) && b[cur.0][cur.1] == 0
    && 0 <= start <= BoardSize
    && (forall x :: x in found ==> SolutionOf(x, b0) && !Ahead(x, stack, ds, cur, start))
    && (forall s :: SolutionOf(s, b0) ==> s in found || Ahead(s, stack, ds, cur, start))
  }

  /** Several solutions rule out both none and exactly one. */
  lemma SeveralExcludes(b0: Grid)
    requires WellShaped(b0)
    ensures SeveralSolutions(b0) ==> !NoSolution(b0) && !UniqueSolution(b0)
  {
  }

  /** The search starts at the cell the rule picks on the start board. */
  lemma CountInit(b0: Grid, t0: Tracker, cur: Cell)
    requires ValidStart(b0) && Tracks(b0, t0) && OnBoard(cur.0, cur.1) && b0[cur.0][cur.1] == 0
    ensures CountState(b0, b0, t0, [], [], cur, 0, {})
  {
    InvInit(b0, t0);
    forall s | SolutionOf(s, b0)
      ensures Ahead(s, [], [], cur, 0)
    {
      assert s[cur.0][cur.1] != 0;
    }
  }

  /** A step that places the answer `a` and moves on to the cell `next` the rule picks. */
  lemma CountPush(b0: Grid, b: Grid, t: Tracker, stack: seq<Cell>, ds: seq<int>, cur: Cell, start: int, found: set<Grid>, next: Cell)
    requires CountState(b0, b, t, stack, ds, cur, start, found)
    requires FindAnswer(t, cur.0, cur.1, start) > 0
    requires var placed := PlaceNumber(b, t, cur.0, cur.1, FindAnswer(t, cur.0, cur.1, start));
      OnBoard(next.0, next.1) && placed.0[next.0][next.1] == 0
    ensures var a := FindAnswer(t, cur.0, cur.1, start);
      var placed := PlaceNumber(b, t, cur.0, cur.1, a);
      && CountState(b0, placed.0, placed.1, stack + [cur], ds + [a], next, 0, found)
      && |ds| < |EmptyCells(b0)|
      && Rank(ds + [a], 0, |EmptyCells(b0)|) < Rank(ds, start, |EmptyCells(b0)|)
  {
    var a := FindAnswer(t, cur.0, cur.1, start);
    assert cur in EmptyCells(b);
    InvPush(b0, b, t, stack, ds, cur.0, cur.1, a);
    RankPush(ds, start, a, |EmptyCells(b0)|);
    forall x | x in found
      ensures !Ahead(x, stack + [cur], ds + [a], next, 0)
    {
      if Ahead(x, stack + [cur], ds + [a], next, 0) {
        AheadAfterPush(x, stack, ds, cur, start, a, next);
      }
    }
    forall s | SolutionOf(s, b0) && s !in found
      ensures Ahead(s, stack + [cur], ds + [a], next, 0)
    {
      FrontierPush(b0, b, t, stack, ds, cur, start, s, next);
    }
  }

  /** A step whose answer `a` fills the board: the full board is a new solution,
      and retrying the cell above `a` (after the pop and delete that restore
      the board and the sets) keeps the invariant with it counted. */
  lemma CountSolved(b0: Grid, b: Grid, t: Tracker, stack: seq<Cell>, ds: seq<int>, cur: Cell, start: int, found: set<Grid>)
    requires CountState(b0, b, t, stack, ds, cur, start, found)
    requires FindAnswer(t, cur.0, cur.1, start) > 0
    requires Complete(PlaceNumber(b, t, cur.0, cur.1, FindAnswer(t, cur.0, cur.1, start)).0)
    ensures var a := FindAnswer(t, cur.0, cur.1, start);
      var placed := PlaceNumber(b, t, cur.0, cur.1, a);
      && !Complete(b0)
      && SolutionOf(placed.0, b0)
      && placed.0 !in found
      && |found + {placed.0}| == |found| + 1
      && Tracks(placed.0, placed.1)
      && DeleteNumberFromSets(placed.0, placed.1, cur.0, cur.1) == (b, t)
      && CountState(b0, b, t, stack, ds, cur, a, found + {placed.0})
      && Rank(ds, a, |EmptyCells(b0)|) < Rank(ds, start, |EmptyCells(b0)|)
  {
    var a := FindAnswer(t, cur.0, cur.1, start);
    var (done, t') := PlaceNumber(b, t, cur.0, cur.1, a);
    assert cur in EmptyCells(b);
    InvPush(b0, b, t, stack, ds, cur.0, cur.1, a);
    InvComplete(b0, done, t', stack + [cur], ds + [a]);
    PlaceThenDelete(b, t, cur.0, cur.1, a);
    RankBump(ds, start, a, |EmptyCells(b0)|);
    forall i | 0 <= i < |stack|
      ensures stack[i] != cur && b[stack[i].0][stack[i].1] == ds[i]
    {
      assert b[stack[i].0][stack[i].1] != 0;
    }
    DoneNotAhead(b, stack, ds, cur, a);
    assert b0[cur.0][cur.1] == 0;
    assert Agree(done, stack, ds, |stack|);
    assert Ahead(done, stack, ds, cur, start);
    forall s | SolutionOf(s, b0) && s != done && s !in found
      ensures Ahead(s, stack, ds, cur, a)
    {
      FrontierSolved(b0, b, t, stack, ds, cur, start, s);
    }
  }

  /** A dead end at `cur`: every solution not yet counted leaves the path at a stacked cell. */
  lemma DeadEndBeyond(b0: Grid, b: Grid, t: Tracker, stack: seq<Cell>, ds: seq<int>, cur: Cell, start: int, found: set<Grid>)
    requires CountState(b0, b, t, stack, ds, cur, start, found)
    requires FindAnswer(t, cur.0, cur.1, start) == 0
    ensures forall s :: SolutionOf(s, b0) && s !in found ==> Beyond(s, stack, ds)
  {
    forall s | SolutionOf(s, b0) && s !in found
      ensures Beyond(s, stack, ds)
    {
      FrontierDeadEnd(b0, b, t, stack, ds, cur, start, s);
    }
  }

  /** After a dead end, popping the top cell and resuming it above its digit
      keeps the counted boards behind and the uncounted solutions ahead. */
  lemma PopFrontier(b0: Grid, b: Grid, stack: seq<Cell>, ds: seq<int>, cur: Cell, start: int, found: set<Grid>)
    requires WellShaped(b0) && OnBoardCells(stack) && |ds| == |stack| >= 1 && OnBoard(cur.0, cur.1)
    requires forall x :: x in found ==> SolutionOf(x, b0) && !Ahead(x, stack, ds, cur, start)
    requires forall s :: SolutionOf(s, b0) && s !in found ==> Beyond(s, stack, ds)
    ensures var k := |stack|;
      && (forall x :: x in found ==> SolutionOf(x, b0) && !Ahead(x, stack[..k - 1], ds[..k - 1], stack[k - 1], ds[k - 1]))
      && (forall s :: SolutionOf(s, b0) ==> s in found || Ahead(s, stack[..k - 1], ds[..k - 1], stack[k - 1], ds[k - 1]))
  {
    var k := |stack|;
    forall s | SolutionOf(s, b0) && s !in found
      ensures Ahead(s, stack[..k - 1], ds[..k - 1], stack[k - 1], ds[k - 1])
    {
      FrontierPop(stack, ds, s);
    }
    forall x | x in found
      ensures !Ahead(x, stack[..k - 1], ds[..k - 1], stack[k - 1], ds[k - 1])
    {
      if Ahead(x, stack[..k - 1], ds[..k - 1], stack[k - 1], ds[k - 1]) {
        AheadAfterPop(x, stack, ds, cur, start);
      }
    }
  }

  /** A step where `findAnswer` finds nothing: with an empty stack every
      solution has been counted; otherwise pop, delete and retry the top cell. */
  lemma CountBacktrack(b0: Grid, b: Grid, t: Tracker, stack: seq<Cell>, ds: seq<int>, cur: Cell, start: int, found: set<Grid>)
    requires CountState(b0, b, t, stack, ds, cur, start, found)
    requires FindAnswer(t, cur.0, cur.1, start) == 0
    ensures DeleteNumberFromSets(b, t, cur.0, cur.1) == (b, t)
    ensures |stack| == 0 ==> b == b0 && forall s :: SolutionOf(s, b0) <==> s in found
    ensures |stack| > 0 ==>
      var top := stack[|stack| - 1];
      var popped := DeleteNumberFromSets(b, t, top.0, top.1);
      && OnBoard(top.0, top.1)
      && CountState(b0, popped.0, popped.1, stack[..|stack| - 1], ds[..|ds| - 1], top, b[top.0][top.1], found)
      && Rank(ds[..|ds| - 1], b[top.0][top.1], |EmptyCells(b0)|) < Rank(ds, start, |EmptyCells(b0)|)
  {
    DeadEndBeyond(b0, b, t, stack, ds, cur, start, found);
    if |stack| > 0 {
      InvPop(b0, b, t, stack, ds);
      RankPop(ds, start, |EmptyCells(b0)|);
      PopFrontier(b0, b, stack, ds, cur, start, found);
    } else {
      InvEmptyStack(b0, b, t);
    }
  }

  /** Two counted boards are two different solutions. */
  lemma TwoFound(b0: Grid, found: set<Grid>)
    requires WellShaped(b0) && |found| == 2
    requires forall x :: x in found ==> SolutionOf(x, b0)
    ensures SeveralSolutions(b0) && !NoSolution(b0) && !UniqueSolution(b0)
  {
    var x :| x in found;
    assert |found - {x}| == 1;
    var y :| y in found - {x};
    SeveralExcludes(b0);
  }

  /** When the search is over with at most one board counted, the count
      tells none from exactly one. */
  lemma CountExhausted(b0: Grid, found: set<Grid>, count: int)
    requires WellShaped(b0) && count == |found| <= 1
    requires forall s :: SolutionOf(s, b0) <==> s in found
    ensures count == 0 <==> NoSolution(b0)
    ensures count == 1 <==> UniqueSolution(b0)
  {
    if count == 1 {
      var x :| x in found;
      assert |found - {x}| == 0;
      assert found == {x};
    }
  }

  /** The loop invariant of `countUniqueSolutions`: `rowCol` is the cell to
      try, `None` only when the start board is already full. */
  ghost predicate CountLoop(b0: Grid, t0: Tracker, b: Grid, t: Tracker, stack: seq<Cell>, ds: seq<int>, rowCol: Option<Cell>, start: int, found: set<Grid>, count: int)
  {
    && Tracks(b0, t0) && SearchInv(b0, b, t, stack, ds) && |ds| <= |EmptyCells(b0)|
    && count == |found| <= 1
    && (rowCol.None? ==> Complete(b0) && b == b0 && t == t0 && found == {})
    && (rowCol.Some? ==> CountState(b0, b, t, stack, ds, rowCol.value, start, found))
  }

  /** One pass of the loop that places `findAnswer`'s digit and finds another empty cell. */
  lemma LoopPush(b0: Grid, t0: Tracker, b: Grid, t: Tracker, stack: seq<Cell>, ds: seq<int>, cur: Cell, start: int, found: set<Grid>, count: int, next: Cell)
    requires CountLoop(b0, t0, b, t, stack, ds, Some(cur), start, found, count)
    requires FindAnswer(t, cur.0, cur.1, start) > 0
    requires var placed := PlaceNumber(b, t, cur.0, cur.1, FindAnswer(t, cur.0, cur.1, start));
      OnBoard(next.0, next.1) && placed.0[next.0][next.1] == 0
    ensures var a := FindAnswer(t, cur.0, cur.1, start);
      var placed := PlaceNumber(b, t, cur.0, cur.1, a);
      && CountLoop(b0, t0, placed.0, placed.1, stack + [cur], ds + [a], Some(next), 0, found, count)
      && Rank(ds + [a], 0, |EmptyCells(b0)|) < Rank(ds, start, |EmptyCells(b0)|)
  {
    CountPush(b0, b, t, stack, ds, cur, start, found, next);
  }

  /** One pass of the loop whose digit fills the board: the full board is a
      solution; at the second one the search stops, and after the first it
      goes on from the same cell above the digit. */
  lemma LoopSolved(b0: Grid, t0: Tracker, b: Grid, t: Tracker, stack: seq<Cell>, ds: seq<int>, cur: Cell, start: int, found: set<Grid>, count: int)
    requires CountLoop(b0, t0, b, t, stack, ds, Some(cur), start, found, count)
    requires FindAnswer(t, cur.0, cur.1, start) > 0
    requires Complete(PlaceNumber(b, t, cur.0, cur.1, FindAnswer(t, cur.0, cur.1, start)).0)
    ensures var a := FindAnswer(t, cur.0, cur.1, start);
      var placed := PlaceNumber(b, t, cur.0, cur.1, a);
      && !Complete(b0)
      && SolutionOf(placed.0, b0) && Tracks(placed.0, placed.1)
      && DeleteNumberFromSets(placed.0, placed.1, cur.0, cur.1) == (b, t)
      && (count + 1 > 1 ==> SeveralSolutions(b0) && !NoSolution(b0) && !UniqueSolution(b0))
      && (count + 1 <= 1 ==>
            && CountLoop(b0, t0, b, t, stack, ds, Some(cur), a, found + {placed.0}, count + 1)
            && Rank(ds, a, |EmptyCells(b0)|) < Rank(ds, start, |EmptyCells(b0)|))
  {
    var a := FindAnswer(t, cur.0, cur.1, start);
    var placed := PlaceNumber(b, t, cur.0, cur.1, a);
    CountSolved(b0, b, t, stack, ds, cur, start, found);
    if count + 1 > 1 {
      TwoFound(b0, found + {placed.0});
    }
  }

  /** One pass of the loop where `findAnswer` finds nothing: with an empty
      stack the count is final, otherwise the top cell is popped and retried. */
  lemma LoopBacktrack(b0: Grid, t0: Tracker, b: Grid, t: Tracker, stack: seq<Cell>, ds: seq<int>, cur: Cell, start: int, found: set<Grid>, count: int)
    requires CountLoop(b0, t0, b, t, stack, ds, Some(cur), start, found, count)
    requires FindAnswer(t, cur.0, cur.1, start) == 0
    ensures DeleteNumberFromSets(b, t, cur.0, cur.1) == (b, t)
    ensures |stack| == 0 ==>
      && b == b0 && t == t0 && !Complete(b0)
      && (count == 0 <==> NoSolution(b0)) && (count == 1 <==> UniqueSolution(b0))
    ensures |stack| > 0 ==>
      var top := stack[|stack| - 1];
      var popped := DeleteNumberFromSets(b, t, top.0, top.1);
      && OnBoard(top.0, top.1)
      && CountLoop(b0, t0, popped.0, popped.1, stack[..|stack| - 1], ds[..|ds| - 1], Some(top), b[top.0][top.1], found, count)
      && Rank(ds[..|ds| - 1], b[top.0][top.1], |EmptyCells(b0)|) < Rank(ds, start, |EmptyCells(b0)|)
  {
    CountBacktrack(b0, b, t, stack, ds, cur, start, found);
    if |stack| == 0 {
      TrackerUnique(b0, t, t0);
      CountExhausted(b0, found, count);
    }
  }

  /** One pass of `countUniqueSolutions`' loop at the cell `cur`, trying digits
      above `start`. It ends the search (`stop`) on the second full board or
      when backtracking finds the stack empty; otherwise it hands the next cell
      and starting digit to the next pass, closer to the end of the search. */
  method CountPass(b0: Grid, t0: Tracker, b: Grid, t: Tracker, stack: seq<Cell>, ghost ds: seq<int>, cur: Cell, start: int, ghost found: set<Grid>, count: int)
    returns (b': Grid, t': Tracker, stack': seq<Cell>, ghost ds': seq<int>, next: Cell, start': int, ghost found': set<Grid>, count': int, stop: bool)
    requires CountLoop(b0, t0, b, t, stack, ds, Some(cur), start, found, count)
    ensures !stop ==>
      && CountLoop(b0, t0, b', t', stack', ds', Some(next), start', found', count')
      && Rank(ds', start', |EmptyCells(b0)|) < Rank(ds, start, |EmptyCells(b0)|)
    ensures stop ==>
      && !Complete(b0) && 0 <= count' <= 2
      && (count' == 0 <==> NoSolution(b0)) && (count' == 1 <==> UniqueSolution(b0))
      && (count' == 2 ==> SeveralSolutions(b0) && SolutionOf(b', b0) && Tracks(b', t'))
      && (count' < 2 ==> b' == b0 && t' == t0)
  {
    var row, col := cur.0, cur.1;
    stop := false;
    var answer := FindAnswer(t, row, col, start);
    if answer > 0 {
      var placed := PlaceNumber(b, t, row, col, answer);
      var rowCol := FindNextZeroMRV(placed.0, placed.1);
      if rowCol.Some? {
        LoopPush(b0, t0, b, t, stack, ds, cur, start, found, count, rowCol.value);
        b', t' := placed.0, placed.1;
        stack', ds' := stack + [cur], ds + [answer];
        next, start' := rowCol.value, 0;
        found', count' := found, count;
      } else {
        // A full board: count it, stop at the second, else backtrack for another.
        LoopSolved(b0, t0, b, t, stack, ds, cur, start, found, count);
        count' := count + 1;
        found' := found + {placed.0};
        if count' > 1 {
          b', t', stack', ds', next, start' := placed.0, placed.1, stack + [cur], ds + [answer], cur, 0;
          stop := true;
          return;
        }
        next := cur;
        start' := placed.0[row][col];
        var popped := DeleteNumberFromSets(placed.0, placed.1, row, col);
        b', t' := popped.0, popped.1;
        stack', ds' := stack, ds;
      }
    } else {
      LoopBacktrack(b0, t0, b, t, stack, ds, cur, start, found, count);
      var cleared := DeleteNumberFromSets(b, t, row, col);
      found', count' := found, count;
      if |stack| > 0 {
        var top := stack[|stack| - 1];
        start' := cleared.0[top.0][top.1];
        var popped := DeleteNumberFromSets(cleared.0, cleared.1, top.0, top.1);
        b', t' := popped.0, popped.1;
        stack', ds' := stack[..|stack| - 1], ds[..|ds| - 1];
        next := top;
      } else {
        b', t', stack', ds', next, start' := cleared.0, cleared.1, stack, ds, cur, 0;
        stop := true;
      }
    }
  }

  /** `countUniqueSolutions` on a validated board `b0` whose sets are `t0`: the
      number of solutions, capped at 2. A board with no empty cell counts 0,
      because the loop never starts. */
  method CountUniqueSolutions(b0: Grid, t0: Tracker) returns (count: int, b: Grid, t: Tracker)
    requires ValidStart(b0) && Tracks(b0, t0)
    ensures 0 <= count <= 2
    ensures Complete(b0) ==> count == 0
    ensures !Complete(b0) ==> (count == 0 <==> NoSolution(b0))
    ensures !Complete(b0) ==> (count == 1 <==> UniqueSolution(b0))
    ensures count == 2 ==> SeveralSolutions(b0) && SolutionOf(b, b0) && Tracks(b, t)
    ensures count < 2 ==> b == b0 && t == t0
  {
    b, t := b0, t0;
    var stack: seq<Cell> := [];
    ghost var ds: seq<int> := [];
    ghost var found: set<Grid> := {};
    ghost var n := |EmptyCells(b0)|;
    var rowCol := FindNextZeroMRV(b, t);
    var startingNumber := 0;
    var solutionCount := 0;
    if rowCol.Some? {
      CountInit(b0, t0, rowCol.value);
    }
    InvInit(b0, t0);
    while rowCol.Some?
      invariant CountLoop(b0, t0, b, t, stack, ds, rowCol, startingNumber, found, solutionCount)
      decreases if rowCol.Some? then Rank(ds, startingNumber, n) + 1 else 0
    {
      var next, stop;
      b, t, stack, ds, next, startingNumber, found, solutionCount, stop :=
        CountPass(b0, t0, b, t, stack, ds, rowCol.value, startingNumber, found, solutionCount);
      if stop {
        count := solutionCount;
        return;
      }
      RankNonNegative(ds, startingNumber, n);
      rowCol := Some(next);
    }
    count := solutionCount;
  }
}
