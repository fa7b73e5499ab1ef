/**
  What the two explicit-stack backtracking searches have in common.

  A search state is the board `b` with its sets `t`, the stack of cells the
  search has filled (`stack`, a `Stack<int[]>` in the source) and, as ghost
  bookkeeping, the digits `ds` those cells hold, plus the cell `cur` being tried
  and the `startingNumber` the next `findAnswer` call starts after.

  Two facts carry both searches:
  - `SearchInv`: the stacked cells are exactly the cells filled since the start
    board, and the sets keep tracking the board.
  - `Ahead`: a solution of the start board that the search has not passed yet
    is lexicographically ahead of the path `(ds, startingNumber)`. Each step
    keeps every solution either ahead or (in the counter) already found.

  Termination: `Rank` reads `(ds, startingNumber)` as a number in base 11 whose
  length is bounded by the number of empty cells of the start board; every
  step of both searches lowers it.
 */
module Search {
  import opened Board
  import opened Constraints

  // ---------------------------------------------------------------------------
  // The termination measure
  // ---------------------------------------------------------------------------

  function Pow11(n: nat): (p: nat)
    ensures p >= 1
  {
    if n == 0 then 1 else 11 * Pow11(n - 1)
  }

  /** The weight of the stacked digits: digit `i` counts `9 - ds[i]` units of `11^(n - i)`. */
  function Prefix(ds: seq<int>, n: nat): int
    requires |ds| <= n
  {
    if |ds| == 0 then 0 else Prefix(ds[..|ds| - 1], n) + (9 - ds[|ds| - 1]) * Pow11(n - |ds| + 1)
  }

  /** The measure of a search state: the digits still to try at every depth,
      weighted by depth, plus the depth itself; `n` bounds the depth of the stack. */
  function Rank(ds: seq<int>, start: int, n: nat): int
    requires |ds| <= n
  {
    Prefix(ds, n) + (9 - start) * Pow11(n - |ds|) + |ds|
  }

  lemma MulMonotone(x: int, y: int, p: int)
    requires y <= x && p >= 0
    ensures y * p <= x * p
  {
    assert x * p - y * p == (x - y) * p;
  }

  lemma Pow11Succ(m: nat)
    ensures Pow11(m + 1) == 11 * Pow11(m)
  {
  }

  /** Pushing one digit adds its weight at the new depth. */
  lemma PrefixSnoc(ds: seq<int>, a: int, n: nat)
    requires |ds| < n
    ensures Prefix(ds + [a], n) == Prefix(ds, n) + (9 - a) * Pow11(n - |ds|)
  {
    assert (ds + [a])[..|ds|] == ds;
  }

  lemma {:induction false} PrefixNonNegative(ds: seq<int>, n: nat)
    requires |ds| <= n
    requires forall i :: 0 <= i < |ds| ==> ds[i] <= BoardSize
    ensures Prefix(ds, n) >= 0
  {
    if |ds| > 0 {
      PrefixNonNegative(ds[..|ds| - 1], n);
      MulMonotone(9 - ds[|ds| - 1], 0, Pow11(n - |ds| + 1));
    }
  }

  /** No search state has a negative measure. */
  lemma RankNonNegative(ds: seq<int>, start: int, n: nat)
    requires |ds| <= n && start <= BoardSize
    requires forall i :: 0 <= i < |ds| ==> ds[i] <= BoardSize
    ensures Rank(ds, start, n) >= 0
  {
    PrefixNonNegative(ds, n);
    MulMonotone(9 - start, 0, Pow11(n - |ds|));
  }

  /** Placing a digit above `start` and moving to a deeper cell lowers the measure. */
  lemma RankPush(ds: seq<int>, start: int, a: int, n: nat)
    requires |ds| < n && start < a
    ensures Rank(ds + [a], 0, n) < Rank(ds, start, n)
  {
    PrefixSnoc(ds, a, n);
    var m := n - |ds| - 1;
    var q := Pow11(m);
    var p := Pow11(m + 1);
    Pow11Succ(m);
    MulMonotone(9 - start, 10 - a, p);
    assert (10 - a) * p == (9 - a) * p + p;
    assert Rank(ds + [a], 0, n) == Prefix(ds, n) + (9 - a) * p + 9 * q + |ds| + 1;
    assert Rank(ds, start, n) == Prefix(ds, n) + (9 - start) * p + |ds|;
  }

  lemma RankPopSnoc(front: seq<int>, d: int, start: int, n: nat)
    requires |front| < n && start <= BoardSize
    ensures Rank(front, d, n) < Rank(front + [d], start, n)
  {
    PrefixSnoc(front, d, n);
    var m := n - |front| - 1;
    var q := Pow11(m);
    var p := Pow11(m + 1);
    Pow11Succ(m);
    MulMonotone(9 - start, 0, q);
    assert |front + [d]| == |front| + 1;
    assert Rank(front + [d], start, n) == Prefix(front, n) + (9 - d) * p + (9 - start) * q + |front| + 1;
    assert Rank(front, d, n) == Prefix(front, n) + (9 - d) * p + |front|;
  }

  /** Popping the top cell and resuming it after its digit lowers the measure. */
  lemma RankPop(ds: seq<int>, start: int, n: nat)
    requires 1 <= |ds| <= n && start <= BoardSize
    ensures Rank(ds[..|ds| - 1], ds[|ds| - 1], n) < Rank(ds, start, n)
  {
    var k := |ds|;
    assert ds[..k - 1] + [ds[k - 1]] == ds;
    RankPopSnoc(ds[..k - 1], ds[k - 1], start, n);
  }

  /** Retrying the same cell from a larger digit lowers the measure. */
  lemma RankBump(ds: seq<int>, start: int, a: int, n: nat)
    requires |ds| <= n && start < a
    ensures Rank(ds, a, n) < Rank(ds, start, n)
  {
    var p := Pow11(n - |ds|);
    MulMonotone(9 - start, 10 - a, p);
    assert (10 - a) * p == (9 - a) * p + p;
  }

  // ---------------------------------------------------------------------------
  // The search invariant
  // ---------------------------------------------------------------------------

  predicate OnBoardCells(stack: seq<Cell>)
  {
    forall i :: 0 <= i < |stack| ==> OnBoard(stack[i].0, stack[i].1)
  }

  /** The stacked cells are distinct empty cells of `b0` that `b` fills with the
      digits `ds`; every other cell of `b` is as in `b0`. */
  ghost predicate StackFacts(b0: Grid, b: Grid, stack: seq<Cell>, ds: seq<int>)
    requires WellShaped(b0) && WellShaped(b)
  {
    && |ds| == |stack|
    && OnBoardCells(stack)
    && (forall i :: 0 <= i < |stack| ==>
          b0[stack[i].0][stack[i].1] == 0 && b[stack[i].0][stack[i].1] == ds[i] && 1 <= ds[i] <= BoardSize)
    && (forall i, j :: 0 <= i < j < |stack| ==> stack[i] != stack[j])
    && (forall r, c :: OnBoard(r, c) && (r, c) !in stack ==> b[r][c] == b0[r][c])
  }

  /** `b` is the start board `b0` with exactly the stacked cells filled, by the
      digits `ds`, without repeats, and `t` tracks `b`. */
  ghost predicate SearchInv(b0: Grid, b: Grid, t: Tracker, stack: seq<Cell>, ds: seq<int>)
  {
    && WellShaped(b0)
    && Tracks(b, t) && InRange(b) && NoConflicts(b)
    && StackFacts(b0, b, stack, ds)
    && |stack| + |EmptyCells(b)| == |EmptyCells(b0)|
  }

  /** Clearing the top stacked cell leaves the rest of the stack in place. */
  lemma PopStack(b0: Grid, b: Grid, b': Grid, stack: seq<Cell>, ds: seq<int>)
    requires WellShaped(b0) && WellShaped(b) && WellShaped(b')
    requires StackFacts(b0, b, stack, ds) && |stack| >= 1
    requires var p := stack[|stack| - 1];
      b'[p.0][p.1] == 0 && forall r, c :: OnBoard(r, c) && (r, c) != p ==> b'[r][c] == b[r][c]
    ensures StackFacts(b0, b', stack[..|stack| - 1], ds[..|ds| - 1])
  {
    var k := |stack|;
    var p := stack[k - 1];
    var stack' := stack[..k - 1];
    var ds' := ds[..k - 1];
    forall i | 0 <= i < |stack'| ensures stack'[i] == stack[i] && stack'[i] != p {
    }
    forall r, c | OnBoard(r, c) && (r, c) !in stack'
      ensures b'[r][c] == b0[r][c]
    {
      if (r, c) != p {
        assert stack == stack' + [p];
        assert (r, c) !in stack;
      }
    }
    forall i | 0 <= i < |stack'|
      ensures b0[stack'[i].0][stack'[i].1] == 0 && b'[stack'[i].0][stack'[i].1] == ds'[i] && 1 <= ds'[i] <= BoardSize
    {
      assert stack'[i] == stack[i] && stack[i] != stack[k - 1];
    }
  }

  /** The search starts from the validated board with an empty stack. */
  lemma InvInit(b0: Grid, t0: Tracker)
    requires ValidStart(b0) && Tracks(b0, t0)
    ensures SearchInv(b0, b0, t0, [], [])
  {
  }

  /** Filling an empty cell with a legal digit and pushing it keeps the invariant. */
  lemma InvPush(b0: Grid, b: Grid, t: Tracker, stack: seq<Cell>, ds: seq<int>, row: int, col: int, a: int)
    requires SearchInv(b0, b, t, stack, ds)
    requires OnBoard(row, col) && b[row][col] == 0 && 1 <= a <= BoardSize && Legal(t, row, col, a)
    ensures SearchInv(b0, PlaceNumber(b, t, row, col, a).0, PlaceNumber(b, t, row, col, a).1, stack + [(row, col)], ds + [a])
  {
    var (b', t') := PlaceNumber(b, t, row, col, a);
    var stack' := stack + [(row, col)];
    var ds' := ds + [a];
    PlaceKeepsInvariant(b, t, row, col, a);
    EmptyCellsFill(b, row, col, a);
    forall i | 0 <= i < |stack| ensures stack[i] != (row, col) {
      assert b[stack[i].0][stack[i].1] != 0;
    }
    assert b0[row][col] == 0;
    forall r, c | OnBoard(r, c) && (r, c) !in stack'
      ensures b'[r][c] == b0[r][c]
    {
      assert (r, c) !in stack;
    }
    forall i | 0 <= i < |stack'|
      ensures b0[stack'[i].0][stack'[i].1] == 0 && b'[stack'[i].0][stack'[i].1] == ds'[i] && 1 <= ds'[i] <= BoardSize
    {
      if i < |stack| {
        assert stack'[i] == stack[i];
      }
    }
  }

  /** Popping the top cell and deleting its digit keeps the invariant; the digit
      read before the delete is the top of `ds`, and the cell is empty after it. */
  lemma InvPop(b0: Grid, b: Grid, t: Tracker, stack: seq<Cell>, ds: seq<int>)
    requires SearchInv(b0, b, t, stack, ds) && |stack| >= 1
    ensures var p := stack[|stack| - 1];
      && b[p.0][p.1] == ds[|ds| - 1]
      && DeleteNumberFromSets(b, t, p.0, p.1).0[p.0][p.1] == 0
      && SearchInv(b0, DeleteNumberFromSets(b, t, p.0, p.1).0, DeleteNumberFromSets(b, t, p.0, p.1).1,
                   stack[..|stack| - 1], ds[..|ds| - 1])
  {
    var k := |stack|;
    var p := stack[k - 1];
    var (b', t') := DeleteNumberFromSets(b, t, p.0, p.1);
    DeleteKeepsInvariant(b, t, p.0, p.1);
    EmptyCellsClear(b, p.0, p.1);
    assert b' == Put(b, p.0, p.1, 0);
    PopStack(b0, b, b', stack, ds);
  }

  /** With nothing on the stack the board is the start board again. */
  lemma InvEmptyStack(b0: Grid, b: Grid, t: Tracker)
    requires SearchInv(b0, b, t, [], [])
    ensures b == b0
  {
    GridExt(b, b0);
  }

  /** A board the search has filled completely is a solution of the start board. */
  lemma InvComplete(b0: Grid, b: Grid, t: Tracker, stack: seq<Cell>, ds: seq<int>)
    requires SearchInv(b0, b, t, stack, ds) && Complete(b)
    ensures SolutionOf(b, b0)
  {
    forall r, c | OnBoard(r, c) && b0[r][c] != 0
      ensures b[r][c] == b0[r][c]
    {
      forall i | 0 <= i < |stack| ensures stack[i] != (r, c) {
        assert b0[stack[i].0][stack[i].1] == 0;
      }
    }
  }

  // ---------------------------------------------------------------------------
  // The frontier of unexplored solutions
  // ---------------------------------------------------------------------------

  /** `s` holds the path's digits in the first `j` stacked cells. */
  ghost predicate Agree(s: Grid, stack: seq<Cell>, ds: seq<int>, j: int)
    requires WellShaped(s) && OnBoardCells(stack) && |ds| == |stack| && 0 <= j <= |stack|
  {
    forall i :: 0 <= i < j ==> s[stack[i].0][stack[i].1] == ds[i]
  }

  /** `s` leaves the path at some stacked cell with a larger digit. */
  ghost predicate Beyond(s: Grid, stack: seq<Cell>, ds: seq<int>)
    requires WellShaped(s) && OnBoardCells(stack) && |ds| == |stack|
  {
    exists j :: 0 <= j < |stack| && Agree(s, stack, ds, j) && s[stack[j].0][stack[j].1] > ds[j]
  }

  /** `s` comes after the search state `(ds, start)` at `cur` in the search order. */
  ghost predicate Ahead(s: Grid, stack: seq<Cell>, ds: seq<int>, cur: Cell, start: int)
    requires WellShaped(s) && OnBoardCells(stack) && |ds| == |stack| && OnBoard(cur.0, cur.1)
  {
    Beyond(s, stack, ds) || (Agree(s, stack, ds, |stack|) && s[cur.0][cur.1] > start)
  }

  /** A solution that holds the path's digits agrees with every filled cell of the board. */
  lemma SolutionAgrees(b0: Grid, b: Grid, t: Tracker, stack: seq<Cell>, ds: seq<int>, s: Grid)
    requires SearchInv(b0, b, t, stack, ds) && SolutionOf(s, b0) && Agree(s, stack, ds, |stack|)
    ensures forall r, c :: OnBoard(r, c) && b[r][c] != 0 ==> s[r][c] == b[r][c]
  {
    forall r, c | OnBoard(r, c) && b[r][c] != 0
      ensures s[r][c] == b[r][c]
    {
      if (r, c) in stack {
        var i :| 0 <= i < |stack| && stack[i] == (r, c);
      }
    }
  }

  /** Such a solution's digit at an empty cell is one `findAnswer` may return. */
  lemma SolutionLegal(b0: Grid, b: Grid, t: Tracker, stack: seq<Cell>, ds: seq<int>, s: Grid, row: int, col: int)
    requires SearchInv(b0, b, t, stack, ds) && SolutionOf(s, b0) && Agree(s, stack, ds, |stack|)
    requires OnBoard(row, col) && b[row][col] == 0
    ensures 1 <= s[row][col] <= BoardSize && Legal(t, row, col, s[row][col])
  {
    var v := s[row][col];
    SolutionAgrees(b0, b, t, stack, ds, s);
    forall r, c | OnBoard(r, c) && Peers(row, col, r, c)
      ensures b[r][c] != v
    {
      if b[r][c] != 0 {
        assert s[r][c] == b[r][c];
      }
    }
    LegalIff(b, t, row, col, v);
  }

  /** `findAnswer` never skips a digit that leads to a solution on the path. */
  lemma AnswerNotPast(b0: Grid, b: Grid, t: Tracker, stack: seq<Cell>, ds: seq<int>, s: Grid, row: int, col: int, start: int)
    requires SearchInv(b0, b, t, stack, ds) && OnBoard(row, col) && b[row][col] == 0 && 0 <= start
    ensures SolutionOf(s, b0) && Agree(s, stack, ds, |stack|) && start < s[row][col] ==>
      0 < FindAnswer(t, row, col, start) <= s[row][col]
  {
    if SolutionOf(s, b0) && Agree(s, stack, ds, |stack|) {
      SolutionLegal(b0, b, t, stack, ds, s, row, col);
    }
  }

  /** After a dead end at `cur`, every solution still ahead leaves the path at a stacked cell. */
  lemma FrontierDeadEnd(b0: Grid, b: Grid, t: Tracker, stack: seq<Cell>, ds: seq<int>, cur: Cell, start: int, s: Grid)
    requires SearchInv(b0, b, t, stack, ds) && OnBoard(cur.0, cur.1) && b[cur.0][cur.1] == 0 && 0 <= start
    requires FindAnswer(t, cur.0, cur.1, start) == 0
    ensures SolutionOf(s, b0) && Ahead(s, stack, ds, cur, start) ==> Beyond(s, stack, ds)
  {
    AnswerNotPast(b0, b, t, stack, ds, s, cur.0, cur.1, start);
  }

  /** Pushing the answer and moving to the next empty cell keeps every solution ahead. */
  lemma FrontierPush(b0: Grid, b: Grid, t: Tracker, stack: seq<Cell>, ds: seq<int>, cur: Cell, start: int, s: Grid, next: Cell)
    requires SearchInv(b0, b, t, stack, ds) && OnBoard(cur.0, cur.1) && b[cur.0][cur.1] == 0 && 0 <= start
    requires FindAnswer(t, cur.0, cur.1, start) != 0 && OnBoard(next.0, next.1)
    requires SolutionOf(s, b0) && Ahead(s, stack, ds, cur, start)
    ensures Ahead(s, stack + [cur], ds + [FindAnswer(t, cur.0, cur.1, start)], next, 0)
  {
    var a := FindAnswer(t, cur.0, cur.1, start);
    var stack', ds' := stack + [cur], ds + [a];
    if Beyond(s, stack, ds) {
      var j :| 0 <= j < |stack| && Agree(s, stack, ds, j) && s[stack[j].0][stack[j].1] > ds[j];
      assert Agree(s, stack', ds', j);
      assert s[stack'[j].0][stack'[j].1] > ds'[j];
    } else {
      AnswerNotPast(b0, b, t, stack, ds, s, cur.0, cur.1, start);
      assert Agree(s, stack', ds', |stack|);
      if s[cur.0][cur.1] > a {
        assert s[stack'[|stack|].0][stack'[|stack|].1] > ds'[|stack|];
      } else {
        assert Agree(s, stack', ds', |stack'|);
        assert s[next.0][next.1] != 0;
      }
    }
  }

  /** After a dead end, popping the top cell puts every solution that left the
      path at a stacked cell ahead of the resumed cell. */
  lemma FrontierPop(stack: seq<Cell>, ds: seq<int>, s: Grid)
    requires WellShaped(s) && OnBoardCells(stack) && |ds| == |stack| && |stack| >= 1
    requires Beyond(s, stack, ds)
    ensures var k := |stack|; Ahead(s, stack[..k - 1], ds[..k - 1], stack[k - 1], ds[k - 1])
  {
    var k := |stack|;
    var j :| 0 <= j < k && Agree(s, stack, ds, j) && s[stack[j].0][stack[j].1] > ds[j];
    assert Agree(s, stack[..k - 1], ds[..k - 1], if j < k - 1 then j else k - 1);
  }

  /** When the answer completes the board `done`, every solution ahead is either
      `done` itself or still ahead once the cell is retried above the answer. */
  lemma FrontierSolved(b0: Grid, b: Grid, t: Tracker, stack: seq<Cell>, ds: seq<int>, cur: Cell, start: int, s: Grid)
    requires SearchInv(b0, b, t, stack, ds) && OnBoard(cur.0, cur.1) && b[cur.0][cur.1] == 0 && 0 <= start
    requires FindAnswer(t, cur.0, cur.1, start) != 0
    requires Complete(Put(b, cur.0, cur.1, FindAnswer(t, cur.0, cur.1, start)))
    requires SolutionOf(s, b0) && Ahead(s, stack, ds, cur, start)
    ensures s == Put(b, cur.0, cur.1, FindAnswer(t, cur.0, cur.1, start))
         || Ahead(s, stack, ds, cur, FindAnswer(t, cur.0, cur.1, start))
  {
    var a := FindAnswer(t, cur.0, cur.1, start);
    if !Beyond(s, stack, ds) {
      AnswerNotPast(b0, b, t, stack, ds, s, cur.0, cur.1, start);
      if s[cur.0][cur.1] == a {
        var done := Put(b, cur.0, cur.1, a);
        InvPush(b0, b, t, stack, ds, cur.0, cur.1, a);
        assert Agree(s, stack + [cur], ds + [a], |stack| + 1);
        SolutionAgrees(b0, done, PlaceNumber(b, t, cur.0, cur.1, a).1, stack + [cur], ds + [a], s);
        GridExt(s, done);
      }
    }
  }

  /** Whatever is ahead after a push was ahead before it. */
  lemma AheadAfterPush(x: Grid, stack: seq<Cell>, ds: seq<int>, cur: Cell, start: int, a: int, next: Cell)
    requires WellShaped(x) && OnBoardCells(stack) && |ds| == |stack| && OnBoard(cur.0, cur.1) && OnBoard(next.0, next.1)
    requires start < a
    requires Ahead(x, stack + [cur], ds + [a], next, 0)
    ensures Ahead(x, stack, ds, cur, start)
  {
    var stack', ds' := stack + [cur], ds + [a];
    forall i | 0 <= i < |stack| ensures stack'[i] == stack[i] && ds'[i] == ds[i] {
    }
    if Beyond(x, stack', ds') {
      var j :| 0 <= j < |stack'| && Agree(x, stack', ds', j) && x[stack'[j].0][stack'[j].1] > ds'[j];
      assert Agree(x, stack, ds, if j < |stack| then j else |stack|);
    } else {
      assert Agree(x, stack, ds, |stack|);
      assert x[stack'[|stack|].0][stack'[|stack|].1] == ds'[|stack|];
    }
  }

  /** Whatever is ahead after a pop was ahead before it. */
  lemma AheadAfterPop(x: Grid, stack: seq<Cell>, ds: seq<int>, cur: Cell, start: int)
    requires WellShaped(x) && OnBoardCells(stack) && |ds| == |stack| && |stack| >= 1 && OnBoard(cur.0, cur.1)
    requires var k := |stack|; Ahead(x, stack[..k - 1], ds[..k - 1], stack[k - 1], ds[k - 1])
    ensures Ahead(x, stack, ds, cur, start)
  {
    var k := |stack|;
    var stack', ds' := stack[..k - 1], ds[..k - 1];
    forall i | 0 <= i < k - 1 ensures stack'[i] == stack[i] && ds'[i] == ds[i] {
    }
    if Beyond(x, stack', ds') {
      var j :| 0 <= j < |stack'| && Agree(x, stack', ds', j) && x[stack'[j].0][stack'[j].1] > ds'[j];
      assert Agree(x, stack, ds, j);
    } else {
      assert Agree(x, stack, ds, k - 1);
    }
  }

  /** The board the search has completed is not ahead of the cell retried above its answer. */
  lemma DoneNotAhead(b: Grid, stack: seq<Cell>, ds: seq<int>, cur: Cell, a: int)
    requires WellShaped(b) && OnBoardCells(stack) && |ds| == |stack| && OnBoard(cur.0, cur.1)
    requires forall i :: 0 <= i < |stack| ==> stack[i] != cur && b[stack[i].0][stack[i].1] == ds[i]
    ensures !Ahead(Put(b, cur.0, cur.1, a), stack, ds, cur, a)
  {
    var done := Put(b, cur.0, cur.1, a);
    forall j | 0 <= j < |stack| ensures done[stack[j].0][stack[j].1] == ds[j] {
      assert stack[j] != cur;
    }
  }
}
