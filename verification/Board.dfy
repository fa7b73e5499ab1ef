/**
  Geometry of the 9x9 board and the rules of Sudoku, as pure definitions.

  A board is a sequence of rows of Java `int`s; `0` marks an empty cell.
  Rows, columns and 3x3 boxes are the three kinds of `Unit`; two cells that
  share a unit are `Peers` and may not hold the same digit.
 */
module Board {

  /** Side of one box, and side of the whole board (`BOX_SIZE`, `BOARD_SIZE`). */
  const BoxSize: int := 3
  const BoardSize: int := 9

  /** The number of cells, `BoardSize * BoardSize`. */
  const CellCount: int := 81

  type Grid = seq<seq<int>>

  /** A `(row, col)` position, the `int[] {row, col}` pairs of the source. */
  type Cell = (int, int)

  // ---------------------------------------------------------------------------
  // Index arithmetic (Java integer division truncates toward zero)
  // ---------------------------------------------------------------------------

  /** Java's `a / d` for a positive divisor. */
  function JavaDiv(a: int, d: int): (q: int)
    requires d > 0
    ensures a >= 0 ==> q == a / d
    ensures a < 0 ==> q == -((-a) / d)
  {
    if a >= 0 then a / d else -((-a) / d)
  }

  /** Java's `a % d` for a positive divisor: the sign follows the dividend. */
  function JavaRem(a: int, d: int): (m: int)
    requires d > 0
    ensures JavaDiv(a, d) * d + m == a
    ensures a >= 0 ==> 0 <= m < d
  {
    a - JavaDiv(a, d) * d
  }

  /** `getBoxIndex`: the box that holds cell `(row, col)`, numbered row-major. */
  function BoxIndex(row: int, col: int): (k: int)
    ensures 0 <= row < BoardSize && 0 <= col < BoardSize ==> 0 <= k < BoardSize
  {
    JavaDiv(row, BoxSize) * BoxSize + JavaDiv(col, BoxSize)
  }

  /** `getFlattenIndex`: the position of a cell in row-major order. */
  function FlattenIndex(row: int, col: int): (i: int)
    ensures OnBoard(row, col) ==> 0 <= i < CellCount
  {
    row * BoardSize + col
  }

  /** `getDeepIndex`: the `(row, col)` pair of a row-major position. */
  function DeepIndex(index: int): (p: Cell)
    ensures 0 <= index < CellCount ==> OnBoard(p.0, p.1)
    ensures index >= 0 ==> 0 <= p.1 < BoardSize && p.0 * BoardSize + p.1 == index
  {
    (JavaDiv(index, BoardSize), JavaRem(index, BoardSize))
  }

  /** Two on-board cells share a box exactly when their rows and their columns
      fall in the same band of three. */
  lemma SameBoxIff(r1: int, c1: int, r2: int, c2: int)
    requires OnBoard(r1, c1) && OnBoard(r2, c2)
    ensures BoxIndex(r1, c1) == BoxIndex(r2, c2) <==> r1 / 3 == r2 / 3 && c1 / 3 == c2 / 3
  {
  }

  /** The cells of box `k` are the rows `3*(k/3) ..` and columns `3*(k%3) ..`. */
  lemma BoxIndexIff(r: int, c: int, k: int)
    requires OnBoard(r, c) && 0 <= k < BoardSize
    ensures BoxIndex(r, c) == k <==> r / 3 == k / 3 && c / 3 == k % 3
  {
  }

  /** Distinct on-board cells have distinct row-major positions. */
  lemma FlattenInjective(r1: int, c1: int, r2: int, c2: int)
    requires 0 <= c1 < BoardSize && 0 <= c2 < BoardSize
    ensures r1 * BoardSize + c1 == r2 * BoardSize + c2 ==> r1 == r2 && c1 == c2
  {
    if r1 * BoardSize + c1 == r2 * BoardSize + c2 {
      assert 9 * (r1 - r2) == c2 - c1;
    }
  }

  /** Flattening and un-flattening are inverse on the board's 81 positions. */
  lemma IndexRoundTrip(row: int, col: int, index: int)
    ensures OnBoard(row, col) ==> 0 <= FlattenIndex(row, col) < CellCount && DeepIndex(FlattenIndex(row, col)) == (row, col)
    ensures 0 <= index < CellCount ==> OnBoard(DeepIndex(index).0, DeepIndex(index).1) && FlattenIndex(DeepIndex(index).0, DeepIndex(index).1) == index
  {
    if OnBoard(row, col) {
      var i := row * BoardSize + col;
      var q, m := i / 9, i % 9;
      assert i == 9 * q + m && 0 <= m < 9;
      assert 9 * (q - row) == col - m;
      assert q == row && m == col;
    }
    if 0 <= index < CellCount {
      var q, m := index / 9, index % 9;
      assert index == 9 * q + m && 0 <= m < 9;
      assert 0 <= q < 9;
    }
  }

  // ---------------------------------------------------------------------------
  // Shape and cell access
  // ---------------------------------------------------------------------------

  predicate OnBoard(row: int, col: int)
  {
    0 <= row < BoardSize && 0 <= col < BoardSize
  }

  predicate WellShaped(b: Grid)
  {
    |b| == BoardSize && forall r :: 0 <= r < BoardSize ==> |b[r]| == BoardSize
  }

  /** The first `n` cells in row-major order lie in rows whose length is known to be 9. */
  predicate RowsScanned(b: Grid, n: int)
  {
    |b| == BoardSize && forall r :: 0 <= r < BoardSize && r * BoardSize < n ==> |b[r]| == BoardSize
  }

  /** `board[row][col] = v`. */
  function Put(b: Grid, row: int, col: int, v: int): (b': Grid)
    requires WellShaped(b) && OnBoard(row, col)
    ensures WellShaped(b')
    ensures b'[row][col] == v
    ensures forall r, c :: OnBoard(r, c) && (r, c) != (row, col) ==> b'[r][c] == b[r][c]
  {
    b[row := b[row][col := v]]
  }

  /** Two well-shaped boards that agree on every cell are the same board. */
  lemma GridExt(a: Grid, b: Grid)
    requires WellShaped(a) && WellShaped(b)
    requires forall r, c :: OnBoard(r, c) ==> a[r][c] == b[r][c]
    ensures a == b
  {
    forall r | 0 <= r < BoardSize
      ensures a[r] == b[r]
    {
      assert forall c :: 0 <= c < BoardSize ==> a[r][c] == b[r][c];
    }
  }

  // ---------------------------------------------------------------------------
  // Units, peers and the rules
  // ---------------------------------------------------------------------------

  datatype Unit = Row(i: int) | Col(j: int) | Box(k: int)

  predicate ValidUnit(u: Unit)
  {
    match u
    case Row(i) => 0 <= i < BoardSize
    case Col(j) => 0 <= j < BoardSize
    case Box(k) => 0 <= k < BoardSize
  }

  predicate InUnit(u: Unit, row: int, col: int)
  {
    match u
    case Row(i) => row == i
    case Col(j) => col == j
    case Box(k) => BoxIndex(row, col) == k
  }

  /** Distinct cells that share a row, a column or a box. */
  predicate Peers(r1: int, c1: int, r2: int, c2: int)
  {
    (r1, c1) != (r2, c2) && (r1 == r2 || c1 == c2 || BoxIndex(r1, c1) == BoxIndex(r2, c2))
  }

  /** Two distinct cells of one unit are peers. */
  lemma SameUnitPeers(u: Unit, r1: int, c1: int, r2: int, c2: int)
    requires InUnit(u, r1, c1) && InUnit(u, r2, c2) && (r1, c1) != (r2, c2)
    ensures Peers(r1, c1, r2, c2)
  {
  }

  /** Every value is between 0 and 9. */
  ghost predicate InRange(b: Grid)
    requires WellShaped(b)
  {
    forall r, c :: OnBoard(r, c) ==> 0 <= b[r][c] <= BoardSize
  }

  /** No empty cell is left. */
  ghost predicate Complete(b: Grid)
    requires WellShaped(b)
  {
    forall r, c :: OnBoard(r, c) ==> b[r][c] != 0
  }

  /** No placed value repeats within a row, a column or a box. */
  ghost predicate NoConflicts(b: Grid)
    requires WellShaped(b)
  {
    forall r1, c1, r2, c2 ::
      OnBoard(r1, c1) && OnBoard(r2, c2) && Peers(r1, c1, r2, c2) && b[r1][c1] != 0 ==> b[r1][c1] != b[r2][c2]
  }

  /** `s` keeps every clue of `b`. */
  ghost predicate Extends(s: Grid, b: Grid)
    requires WellShaped(s) && WellShaped(b)
  {
    forall r, c :: OnBoard(r, c) && b[r][c] != 0 ==> s[r][c] == b[r][c]
  }

  /** A filled board that obeys the rules. */
  ghost predicate Solved(s: Grid)
  {
    WellShaped(s) && Complete(s) && InRange(s) && NoConflicts(s)
  }

  /** `s` is a solution of the puzzle `b`. */
  ghost predicate SolutionOf(s: Grid, b: Grid)
    requires WellShaped(b)
  {
    Solved(s) && Extends(s, b)
  }

  ghost predicate NoSolution(b: Grid)
    requires WellShaped(b)
  {
    forall s :: !SolutionOf(s, b)
  }

  ghost predicate UniqueSolution(b: Grid)
    requires WellShaped(b)
  {
    exists s :: SolutionOf(s, b) && forall s' :: SolutionOf(s', b) ==> s' == s
  }

  ghost predicate SeveralSolutions(b: Grid)
    requires WellShaped(b)
  {
    exists s1, s2 :: SolutionOf(s1, b) && SolutionOf(s2, b) && s1 != s2
  }

  /** A board a search may start from: the right shape, values in range, no repeats. */
  ghost predicate ValidStart(b: Grid)
  {
    WellShaped(b) && InRange(b) && NoConflicts(b)
  }

  // ---------------------------------------------------------------------------
  // The digits placed in a unit
  // ---------------------------------------------------------------------------

  /** The nonzero values among the first `n` cells (row-major) of unit `u`. */
  function DigitsBefore(b: Grid, u: Unit, n: int): set<int>
    requires RowsScanned(b, n)
  {
    set r, c | 0 <= r < BoardSize && 0 <= c < BoardSize && r * BoardSize + c < n && InUnit(u, r, c) && b[r][c] != 0 :: b[r][c]
  }

  /** The nonzero values of unit `u`. */
  function Digits(b: Grid, u: Unit): set<int>
    requires WellShaped(b)
  {
    DigitsBefore(b, u, CellCount)
  }

  /** Membership in `DigitsBefore`, spelled out. */
  lemma DigitsBeforeIff(b: Grid, u: Unit, n: int, v: int)
    requires RowsScanned(b, n)
    ensures v in DigitsBefore(b, u, n) <==>
      exists r, c :: OnBoard(r, c) && r * BoardSize + c < n && InUnit(u, r, c) && b[r][c] != 0 && b[r][c] == v
  {
  }

  /** Every unit holds every digit 1..9. */
  ghost predicate AllDigits(b: Grid)
    requires WellShaped(b)
  {
    forall u, v :: ValidUnit(u) && 1 <= v <= BoardSize ==> v in Digits(b, u)
  }

  /** The board state `checkIfValidSolution` accepts. */
  ghost predicate ValidSolution(b: Grid)
    requires WellShaped(b)
  {
    Complete(b) && NoConflicts(b) && AllDigits(b)
  }

  // ---------------------------------------------------------------------------
  // Empty cells
  // ---------------------------------------------------------------------------

  ghost function EmptyCells(b: Grid): set<Cell>
    requires WellShaped(b)
  {
    set r, c | 0 <= r < BoardSize && 0 <= c < BoardSize && b[r][c] == 0 :: (r, c)
  }

  /** Writing a digit into an empty cell removes exactly that cell from the empty ones. */
  lemma EmptyCellsFill(b: Grid, row: int, col: int, v: int)
    requires WellShaped(b) && OnBoard(row, col) && b[row][col] == 0 && v != 0
    ensures EmptyCells(Put(b, row, col, v)) == EmptyCells(b) - {(row, col)}
    ensures |EmptyCells(Put(b, row, col, v))| == |EmptyCells(b)| - 1
  {
    var b' := Put(b, row, col, v);
    assert (row, col) in EmptyCells(b);
    forall p | p in EmptyCells(b') ensures p in EmptyCells(b) - {(row, col)} {
      var r, c :| 0 <= r < BoardSize && 0 <= c < BoardSize && b'[r][c] == 0 && p == (r, c);
    }
    forall p | p in EmptyCells(b) - {(row, col)} ensures p in EmptyCells(b') {
      var r, c :| 0 <= r < BoardSize && 0 <= c < BoardSize && b[r][c] == 0 && p == (r, c);
    }
  }

  /** Clearing a filled cell adds exactly that cell to the empty ones. */
  lemma EmptyCellsClear(b: Grid, row: int, col: int)
    requires WellShaped(b) && OnBoard(row, col) && b[row][col] != 0
    ensures EmptyCells(Put(b, row, col, 0)) == EmptyCells(b) + {(row, col)}
    ensures |EmptyCells(Put(b, row, col, 0))| == |EmptyCells(b)| + 1
  {
    var b' := Put(b, row, col, 0);
    assert (row, col) !in EmptyCells(b);
    forall p | p in EmptyCells(b') ensures p in EmptyCells(b) + {(row, col)} {
      var r, c :| 0 <= r < BoardSize && 0 <= c < BoardSize && b'[r][c] == 0 && p == (r, c);
    }
    forall p | p in EmptyCells(b) + {(row, col)} ensures p in EmptyCells(b') {
      if p != (row, col) {
        var r, c :| 0 <= r < BoardSize && 0 <= c < BoardSize && b[r][c] == 0 && p == (r, c);
      }
    }
  }

  lemma EmptyCellsNone(b: Grid)
    requires WellShaped(b)
    ensures Complete(b) <==> EmptyCells(b) == {}
  {
    if !Complete(b) {
      var r, c :| 0 <= r < BoardSize && 0 <= c < BoardSize && b[r][c] == 0;
      assert (r, c) in EmptyCells(b);
    }
  }
}
