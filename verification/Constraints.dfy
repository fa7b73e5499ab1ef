/**
  The constraint sets: for every row, column and box, the set of digits placed
  in it (`rowSets`, `columnSets`, `boxSets`), and the operations that read and
  change them in lockstep with the board.

  The invariant every search keeps is `Tracks(b, t)`: each set holds exactly the
  nonzero values of its unit.
 */
module Constraints {
  import opened Board

  datatype Tracker = Tracker(rows: seq<set<int>>, cols: seq<set<int>>, boxes: seq<set<int>>)
  {
    predicate Valid()
    {
      |rows| == BoardSize && |cols| == BoardSize && |boxes| == BoardSize
    }

    /** The set kept for unit `u`. */
    function Of(u: Unit): set<int>
      requires Valid() && ValidUnit(u)
    {
      match u
      case Row(i) => rows[i]
      case Col(j) => cols[j]
      case Box(k) => boxes[k]
    }
  }

  /** `emptyHashSets`: nine empty sets of each kind. */
  function EmptySets(): (t: Tracker)
    ensures t.Valid()
    ensures forall u :: ValidUnit(u) ==> t.Of(u) == {}
  {
    Tracker(seq(BoardSize, _ => {}), seq(BoardSize, _ => {}), seq(BoardSize, _ => {}))
  }

  /** The sets hold exactly the nonzero values among the first `n` cells (row-major). */
  ghost predicate TracksBefore(b: Grid, t: Tracker, n: int)
  {
    t.Valid() && RowsScanned(b, n) && forall u :: ValidUnit(u) ==> t.Of(u) == DigitsBefore(b, u, n)
  }

  /** The sets hold exactly the nonzero values of their units. */
  ghost predicate Tracks(b: Grid, t: Tracker)
  {
    WellShaped(b) && TracksBefore(b, t, CellCount)
  }

  /** Digit `v` is in none of the three sets of cell `(row, col)`: the test of
      `findAnswer`, `mrvHelper` and `findRandomAnswer`. */
  predicate Legal(t: Tracker, row: int, col: int, v: int)
    requires t.Valid() && OnBoard(row, col)
  {
    v !in t.rows[row] && v !in t.cols[col] && v !in t.boxes[BoxIndex(row, col)]
  }

  /** The three `add` calls that accompany every placement. */
  function AddToSets(t: Tracker, row: int, col: int, v: int): (t': Tracker)
    requires t.Valid() && OnBoard(row, col)
    ensures t'.Valid()
    ensures forall u :: ValidUnit(u) ==> t'.Of(u) == t.Of(u) + (if InUnit(u, row, col) then {v} else {})
  {
    var k := BoxIndex(row, col);
    Tracker(t.rows[row := t.rows[row] + {v}], t.cols[col := t.cols[col] + {v}], t.boxes[k := t.boxes[k] + {v}])
  }

  /** The three `remove` calls of `deleteNumberFromSets`. */
  function RemoveFromSets(t: Tracker, row: int, col: int, v: int): (t': Tracker)
    requires t.Valid() && OnBoard(row, col)
    ensures t'.Valid()
    ensures forall u :: ValidUnit(u) ==> t'.Of(u) == t.Of(u) - (if InUnit(u, row, col) then {v} else {})
  {
    var k := BoxIndex(row, col);
    Tracker(t.rows[row := t.rows[row] - {v}], t.cols[col := t.cols[col] - {v}], t.boxes[k := t.boxes[k] - {v}])
  }

  // ---------------------------------------------------------------------------
  // How the digit sets of the board change
  // ---------------------------------------------------------------------------

  /** A value among the first `n + 1` cells of a unit is among the first `n`, or is cell `n`'s. */
  lemma DigitsBeforeSplit(b: Grid, u: Unit, row: int, col: int, x: int)
    requires OnBoard(row, col) && RowsScanned(b, row * BoardSize + col + 1)
    requires x in DigitsBefore(b, u, row * BoardSize + col + 1)
    ensures x in DigitsBefore(b, u, row * BoardSize + col) || (InUnit(u, row, col) && b[row][col] != 0 && x == b[row][col])
  {
    var n := row * BoardSize + col;
    var r, c :| 0 <= r < BoardSize && 0 <= c < BoardSize && r * BoardSize + c < n + 1 && InUnit(u, r, c) && b[r][c] != 0 && b[r][c] == x;
    if r * BoardSize + c < n {
      assert x in DigitsBefore(b, u, n);
    } else {
      FlattenInjective(r, c, row, col);
    }
  }

  /** A value among the first `n` cells of a unit, or cell `n`'s, is among the first `n + 1`. */
  lemma DigitsBeforeGrow(b: Grid, u: Unit, row: int, col: int, x: int)
    requires OnBoard(row, col) && RowsScanned(b, row * BoardSize + col + 1)
    requires x in DigitsBefore(b, u, row * BoardSize + col) || (InUnit(u, row, col) && b[row][col] != 0 && x == b[row][col])
    ensures x in DigitsBefore(b, u, row * BoardSize + col + 1)
  {
    var n := row * BoardSize + col;
    if x in DigitsBefore(b, u, n) {
      var r, c :| 0 <= r < BoardSize && 0 <= c < BoardSize && r * BoardSize + c < n && InUnit(u, r, c) && b[r][c] != 0 && b[r][c] == x;
      assert b[r][c] in DigitsBefore(b, u, n + 1);
    } else {
      assert b[row][col] in DigitsBefore(b, u, n + 1);
    }
  }

  /** Scanning one more cell adds its value (if nonzero) to the units it lies in. */
  lemma DigitsBeforeStep(b: Grid, u: Unit, row: int, col: int)
    requires OnBoard(row, col) && RowsScanned(b, row * BoardSize + col + 1)
    ensures DigitsBefore(b, u, row * BoardSize + col + 1) ==
      DigitsBefore(b, u, row * BoardSize + col) + (if InUnit(u, row, col) && b[row][col] != 0 then {b[row][col]} else {})
  {
    var n := row * BoardSize + col;
    var lhs := DigitsBefore(b, u, n + 1);
    var rhs := DigitsBefore(b, u, n) + (if InUnit(u, row, col) && b[row][col] != 0 then {b[row][col]} else {});
    forall x | x in lhs ensures x in rhs {
      DigitsBeforeSplit(b, u, row, col, x);
    }
    forall x | x in rhs ensures x in lhs {
      DigitsBeforeGrow(b, u, row, col, x);
    }
  }

  /** Writing a nonzero digit into an empty cell adds it to the cell's three units. */
  lemma DigitsFill(b: Grid, u: Unit, row: int, col: int, v: int)
    requires WellShaped(b) && OnBoard(row, col) && b[row][col] == 0 && v != 0
    ensures Digits(Put(b, row, col, v), u) == Digits(b, u) + (if InUnit(u, row, col) then {v} else {})
  {
    var b' := Put(b, row, col, v);
    var lhs := Digits(b', u);
    var rhs := Digits(b, u) + (if InUnit(u, row, col) then {v} else {});
    forall x | x in lhs ensures x in rhs {
      var r, c :| 0 <= r < BoardSize && 0 <= c < BoardSize && r * BoardSize + c < CellCount && InUnit(u, r, c) && b'[r][c] != 0 && b'[r][c] == x;
      if (r, c) != (row, col) {
        assert b[r][c] in Digits(b, u);
      }
    }
    forall x | x in rhs ensures x in lhs {
      if x in Digits(b, u) {
        var r, c :| 0 <= r < BoardSize && 0 <= c < BoardSize && r * BoardSize + c < CellCount && InUnit(u, r, c) && b[r][c] != 0 && b[r][c] == x;
        assert b'[r][c] in lhs;
      } else {
        assert b'[row][col] in lhs;
      }
    }
  }

  /** On a board without repeats, clearing a filled cell removes its digit from
      the cell's three units and from nowhere else. */
  lemma DigitsClear(b: Grid, u: Unit, row: int, col: int)
    requires WellShaped(b) && NoConflicts(b) && OnBoard(row, col) && b[row][col] != 0
    ensures Digits(Put(b, row, col, 0), u) == Digits(b, u) - (if InUnit(u, row, col) then {b[row][col]} else {})
  {
    var v := b[row][col];
    var b' := Put(b, row, col, 0);
    var lhs := Digits(b', u);
    var rhs := Digits(b, u) - (if InUnit(u, row, col) then {v} else {});
    forall x | x in lhs ensures x in rhs {
      var r, c :| 0 <= r < BoardSize && 0 <= c < BoardSize && r * BoardSize + c < CellCount && InUnit(u, r, c) && b'[r][c] != 0 && b'[r][c] == x;
      assert b[r][c] in Digits(b, u);
      if InUnit(u, row, col) {
        SameUnitPeers(u, r, c, row, col);
      }
    }
    forall x | x in rhs ensures x in lhs {
      var r, c :| 0 <= r < BoardSize && 0 <= c < BoardSize && r * BoardSize + c < CellCount && InUnit(u, r, c) && b[r][c] != 0 && b[r][c] == x;
      assert (r, c) != (row, col);
      assert b'[r][c] in lhs;
    }
  }

  /** With tracked sets, a digit is legal for an empty cell exactly when no peer holds it. */
  lemma LegalIff(b: Grid, t: Tracker, row: int, col: int, v: int)
    requires Tracks(b, t) && OnBoard(row, col) && b[row][col] == 0 && v != 0
    ensures Legal(t, row, col, v) <==> forall r, c :: OnBoard(r, c) && Peers(row, col, r, c) ==> b[r][c] != v
  {
    if !Legal(t, row, col, v) {
      var u := if v in t.rows[row] then Row(row) else if v in t.cols[col] then Col(col) else Box(BoxIndex(row, col));
      assert v in t.Of(u);
      assert v in DigitsBefore(b, u, CellCount);
      var r, c :| 0 <= r < BoardSize && 0 <= c < BoardSize && r * BoardSize + c < CellCount && InUnit(u, r, c) && b[r][c] != 0 && b[r][c] == v;
      SameUnitPeers(u, row, col, r, c);
    } else {
      forall r, c | OnBoard(r, c) && Peers(row, col, r, c) ensures b[r][c] != v {
        var u := if r == row then Row(row) else if c == col then Col(col) else Box(BoxIndex(row, col));
        assert InUnit(u, r, c);
        if b[r][c] != 0 {
          assert b[r][c] in DigitsBefore(b, u, CellCount);
        }
      }
    }
  }

  /** The sets that track a board are determined by the board. */
  lemma TrackerUnique(b: Grid, t1: Tracker, t2: Tracker)
    requires Tracks(b, t1) && Tracks(b, t2)
    ensures t1 == t2
  {
    forall i | 0 <= i < BoardSize
      ensures t1.rows[i] == t2.rows[i] && t1.cols[i] == t2.cols[i] && t1.boxes[i] == t2.boxes[i]
    {
      assert t1.Of(Row(i)) == t2.Of(Row(i));
      assert t1.Of(Col(i)) == t2.Of(Col(i));
      assert t1.Of(Box(i)) == t2.Of(Box(i));
    }
  }

  /** A tracked set never holds 0, so 0 is never reported as a duplicate. */
  lemma ZeroNeverTracked(b: Grid, t: Tracker, n: int, u: Unit)
    requires TracksBefore(b, t, n) && ValidUnit(u)
    ensures 0 !in t.Of(u)
  {
  }

  // ---------------------------------------------------------------------------
  // Board-and-sets mutations
  // ---------------------------------------------------------------------------

  /** Placing digit `v` at `(row, col)`: the board write and the three `add`s
      that every search performs together. */
  function PlaceNumber(b: Grid, t: Tracker, row: int, col: int, v: int): (res: (Grid, Tracker))
    requires WellShaped(b) && t.Valid() && OnBoard(row, col)
    ensures WellShaped(res.0) && res.1.Valid()
    ensures res.0[row][col] == v
    ensures forall r, c :: OnBoard(r, c) && (r, c) != (row, col) ==> res.0[r][c] == b[r][c]
    ensures forall u :: ValidUnit(u) ==> res.1.Of(u) == t.Of(u) + (if InUnit(u, row, col) then {v} else {})
  {
    (Put(b, row, col, v), AddToSets(t, row, col, v))
  }

  /** `deleteNumberFromSets`: if the cell holds a positive value, that value leaves
      the cell's row, column and box sets and the cell becomes empty; otherwise
      nothing changes. */
  function DeleteNumberFromSets(b: Grid, t: Tracker, row: int, col: int): (res: (Grid, Tracker))
    requires WellShaped(b) && t.Valid() && OnBoard(row, col)
    ensures WellShaped(res.0) && res.1.Valid()
    ensures b[row][col] <= 0 ==> res == (b, t)
    ensures b[row][col] > 0 ==> res.0[row][col] == 0
    ensures forall r, c :: OnBoard(r, c) && (r, c) != (row, col) ==> res.0[r][c] == b[r][c]
    ensures b[row][col] > 0 ==>
      forall u :: ValidUnit(u) ==> res.1.Of(u) == t.Of(u) - (if InUnit(u, row, col) then {b[row][col]} else {})
  {
    var delNum := b[row][col];
    if delNum > 0 then
      (Put(b, row, col, 0), RemoveFromSets(t, row, col, delNum))
    else
      (b, t)
  }

  /** Placing a legal digit in an empty cell keeps the sets tracking the board,
      keeps the board free of repeats and keeps its values in range. */
  lemma PlaceKeepsInvariant(b: Grid, t: Tracker, row: int, col: int, v: int)
    requires Tracks(b, t) && NoConflicts(b) && InRange(b)
    requires OnBoard(row, col) && b[row][col] == 0 && 1 <= v <= BoardSize && Legal(t, row, col, v)
    ensures Tracks(PlaceNumber(b, t, row, col, v).0, PlaceNumber(b, t, row, col, v).1)
    ensures NoConflicts(PlaceNumber(b, t, row, col, v).0)
    ensures InRange(PlaceNumber(b, t, row, col, v).0)
  {
    var (b', t') := PlaceNumber(b, t, row, col, v);
    forall u | ValidUnit(u) ensures t'.Of(u) == DigitsBefore(b', u, CellCount) {
      DigitsFill(b, u, row, col, v);
    }
    LegalIff(b, t, row, col, v);
    forall r1, c1, r2, c2 | OnBoard(r1, c1) && OnBoard(r2, c2) && Peers(r1, c1, r2, c2) && b'[r1][c1] != 0
      ensures b'[r1][c1] != b'[r2][c2]
    {
      if (r1, c1) == (row, col) {
        assert b[r2][c2] != v;
      } else if (r2, c2) == (row, col) {
        assert Peers(row, col, r1, c1);
      }
    }
  }

  /** Deleting a cell of a repeat-free board keeps the sets tracking the board. */
  lemma DeleteKeepsInvariant(b: Grid, t: Tracker, row: int, col: int)
    requires Tracks(b, t) && NoConflicts(b) && InRange(b) && OnBoard(row, col)
    ensures Tracks(DeleteNumberFromSets(b, t, row, col).0, DeleteNumberFromSets(b, t, row, col).1)
    ensures NoConflicts(DeleteNumberFromSets(b, t, row, col).0)
    ensures InRange(DeleteNumberFromSets(b, t, row, col).0)
  {
    var (b', t') := DeleteNumberFromSets(b, t, row, col);
    if b[row][col] > 0 {
      forall u | ValidUnit(u) ensures t'.Of(u) == DigitsBefore(b', u, CellCount) {
        DigitsClear(b, u, row, col);
      }
    }
  }

  /** Deleting a digit just placed in an empty cell restores both the board and the sets. */
  lemma PlaceThenDelete(b: Grid, t: Tracker, row: int, col: int, v: int)
    requires Tracks(b, t) && OnBoard(row, col) && b[row][col] == 0 && 1 <= v <= BoardSize && Legal(t, row, col, v)
    ensures DeleteNumberFromSets(PlaceNumber(b, t, row, col, v).0, PlaceNumber(b, t, row, col, v).1, row, col) == (b, t)
  {
    var (b1, t1) := PlaceNumber(b, t, row, col, v);
    var (b2, t2) := DeleteNumberFromSets(b1, t1, row, col);
    GridExt(b2, b);
    assert t2.rows == t.rows;
    assert t2.cols == t.cols;
    assert t2.boxes == t.boxes;
  }

  // ---------------------------------------------------------------------------
  // Reading the sets: findAnswer and mrvHelper
  // ---------------------------------------------------------------------------

  /** `findAnswer`: the smallest digit above `startNum` (and at most 9) that is
      absent from all three sets of the cell, or 0 when there is none. */
  function FindAnswer(t: Tracker, row: int, col: int, startNum: int): (a: int)
    requires t.Valid() && OnBoard(row, col)
    ensures a != 0 ==> startNum < a <= BoardSize && Legal(t, row, col, a)
    ensures a != 0 ==> forall v :: startNum < v < a ==> !Legal(t, row, col, v)
    ensures a == 0 ==> (startNum < 0 && Legal(t, row, col, 0)) || forall v :: startNum < v <= BoardSize ==> !Legal(t, row, col, v)
    decreases BoardSize - startNum
  {
    var i := startNum + 1;
    if i > BoardSize then 0
    else if Legal(t, row, col, i) then i
    else FindAnswer(t, row, col, i)
  }

  /** The digits 1..9 still open for cell `(row, col)`. */
  ghost function Candidates(t: Tracker, row: int, col: int): set<int>
    requires t.Valid() && OnBoard(row, col)
  {
    set v | 1 <= v <= BoardSize && Legal(t, row, col, v)
  }

  /** The open digits in `from..9` are those in `from + 1..9`, plus `from` when it is open. */
  lemma OpenSplit(t: Tracker, row: int, col: int, from: int)
    requires t.Valid() && OnBoard(row, col) && 1 <= from <= BoardSize
    ensures (set v | from <= v <= BoardSize && Legal(t, row, col, v))
         == (set v | from + 1 <= v <= BoardSize && Legal(t, row, col, v)) + (if Legal(t, row, col, from) then {from} else {})
    ensures from !in (set v | from + 1 <= v <= BoardSize && Legal(t, row, col, v))
  {
  }

  /** The number of open digits in `from..9`, counted one digit at a time. */
  function CountOpenFrom(t: Tracker, row: int, col: int, from: int): (n: int)
    requires t.Valid() && OnBoard(row, col) && 1 <= from <= BoardSize + 1
    ensures n == |set v | from <= v <= BoardSize && Legal(t, row, col, v)|
    ensures 0 <= n <= BoardSize + 1 - from
    decreases BoardSize + 1 - from
  {
    if from > BoardSize then
      assert (set v | from <= v <= BoardSize && Legal(t, row, col, v)) == {};
      0
    else
      OpenSplit(t, row, col, from);
      var rest := CountOpenFrom(t, row, col, from + 1);
      if Legal(t, row, col, from) then rest + 1 else rest
  }

  /** `mrvHelper`: how many digits 1..9 are absent from all three sets of the cell. */
  function MrvHelper(t: Tracker, row: int, col: int): (n: int)
    requires t.Valid() && OnBoard(row, col)
    ensures n == |Candidates(t, row, col)|
    ensures 0 <= n <= BoardSize
  {
    CountOpenFrom(t, row, col, 1)
  }

  /** A cell has no open digit exactly when `findAnswer` from 0 finds nothing. */
  lemma NoCandidatesIff(t: Tracker, row: int, col: int)
    requires t.Valid() && OnBoard(row, col)
    ensures MrvHelper(t, row, col) == 0 <==> FindAnswer(t, row, col, 0) == 0
  {
    var a := FindAnswer(t, row, col, 0);
    if a != 0 {
      assert a in Candidates(t, row, col);
    }
  }
}
