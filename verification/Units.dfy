/**
  Counting the cells of a unit: every row, column and box has exactly nine
  cells, so a filled unit without repeats holds each digit 1..9 once. This is
  why `checkIfValidSolution`'s final pass (every set holds 1..9) accepts
  exactly the filled boards without repeats whose values are digits.
 */
module Units {
  import opened Board

  /** The `m`-th cell of box `k`, row-major within the box. */
  function BoxCell(k: int, m: int): (p: Cell)
    requires 0 <= k < BoardSize
    ensures 0 <= m < BoardSize ==> OnBoard(p.0, p.1) && InUnit(Box(k), p.0, p.1)
  {
    var p := (3 * (k / 3) + m / 3, 3 * (k % 3) + m % 3);
    if 0 <= m < BoardSize then
      BoxIndexIff(p.0, p.1, k);
      p
    else p
  }

  /** Cell `(r, c)` of box `k` is its cell number `3 * (r % 3) + c % 3`, and no other. */
  lemma BoxCellIff(k: int, m: int, r: int, c: int)
    requires 0 <= k < BoardSize && 0 <= m < BoardSize && OnBoard(r, c) && BoxIndex(r, c) == k
    ensures BoxCell(k, m) == (r, c) <==> m == 3 * (r % 3) + c % 3
  {
    BoxIndexIff(r, c, k);
  }

  /** The nine cells of unit `u`, row-major within the unit. */
  function UnitCells(u: Unit): (cells: seq<Cell>)
    requires ValidUnit(u)
    ensures |cells| == BoardSize
    ensures forall i :: 0 <= i < BoardSize ==> OnBoard(cells[i].0, cells[i].1) && InUnit(u, cells[i].0, cells[i].1)
  {
    match u
    case Row(i) => seq(BoardSize, k => (i, k))
    case Col(j) => seq(BoardSize, k => (k, j))
    case Box(k) => seq(BoardSize, m => BoxCell(k, m))
  }

  /** The nine cells are distinct. */
  lemma UnitCellsDistinct(u: Unit)
    requires ValidUnit(u)
    ensures forall i, j :: 0 <= i < j < BoardSize ==> UnitCells(u)[i] != UnitCells(u)[j]
  {
    if u.Box? {
      var cells := UnitCells(u);
      forall i, j | 0 <= i < j < BoardSize
        ensures cells[i] != cells[j]
      {
        var (r, c) := cells[i];
        BoxCellIff(u.k, i, r, c);
        BoxCellIff(u.k, j, r, c);
      }
    }
  }

  /** Cell `(r, c)` of box `k` is the box's cell number `3 * (r % 3) + c % 3`. */
  lemma BoxCellsCover(k: int, r: int, c: int)
    requires 0 <= k < BoardSize && OnBoard(r, c) && BoxIndex(r, c) == k
    ensures UnitCells(Box(k))[3 * (r % 3) + c % 3] == (r, c)
  {
    var m := 3 * (r % 3) + c % 3;
    assert 0 <= r % 3 < 3 && 0 <= c % 3 < 3;
    assert 0 <= m < BoardSize;
    BoxCellIff(k, m, r, c);
    assert UnitCells(Box(k))[m] == BoxCell(k, m);
  }

  /** Every cell of the unit is one of the nine. */
  lemma UnitCellsCover(u: Unit, r: int, c: int)
    requires ValidUnit(u) && OnBoard(r, c) && InUnit(u, r, c)
    ensures exists i :: 0 <= i < BoardSize && UnitCells(u)[i] == (r, c)
  {
    match u
    case Row(_) => assert UnitCells(u)[c] == (r, c);
    case Col(_) => assert UnitCells(u)[r] == (r, c);
    case Box(k) => BoxCellsCover(k, r, c);
  }

  /** The nine cells are distinct and are all the cells of the unit. */
  lemma UnitCellsExact(u: Unit)
    requires ValidUnit(u)
    ensures forall i, j :: 0 <= i < j < BoardSize ==> UnitCells(u)[i] != UnitCells(u)[j]
    ensures forall r, c :: OnBoard(r, c) && InUnit(u, r, c) ==> exists i :: 0 <= i < BoardSize && UnitCells(u)[i] == (r, c)
  {
    UnitCellsDistinct(u);
    forall r, c | OnBoard(r, c) && InUnit(u, r, c)
      ensures exists i :: 0 <= i < BoardSize && UnitCells(u)[i] == (r, c)
    {
      UnitCellsCover(u, r, c);
    }
  }

  /** The values a board holds in the cells of unit `u`. */
  function UnitValues(b: Grid, u: Unit): (vs: seq<int>)
    requires WellShaped(b) && ValidUnit(u)
    ensures |vs| == BoardSize
    ensures forall i :: 0 <= i < BoardSize ==> vs[i] == b[UnitCells(u)[i].0][UnitCells(u)[i].1]
  {
    var cells := UnitCells(u);
    seq(BoardSize, i requires 0 <= i < BoardSize => b[cells[i].0][cells[i].1])
  }

  // ---------------------------------------------------------------------------
  // Cardinalities
  // ---------------------------------------------------------------------------

  /** A set that holds `|xs|` distinct values has at least `|xs|` elements. */
  lemma {:induction false} DistinctInSet(xs: seq<int>, s: set<int>)
    requires forall i, j :: 0 <= i < j < |xs| ==> xs[i] != xs[j]
    requires forall i :: 0 <= i < |xs| ==> xs[i] in s
    ensures |s| >= |xs|
  {
    if |xs| > 0 {
      var last := xs[|xs| - 1];
      DistinctInSet(xs[..|xs| - 1], s - {last});
    }
  }

  /** The values that occur in `xs`. */
  ghost function Image(xs: seq<int>): set<int>
  {
    set i | 0 <= i < |xs| :: xs[i]
  }

  lemma {:induction false} ImageSize(xs: seq<int>)
    ensures |Image(xs)| <= |xs|
  {
    if |xs| > 0 {
      var front := xs[..|xs| - 1];
      ImageSize(front);
      assert Image(xs) == Image(front) + {xs[|xs| - 1]} by {
        forall x | x in Image(xs) ensures x in Image(front) + {xs[|xs| - 1]} {
          var i :| 0 <= i < |xs| && xs[i] == x;
          if i < |xs| - 1 {
            assert front[i] == x;
          }
        }
        forall x | x in Image(front) ensures x in Image(xs) {
          var i :| 0 <= i < |front| && front[i] == x;
          assert xs[i] == x;
        }
      }
    } else {
      assert Image(xs) == {};
    }
  }

  /** A set of values drawn from `xs` has at most `|xs|` elements. */
  lemma DrawnFromSeq(xs: seq<int>, s: set<int>)
    requires forall x :: x in s ==> exists i :: 0 <= i < |xs| && xs[i] == x
    ensures |s| <= |xs|
  {
    forall x | x in s ensures x in Image(xs) {
      var i :| 0 <= i < |xs| && xs[i] == x;
    }
    ImageSize(xs);
    assert |Image(xs)| == |s| + |Image(xs) - s|;
  }

  /** The digits 1..9. */
  const DigitSet: set<int> := {1, 2, 3, 4, 5, 6, 7, 8, 9}

  lemma DigitSetSize()
    ensures |DigitSet| == BoardSize
    ensures forall v :: v in DigitSet <==> 1 <= v <= BoardSize
  {
  }

  /** A subset at least as large as its superset is the superset. */
  lemma SubsetFull(a: set<int>, b: set<int>)
    requires a <= b && |a| >= |b|
    ensures a == b
  {
    assert |b| == |a| + |b - a|;
  }

  /** The digits of a unit are exactly the nonzero values in its nine cells. */
  lemma DigitsOfUnit(b: Grid, u: Unit)
    requires WellShaped(b) && ValidUnit(u)
    ensures forall x :: x in Digits(b, u) <==> x != 0 && exists i :: 0 <= i < BoardSize && UnitValues(b, u)[i] == x
  {
    var cells := UnitCells(u);
    var vs := UnitValues(b, u);
    UnitCellsExact(u);
    forall x | x in Digits(b, u)
      ensures x != 0 && exists i :: 0 <= i < BoardSize && vs[i] == x
    {
      var r, c :| 0 <= r < BoardSize && 0 <= c < BoardSize && r * BoardSize + c < CellCount && InUnit(u, r, c) && b[r][c] != 0 && b[r][c] == x;
      var i :| 0 <= i < BoardSize && cells[i] == (r, c);
      assert vs[i] == x;
    }
    forall x | x != 0 && exists i :: 0 <= i < BoardSize && vs[i] == x
      ensures x in Digits(b, u)
    {
      var i :| 0 <= i < BoardSize && vs[i] == x;
      var r, c := cells[i].0, cells[i].1;
      assert b[r][c] == x && r * BoardSize + c < CellCount;
    }
  }

  // ---------------------------------------------------------------------------
  // The pigeonhole argument
  // ---------------------------------------------------------------------------

  /** In a solved board every unit holds all nine digits. */
  lemma SolvedUnitFull(b: Grid, u: Unit)
    requires Solved(b) && ValidUnit(u)
    ensures Digits(b, u) == DigitSet
  {
    var cells := UnitCells(u);
    var vs := UnitValues(b, u);
    UnitCellsExact(u);
    DigitsOfUnit(b, u);
    forall i, j | 0 <= i < j < BoardSize
      ensures vs[i] != vs[j]
    {
      SameUnitPeers(u, cells[i].0, cells[i].1, cells[j].0, cells[j].1);
    }
    forall i | 0 <= i < BoardSize
      ensures vs[i] in Digits(b, u)
    {
    }
    DistinctInSet(vs, Digits(b, u));
    DigitSetSize();
    SubsetFull(Digits(b, u), DigitSet);
  }

  /** A unit holding all nine digits holds no other value. */
  lemma FullUnitInRange(b: Grid, u: Unit)
    requires WellShaped(b) && ValidUnit(u)
    requires DigitSet <= Digits(b, u)
    ensures Digits(b, u) == DigitSet
  {
    var vs := UnitValues(b, u);
    DigitsOfUnit(b, u);
    DrawnFromSeq(vs, Digits(b, u));
    DigitSetSize();
    SubsetFull(DigitSet, Digits(b, u));
  }

  /** A solved board holds every digit in every unit. */
  lemma SolvedAllDigits(b: Grid)
    requires Solved(b)
    ensures AllDigits(b)
  {
    forall u, v | ValidUnit(u) && 1 <= v <= BoardSize
      ensures v in Digits(b, u)
    {
      SolvedUnitFull(b, u);
      DigitSetSize();
    }
  }

  /** On a board whose rows hold every digit, a filled cell holds a digit. */
  lemma AllDigitsCellInRange(b: Grid, r: int, c: int)
    requires WellShaped(b) && AllDigits(b) && OnBoard(r, c) && b[r][c] != 0
    ensures 1 <= b[r][c] <= BoardSize
  {
    var u := Row(r);
    forall v | v in DigitSet ensures v in Digits(b, u) { }
    FullUnitInRange(b, u);
    DigitsBeforeIff(b, u, CellCount, b[r][c]);
  }

  /** What `checkIfValidSolution` accepts is exactly a solved board: filled,
      without repeats, and (by counting) with every value a digit 1..9. */
  lemma SolvedIffValidSolution(b: Grid)
    requires WellShaped(b)
    ensures Solved(b) <==> ValidSolution(b)
  {
    if Solved(b) {
      SolvedAllDigits(b);
    }
    if ValidSolution(b) {
      forall r, c | OnBoard(r, c)
        ensures 0 <= b[r][c] <= BoardSize
      {
        AllDigitsCellInRange(b, r, c);
      }
    }
  }
}
