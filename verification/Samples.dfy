/**
  Two of the source's sample puzzles. The empty board has more than one
  solution, so `countUniqueSolutions` reports 2 for it. The first
  "contradictory" puzzle is a valid start board that has no solution, so it
  reports 0.
 */
module Samples {
  import opened Board
  import opened Constraints
  import opened Count
  import opened Validate
  import opened Units

  /** The board of 81 empty cells. */
  function EmptyBoard(): (b: Grid)
    ensures WellShaped(b)
    ensures forall r, c :: OnBoard(r, c) ==> b[r][c] == 0
  {
    seq(BoardSize, _ => seq(BoardSize, _ => 0))
  }

  /** A family of solved boards: row `r` is the digits 1..9 rotated by
      `3 * (r % 3) + r / 3 + shift`. */
  function Pattern(shift: int): (b: Grid)
    ensures WellShaped(b)
    ensures forall r, c :: OnBoard(r, c) ==> b[r][c] == (3 * (r % 3) + r / 3 + c + shift) % 9 + 1
  {
    seq(BoardSize, r => seq(BoardSize, c => (3 * (r % 3) + r / 3 + c + shift) % 9 + 1))
  }

  /** Two numbers less than 9 apart with the same remainder modulo 9 are equal. */
  lemma SameResidue(x: int, y: int)
    ensures -9 < x - y < 9 && x % 9 == y % 9 ==> x == y
  {
  }

  /** A row is determined by `3 * (r % 3) + r / 3`, and a cell of a box by
      `3 * (r % 3) + c % 3`. */
  lemma CodesDetermine(r1: int, c1: int, r2: int, c2: int)
    requires OnBoard(r1, c1) && OnBoard(r2, c2)
    ensures 3 * (r1 % 3) + r1 / 3 == 3 * (r2 % 3) + r2 / 3 ==> r1 == r2
    ensures 3 * (r1 % 3) + c1 % 3 == 3 * (r2 % 3) + c2 % 3 ==> r1 % 3 == r2 % 3 && c1 % 3 == c2 % 3
  {
  }

  lemma PatternSolved(shift: int)
    ensures Solved(Pattern(shift))
  {
    var b := Pattern(shift);
    forall r1, c1, r2, c2 | OnBoard(r1, c1) && OnBoard(r2, c2) && Peers(r1, c1, r2, c2) && b[r1][c1] != 0
      ensures b[r1][c1] != b[r2][c2]
    {
      var x := 3 * (r1 % 3) + r1 / 3 + c1 + shift;
      var y := 3 * (r2 % 3) + r2 / 3 + c2 + shift;
      SameResidue(x, y);
      CodesDetermine(r1, c1, r2, c2);
      if r1 != r2 && c1 != c2 {
        SameBoxIff(r1, c1, r2, c2);
        assert x - y == 3 * (r1 % 3) + c1 % 3 - 3 * (r2 % 3) - c2 % 3;
      }
    }
  }

  /** Every cell of `b` is empty. */
  ghost predicate Blank(b: Grid)
  {
    WellShaped(b) && forall r, c :: OnBoard(r, c) ==> b[r][c] == 0
  }

  /** An empty board has at least two solutions, so neither none nor one. */
  lemma BlankSeveral(b: Grid)
    requires Blank(b)
    ensures SeveralSolutions(b) && !NoSolution(b) && !UniqueSolution(b)
  {
    var s0, s1 := Pattern(0), Pattern(1);
    PatternSolved(0);
    PatternSolved(1);
    assert s0[0][0] != s1[0][0];
    assert SolutionOf(s0, b) && SolutionOf(s1, b);
    SeveralExcludes(b);
  }

  /** An empty board is an incomplete valid start, tracked by the empty sets. */
  lemma BlankTracked(b: Grid)
    requires Blank(b)
    ensures ValidStart(b) && Tracks(b, EmptySets()) && !Complete(b)
  {
    forall u | ValidUnit(u)
      ensures EmptySets().Of(u) == DigitsBefore(b, u, CellCount)
    {
      assert DigitsBefore(b, u, CellCount) == {};
    }
    assert b[0][0] == 0;
  }

  /** The source's solution-count sample for the empty board: validate it,
      then count; the count is 2. */
  method CountEmptyBoard() returns (count: int)
    ensures count == 2
  {
    var b := EmptyBoard();
    BlankTracked(b);
    BlankSeveral(b);
    var checked := CheckIfValidStartBoard(b);
    var board, sets;
    count, board, sets := CountUniqueSolutions(b, checked.value);
  }

  /** The first sample puzzle whose expected count is 0. */
  function Contradictory(): (b: Grid)
    ensures WellShaped(b)
  {
    [ [5, 0, 0, 0, 0, 3, 0, 0, 0],
      [0, 0, 9, 8, 0, 0, 0, 5, 3],
      [0, 0, 0, 0, 2, 5, 0, 0, 0],
      [0, 5, 2, 0, 1, 0, 0, 6, 0],
      [0, 0, 0, 0, 0, 0, 9, 0, 2],
      [0, 3, 0, 9, 0, 6, 0, 0, 7],
      [0, 0, 0, 4, 7, 0, 0, 0, 0],
      [0, 0, 0, 1, 0, 0, 0, 0, 0],
      [7, 0, 0, 0, 0, 0, 0, 0, 9] ]
  }

  /** Where the puzzle holds digit `v`. */
  function CluesOf(v: int): seq<Cell>
  {
    if v == 1 then [(3, 4), (7, 3)]
    else if v == 2 then [(2, 4), (3, 2), (4, 8)]
    else if v == 3 then [(0, 5), (1, 8), (5, 1)]
    else if v == 4 then [(6, 3)]
    else if v == 5 then [(0, 0), (1, 7), (2, 5), (3, 1)]
    else if v == 6 then [(3, 7), (5, 5)]
    else if v == 7 then [(5, 8), (6, 4), (8, 0)]
    else if v == 8 then [(1, 3)]
    else if v == 9 then [(1, 2), (4, 6), (5, 3), (8, 8)]
    else []
  }

  /** Every filled cell of the puzzle is listed under its value. */
  lemma ClueListed(r: int, c: int)
    requires OnBoard(r, c)
    ensures Contradictory()[r][c] != 0 ==> (r, c) in CluesOf(Contradictory()[r][c])
  {
  }

  /** Two cells that share no row, no column and no band pair of a box. */
  predicate Apart(p: Cell, q: Cell)
  {
    p.0 != q.0 && p.1 != q.1 && (p.0 / 3 != q.0 / 3 || p.1 / 3 != q.1 / 3)
  }

  predicate Spread(ps: seq<Cell>)
  {
    forall i, j :: 0 <= i < j < |ps| ==> Apart(ps[i], ps[j])
  }

  /** The cells that hold one digit are pairwise apart. */
  lemma CluesSpread(v: int)
    ensures Spread(CluesOf(v))
  {
    if v == 5 || v == 9 {
    } else if v == 2 || v == 3 || v == 7 {
    }
  }

  /** The puzzle is a valid start board with empty cells. */
  lemma ContradictoryValid()
    ensures ValidStart(Contradictory()) && !Complete(Contradictory())
  {
    var b := Contradictory();
    forall r, c | OnBoard(r, c)
      ensures 0 <= b[r][c] <= BoardSize
    {
      ClueListed(r, c);
    }
    forall r1, c1, r2, c2 | OnBoard(r1, c1) && OnBoard(r2, c2) && Peers(r1, c1, r2, c2) && b[r1][c1] != 0
      ensures b[r1][c1] != b[r2][c2]
    {
      var v := b[r1][c1];
      if b[r2][c2] == v {
        var ps := CluesOf(v);
        ClueListed(r1, c1);
        ClueListed(r2, c2);
        CluesSpread(v);
        var i :| 0 <= i < |ps| && ps[i] == (r1, c1);
        var j :| 0 <= j < |ps| && ps[j] == (r2, c2);
        assert Apart(ps[i], ps[j]) || Apart(ps[j], ps[i]);
        SameBoxIff(r1, c1, r2, c2);
      }
    }
    assert b[0][1] == 0;
  }

  /** Two peer cells of a solved board hold different digits. */
  lemma PeersDiffer(s: Grid, r1: int, c1: int, r2: int, c2: int)
    ensures Solved(s) && OnBoard(r1, c1) && OnBoard(r2, c2) && Peers(r1, c1, r2, c2) ==> s[r1][c1] != s[r2][c2]
  {
  }

  /** Digit 2 has no place in row 5: the clue 2 in box 3 rules out columns 0
      and 2, the one in column 4 rules out column 4, the one in box 5 rules
      out columns 6 and 7, and the other cells of the row hold clues. */
  lemma ContradictoryNoSolution()
    ensures NoSolution(Contradictory())
  {
    var b := Contradictory();
    forall s | SolutionOf(s, b)
      ensures false
    {
      SolvedAllDigits(s);
      assert 2 in Digits(s, Row(5));
      DigitsBeforeIff(s, Row(5), CellCount, 2);
      var r, c :| OnBoard(r, c) && r * BoardSize + c < CellCount && InUnit(Row(5), r, c) && s[r][c] != 0 && s[r][c] == 2;
      if c == 0 || c == 2 {
        PeersDiffer(s, 3, 2, 5, c);
      } else if c == 4 {
        PeersDiffer(s, 2, 4, 5, 4);
      } else if c == 6 || c == 7 {
        PeersDiffer(s, 4, 8, 5, c);
      }
    }
  }

  /** The source's first count-0 sample: validated and counted, it gives 0. */
  method CountContradictory() returns (count: int)
    ensures count == 0
  {
    var b := Contradictory();
    ContradictoryValid();
    ContradictoryNoSolution();
    var checked := CheckIfValidStartBoard(b);
    var board, sets;
    count, board, sets := CountUniqueSolutions(b, checked.value);
  }
}
