/**
  One pass of `generateRandomPuzzle`'s loop: revalidate the board, try a
  random open digit in the drawn cell, count the solutions, and keep, take
  back or finish with that clue. The cell drawn from the shuffled pool and
  the draw inside `findRandomAnswer` are parameters.
 */
module Generate {
  import opened Board
  import opened Constraints
  import opened Validate
  import opened Count
  import opened Answers

  /** What one pass did with the drawn cell. */
  datatype Pass =
    /** The cell has no open digit; the board is unchanged. */
    | NoAnswer
    /** The clue leaves exactly one solution: the loop ends with this board. */
    | Unique(answer: int)
    /** The clue leaves no solution (as counted): it is taken back and the
        cell goes to the failed-cell stack. */
    | Undone(answer: int)
    /** The clue leaves several solutions: it stays, and the loop goes on. */
    | Kept(answer: int)

  /** What a pass that drew `p` at cell `(row, col)` of `b` leaves behind:
      a valid start board, unchanged unless the clue stayed, with exactly one
      solution when the loop ends, several when the clue stays, and none (or
      a full board, which the counter reports as 0) when it is taken back. */
  ghost predicate PassEffect(b: Grid, row: int, col: int, p: Pass, b': Grid)
    requires WellShaped(b) && OnBoard(row, col)
  {
    && ValidStart(b')
    && match p
       case NoAnswer => b' == b
       case Unique(a) => b' == Put(b, row, col, a) && UniqueSolution(b') && !Complete(b')
       case Kept(a) => b' == Put(b, row, col, a) && SeveralSolutions(b')
       case Undone(a) =>
         b' == b && (NoSolution(Put(b, row, col, a)) || Complete(Put(b, row, col, a)))
  }

  /** `countUniqueSolutions` as the generator reads its answer. */
  method CountClue(b: Grid, t: Tracker) returns (count: int)
    requires ValidStart(b) && Tracks(b, t)
    ensures 0 <= count <= 2
    ensures count == 2 ==> SeveralSolutions(b)
    ensures count == 1 ==> UniqueSolution(b)
    ensures count == 0 ==> NoSolution(b) || Complete(b)
    ensures Complete(b) ==> count == 0
  {
    var board, sets;
    count, board, sets := CountUniqueSolutions(b, t);
  }

  /** The part of a pass after an open digit was drawn: place it, count, and
      keep it, take it back or finish. */
  method PlaceAndCount(b: Grid, t: Tracker, row: int, col: int, answer: int) returns (p: Pass, b': Grid)
    requires ValidStart(b) && Tracks(b, t) && OnBoard(row, col) && b[row][col] == 0
    requires answer in Candidates(t, row, col)
    ensures PassEffect(b, row, col, p, b') && !p.NoAnswer? && p.answer == answer
    ensures Complete(Put(b, row, col, answer)) ==> p.Undone?
  {
    var placed := PlaceNumber(b, t, row, col, answer);
    PlaceKeepsInvariant(b, t, row, col, answer);
    var count := CountClue(placed.0, placed.1);
    if count == 2 {
      return Kept(answer), placed.0;
    } else if count == 1 {
      return Unique(answer), placed.0;
    }
    PlaceThenDelete(b, t, row, col, answer);
    var undone := DeleteNumberFromSets(placed.0, placed.1, row, col);
    return Undone(answer), undone.0;
  }

  /** A full board has no solution but itself. */
  lemma CompleteSingle(b: Grid)
    requires WellShaped(b) && Complete(b)
    ensures forall s :: SolutionOf(s, b) ==> s == b
  {
    forall s | SolutionOf(s, b)
      ensures s == b
    {
      GridExt(s, b);
    }
  }

  /** The outcome of a pass is decided by the placed board: two passes that
      placed the same digit end the same way and leave the same board. */
  lemma PassDetermined(b: Grid, row: int, col: int, p1: Pass, b1: Grid, p2: Pass, b2: Grid)
    requires WellShaped(b) && OnBoard(row, col)
    requires PassEffect(b, row, col, p1, b1) && PassEffect(b, row, col, p2, b2)
    requires !p1.NoAnswer? && !p2.NoAnswer? && p1.answer == p2.answer
    ensures p1 == p2 && b1 == b2
  {
    var placed := Put(b, row, col, p1.answer);
    SeveralExcludes(placed);
    if Complete(placed) {
      CompleteSingle(placed);
    }
  }

  /** `t` stands for the sets that the revalidation at the top of the pass
      rebuilds from `b`, and `pick` for the draw `rand.nextInt(size)`.
      Every pass keeps the board a valid start board. */
  method GeneratePass(b: Grid, t: Tracker, row: int, col: int, pick: int) returns (p: Pass, b': Grid)
    requires ValidStart(b) && Tracks(b, t) && OnBoard(row, col) && b[row][col] == 0
    requires 0 <= pick < MrvHelper(t, row, col) || MrvHelper(t, row, col) == 0
    ensures PassEffect(b, row, col, p, b') && ValidStart(b')
    ensures p.NoAnswer? <==> MrvHelper(t, row, col) == 0
    ensures !p.NoAnswer? ==> p.answer == FindRandomAnswer(t, row, col, pick) && p.answer in Candidates(t, row, col)
  {
    var checked := CheckIfValidStartBoard(b);
    TrackerUnique(b, checked.value, t);
    var answer := FindRandomAnswer(t, row, col, pick);
    if answer == 0 {
      return NoAnswer, b;
    }
    p, b' := PlaceAndCount(b, t, row, col, answer);
  }
}
