/**
  `solvePuzzle`: validate the start board, solve it, and report either the
  solved board or that no solution exists. The printing is replaced by the
  outcome it reports.
 */
module Puzzle {
  import opened Board
  import opened Wrappers
  import opened Validate
  import opened Solve

  /** What `solvePuzzle` ends with: the exception of the start-board check, the
      "no solution" message, or the printed solution. */
  datatype Outcome =
    | Rejected(error: BoardError)
    | Unsolvable
    | SolvedBoard(board: Grid)

  method SolvePuzzle(b: Grid) returns (out: Outcome)
    ensures out.Rejected? <==> !ValidStart(b)
    ensures out.Rejected? ==> Explains(b, out.error)
    ensures out.Unsolvable? <==> ValidStart(b) && NoSolution(b)
    ensures out.SolvedBoard? ==> WellShaped(b) && SolutionOf(out.board, b)
  {
    var checked := CheckIfValidStartBoard(b);
    if checked.Failure? {
      return Rejected(checked.error);
    }
    var solved, _ := SolveBoard(b, checked.value);
    var isValid, _ := CheckIfValidSolution(solved);
    if isValid {
      out := SolvedBoard(solved);
    } else {
      out := Unsolvable;
    }
  }
}
