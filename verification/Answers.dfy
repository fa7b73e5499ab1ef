/**
  `findRandomAnswer`: the generator's pick among the open digits of a cell.
  The random draw `rand.nextInt(possibleAnswers.size())` is a parameter.
 */
module Answers {
  import opened Board
  import opened Constraints

  /** The open digits in `from..9`, in increasing order: the list the source
      builds by testing 1..9 against the three sets. */
  function PossibleFrom(t: Tracker, row: int, col: int, from: int): (ps: seq<int>)
    requires t.Valid() && OnBoard(row, col) && 1 <= from <= BoardSize + 1
    ensures forall i :: 0 <= i < |ps| ==> from <= ps[i]
    ensures forall v :: v in ps <==> from <= v <= BoardSize && Legal(t, row, col, v)
    ensures forall i, j :: 0 <= i < j < |ps| ==> ps[i] < ps[j]
    decreases BoardSize + 1 - from
  {
    if from > BoardSize then []
    else if Legal(t, row, col, from) then [from] + PossibleFrom(t, row, col, from + 1)
    else PossibleFrom(t, row, col, from + 1)
  }

  /** The list is as long as `mrvHelper`'s count of the same digits. */
  lemma {:induction false} PossibleFromLength(t: Tracker, row: int, col: int, from: int)
    requires t.Valid() && OnBoard(row, col) && 1 <= from <= BoardSize + 1
    ensures |PossibleFrom(t, row, col, from)| == CountOpenFrom(t, row, col, from)
    decreases BoardSize + 1 - from
  {
    if from <= BoardSize {
      PossibleFromLength(t, row, col, from + 1);
    }
  }

  /** `possibleAnswers`: every open digit of the cell, smallest first. */
  function PossibleAnswers(t: Tracker, row: int, col: int): (ps: seq<int>)
    requires t.Valid() && OnBoard(row, col)
    ensures |ps| == MrvHelper(t, row, col)
    ensures forall v :: v in ps <==> v in Candidates(t, row, col)
    ensures forall i, j :: 0 <= i < j < |ps| ==> ps[i] < ps[j]
  {
    PossibleFromLength(t, row, col, 1);
    PossibleFrom(t, row, col, 1)
  }

  /** `findRandomAnswer` with the draw `pick` supplied: 0 when the cell has no
      open digit, otherwise the open digit at position `pick` of the list. */
  function FindRandomAnswer(t: Tracker, row: int, col: int, pick: int): (a: int)
    requires t.Valid() && OnBoard(row, col)
    requires 0 <= pick < MrvHelper(t, row, col) || MrvHelper(t, row, col) == 0
    ensures a == 0 <==> MrvHelper(t, row, col) == 0
    ensures a != 0 ==> a in Candidates(t, row, col)
  {
    var possible := PossibleAnswers(t, row, col);
    if |possible| == 0 then 0 else possible[pick]
  }

  /** Every open digit is the answer for some draw. */
  lemma RandomAnswerCovers(t: Tracker, row: int, col: int, v: int)
    requires t.Valid() && OnBoard(row, col)
    ensures v in Candidates(t, row, col) ==>
      exists pick :: 0 <= pick < MrvHelper(t, row, col) && FindRandomAnswer(t, row, col, pick) == v
  {
    var ps := PossibleAnswers(t, row, col);
    if v in Candidates(t, row, col) {
      var i :| 0 <= i < |ps| && ps[i] == v;
      assert FindRandomAnswer(t, row, col, i) == v;
    }
  }

  /** `findAnswer`'s deterministic choice is the draw 0: the smallest open digit. */
  lemma RandomAnswerFirst(t: Tracker, row: int, col: int)
    requires t.Valid() && OnBoard(row, col)
    ensures MrvHelper(t, row, col) > 0 ==> FindRandomAnswer(t, row, col, 0) == FindAnswer(t, row, col, 0)
  {
    var ps := PossibleAnswers(t, row, col);
    if |ps| > 0 {
      var a := FindAnswer(t, row, col, 0);
      NoCandidatesIff(t, row, col);
      assert a in Candidates(t, row, col);
      var k :| 0 <= k < |ps| && ps[k] == a;
      assert ps[0] <= ps[k];
      assert ps[0] in Candidates(t, row, col);
    }
  }
}
