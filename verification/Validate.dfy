/**
  The two board checks: `checkIfValidStartBoard`, which rejects a malformed or
  self-contradictory puzzle with the first problem it meets in row-major
  order, and `checkIfValidSolution`, which accepts exactly the solved boards.
 */
module Validate {
  import opened Board
  import opened Constraints
  import opened Wrappers
  import opened Units

  /** Why a start board is rejected; each carries what the exception message reports. */
  datatype BoardError =
    | RowCount(found: int)
    | ColumnCount(row: int, found: int)
    | OutOfRange(value: int, row: int, col: int)
    | Duplicate(value: int, row: int, col: int)

  /** Some cell before `(row, col)` in row-major order, in the same row, column
      or box, holds `v`. */
  ghost predicate EarlierPeerHolds(b: Grid, row: int, col: int, v: int)
    requires OnBoard(row, col) && RowsScanned(b, row * BoardSize + col)
  {
    exists r, c :: OnBoard(r, c) && r * BoardSize + c < row * BoardSize + col && Peers(row, col, r, c) && b[r][c] == v
  }

  /** No filled cell among the first `n` repeats a value held by an earlier peer. */
  ghost predicate NoRepeatBefore(b: Grid, n: int)
    requires RowsScanned(b, n)
  {
    forall r, c :: OnBoard(r, c) && r * BoardSize + c < n && b[r][c] != 0 ==> !EarlierPeerHolds(b, r, c, b[r][c])
  }

  /** The first `n` cells lie in rows of length 9, hold values 0..9 and repeat nothing. */
  ghost predicate PrefixOk(b: Grid, n: int)
  {
    && RowsScanned(b, n)
    && (forall r, c :: OnBoard(r, c) && r * BoardSize + c < n ==> 0 <= b[r][c] <= BoardSize)
    && NoRepeatBefore(b, n)
  }

  /** With the sets tracking the cells before `(row, col)`, a nonzero value is
      in one of the cell's three sets exactly when an earlier peer holds it. */
  lemma LegalBeforeIff(b: Grid, t: Tracker, row: int, col: int, v: int)
    requires OnBoard(row, col) && TracksBefore(b, t, row * BoardSize + col) && v != 0
    ensures Legal(t, row, col, v) <==> !EarlierPeerHolds(b, row, col, v)
  {
    var n := row * BoardSize + col;
    if !Legal(t, row, col, v) {
      var u := if v in t.rows[row] then Row(row) else if v in t.cols[col] then Col(col) else Box(BoxIndex(row, col));
      assert v in t.Of(u);
      assert v in DigitsBefore(b, u, n);
      var r, c :| 0 <= r < BoardSize && 0 <= c < BoardSize && r * BoardSize + c < n && InUnit(u, r, c) && b[r][c] != 0 && b[r][c] == v;
      SameUnitPeers(u, row, col, r, c);
    } else {
      forall r, c | OnBoard(r, c) && r * BoardSize + c < n && Peers(row, col, r, c)
        ensures b[r][c] != v
      {
        var u := if r == row then Row(row) else if c == col then Col(col) else Box(BoxIndex(row, col));
        assert InUnit(u, r, c);
        if b[r][c] != 0 {
          assert b[r][c] in DigitsBefore(b, u, n);
        }
      }
    }
  }

  /** Scanning one more cell of a row of length 9: adding its value (if nonzero)
      keeps the sets tracking the scanned cells. */
  lemma TrackStep(b: Grid, t: Tracker, row: int, col: int)
    requires OnBoard(row, col) && TracksBefore(b, t, row * BoardSize + col) && |b[row]| == BoardSize
    ensures b[row][col] != 0 ==> TracksBefore(b, AddToSets(t, row, col, b[row][col]), row * BoardSize + col + 1)
    ensures b[row][col] == 0 ==> TracksBefore(b, t, row * BoardSize + col + 1)
  {
    forall u | ValidUnit(u) {
      DigitsBeforeStep(b, u, row, col);
    }
  }

  /** Scanning one more cell that is in range and not a repeat keeps the prefix good. */
  lemma PrefixStep(b: Grid, row: int, col: int)
    requires OnBoard(row, col) && PrefixOk(b, row * BoardSize + col) && |b[row]| == BoardSize
    requires 0 <= b[row][col] <= BoardSize
    requires b[row][col] != 0 ==> !EarlierPeerHolds(b, row, col, b[row][col])
    ensures PrefixOk(b, row * BoardSize + col + 1)
  {
    var n := row * BoardSize + col;
    assert RowsScanned(b, n + 1);
    forall r, c | OnBoard(r, c) && r * BoardSize + c < n + 1
      ensures 0 <= b[r][c] <= BoardSize
    {
      if (r, c) != (row, col) {
        assert r * BoardSize + c < n;
      }
    }
    forall r, c | OnBoard(r, c) && r * BoardSize + c < n + 1 && b[r][c] != 0
      ensures !EarlierPeerHolds(b, r, c, b[r][c])
    {
      if (r, c) != (row, col) {
        assert r * BoardSize + c < n;
      }
    }
  }

  /** Over the whole board, "no repeat with an earlier peer" is "no repeat". */
  lemma NoRepeatIff(b: Grid)
    requires WellShaped(b)
    ensures NoRepeatBefore(b, CellCount) <==> NoConflicts(b)
  {
    if NoRepeatBefore(b, CellCount) {
      forall r1, c1, r2, c2 | OnBoard(r1, c1) && OnBoard(r2, c2) && Peers(r1, c1, r2, c2) && b[r1][c1] != 0
        ensures b[r1][c1] != b[r2][c2]
      {
        if r2 * BoardSize + c2 < r1 * BoardSize + c1 {
          assert !EarlierPeerHolds(b, r1, c1, b[r1][c1]);
        } else {
          assert r1 * BoardSize + c1 < r2 * BoardSize + c2;
          assert Peers(r2, c2, r1, c1);
          if b[r2][c2] != 0 {
            assert !EarlierPeerHolds(b, r2, c2, b[r2][c2]);
          }
        }
      }
    }
    if NoConflicts(b) {
      forall r, c | OnBoard(r, c) && r * BoardSize + c < CellCount && b[r][c] != 0
        ensures !EarlierPeerHolds(b, r, c, b[r][c])
      {
      }
    }
  }

  /** A whole good prefix is a valid start board. */
  lemma PrefixOkIff(b: Grid)
    requires |b| == BoardSize
    ensures PrefixOk(b, CellCount) <==> ValidStart(b)
  {
    if PrefixOk(b, CellCount) {
      assert WellShaped(b);
      NoRepeatIff(b);
    }
    if ValidStart(b) {
      NoRepeatIff(b);
    }
  }

  /** A row of the wrong length, or a value outside 0..9, rules out a valid start. */
  lemma MalformedRefutes(b: Grid, row: int, col: int)
    requires |b| == BoardSize && 0 <= row < BoardSize
    ensures |b[row]| != BoardSize ==> !ValidStart(b)
    ensures |b[row]| == BoardSize && 0 <= col < BoardSize && !(0 <= b[row][col] <= BoardSize) ==> !ValidStart(b)
  {
  }

  /** A value of cell `(row, col)` found in one of its sets (the sets tracking the
      cells before it) is a nonzero repeat of an earlier peer, so the board is
      not a valid start. */
  lemma DuplicateRefutes(b: Grid, t: Tracker, row: int, col: int)
    requires PrefixOk(b, row * BoardSize + col) && OnBoard(row, col) && |b[row]| == BoardSize
    requires TracksBefore(b, t, row * BoardSize + col)
    ensures !Legal(t, row, col, b[row][col]) ==> b[row][col] != 0 && EarlierPeerHolds(b, row, col, b[row][col])
  {
    var n := row * BoardSize + col;
    var num := b[row][col];
    if !Legal(t, row, col, num) {
      ZeroNeverTracked(b, t, n, Row(row));
      ZeroNeverTracked(b, t, n, Col(col));
      ZeroNeverTracked(b, t, n, Box(BoxIndex(row, col)));
      LegalBeforeIff(b, t, row, col, num);
    }
  }

  /** A value in 0..9 found in none of its sets extends the good prefix, and
      adding it (if nonzero) keeps the sets tracking the scanned cells. */
  lemma StartStep(b: Grid, t: Tracker, row: int, col: int)
    requires PrefixOk(b, row * BoardSize + col) && OnBoard(row, col) && |b[row]| == BoardSize
    requires TracksBefore(b, t, row * BoardSize + col)
    requires 0 <= b[row][col] <= BoardSize && Legal(t, row, col, b[row][col])
    ensures PrefixOk(b, row * BoardSize + col + 1)
    ensures TracksBefore(b, if b[row][col] != 0 then AddToSets(t, row, col, b[row][col]) else t, row * BoardSize + col + 1)
  {
    if b[row][col] != 0 {
      LegalBeforeIff(b, t, row, col, b[row][col]);
    }
    TrackStep(b, t, row, col);
    PrefixStep(b, row, col);
  }

  /** `e` is the problem `checkIfValidStartBoard` meets first on `b`: every
      cell scanned before it is well-formed and repeats nothing. */
  ghost predicate Explains(b: Grid, e: BoardError)
  {
    match e
    case RowCount(found) => found == |b| != BoardSize
    case ColumnCount(row, found) =>
      && 0 <= row < BoardSize && |b| == BoardSize
      && found == |b[row]| != BoardSize
      && PrefixOk(b, row * BoardSize)
    case OutOfRange(value, row, col) =>
      && OnBoard(row, col) && |b| == BoardSize && |b[row]| == BoardSize
      && value == b[row][col] && !(0 <= value <= BoardSize)
      && PrefixOk(b, row * BoardSize + col)
    case Duplicate(value, row, col) =>
      && OnBoard(row, col) && |b| == BoardSize && |b[row]| == BoardSize
      && value == b[row][col] && 1 <= value <= BoardSize
      && PrefixOk(b, row * BoardSize + col)
      && EarlierPeerHolds(b, row, col, value)
  }

  /** Every problem the check can report rules out a valid start board. */
  lemma ErrorRefutes(b: Grid, e: BoardError)
    requires Explains(b, e)
    ensures !ValidStart(b)
  {
    match e
    case RowCount(_) =>
    case ColumnCount(row, _) => MalformedRefutes(b, row, 0);
    case OutOfRange(_, row, col) => MalformedRefutes(b, row, col);
    case Duplicate(v, row, col) =>
      if WellShaped(b) {
        var r, c :| OnBoard(r, c) && r * BoardSize + c < row * BoardSize + col && Peers(row, col, r, c) && b[r][c] == v;
        assert !NoConflicts(b);
      }
  }

  /** What scanning cell `(row, col)` finds: a value out of range, a repeat of
      an earlier peer (both refuting a valid start), or a good value that
      extends the scanned prefix and the sets. */
  lemma CellStep(b: Grid, t: Tracker, row: int, col: int)
    requires PrefixOk(b, row * BoardSize + col) && OnBoard(row, col) && |b[row]| == BoardSize
    requires TracksBefore(b, t, row * BoardSize + col)
    ensures var num := b[row][col];
      !(0 <= num <= BoardSize) ==> Explains(b, OutOfRange(num, row, col)) && !ValidStart(b)
    ensures var num := b[row][col];
      0 <= num <= BoardSize && !Legal(t, row, col, num) ==> Explains(b, Duplicate(num, row, col)) && !ValidStart(b)
    ensures var num := b[row][col];
      0 <= num <= BoardSize && Legal(t, row, col, num) ==>
        && PrefixOk(b, row * BoardSize + col + 1)
        && TracksBefore(b, if num != 0 then AddToSets(t, row, col, num) else t, row * BoardSize + col + 1)
  {
    var num := b[row][col];
    if !(0 <= num <= BoardSize) {
      ErrorRefutes(b, OutOfRange(num, row, col));
    } else if !Legal(t, row, col, num) {
      DuplicateRefutes(b, t, row, col);
      ErrorRefutes(b, Duplicate(num, row, col));
    } else {
      StartStep(b, t, row, col);
    }
  }

  /** The inner loop of `checkIfValidStartBoard` over row `row`, whose length
      has been checked: scan its cells left to right, adding each value to the
      sets, and stop at the first value out of range or already in a set. */
  method CheckRow(b: Grid, t: Tracker, row: int) returns (r: Result<Tracker, BoardError>)
    requires 0 <= row < BoardSize && |b| == BoardSize && |b[row]| == BoardSize
    requires PrefixOk(b, row * BoardSize) && TracksBefore(b, t, row * BoardSize)
    ensures r.Success? ==> PrefixOk(b, row * BoardSize + 9) && TracksBefore(b, r.value, row * BoardSize + 9)
    ensures r.Failure? ==> Explains(b, r.error) && !r.error.RowCount? && !ValidStart(b)
  {
    var t := t;
    var col := 0;
    while col < BoardSize
      invariant 0 <= col <= BoardSize
      invariant PrefixOk(b, row * BoardSize + col) && TracksBefore(b, t, row * BoardSize + col)
    {
      var num := b[row][col];
      CellStep(b, t, row, col);
      if num < 0 || num > BoardSize {
        return Failure(OutOfRange(num, row, col));
      }
      if num in t.rows[row] || num in t.cols[col] || num in t.boxes[BoxIndex(row, col)] {
        return Failure(Duplicate(num, row, col));
      }
      if num != 0 {
        t := AddToSets(t, row, col, num);
      }
      col := col + 1;
    }
    return Success(t);
  }

  /** `checkIfValidStartBoard`: on success the nine row, column and box sets of
      the board; otherwise the first problem met, scanning rows top to bottom
      and each row left to right (a row's length is checked on reaching it). */
  method CheckIfValidStartBoard(b: Grid) returns (r: Result<Tracker, BoardError>)
    ensures r.Success? <==> ValidStart(b)
    ensures r.Success? ==> Tracks(b, r.value)
    ensures r.Failure? ==> Explains(b, r.error)
    ensures r.Failure? && r.error.RowCount? <==> |b| != BoardSize
  {
    if |b| != BoardSize {
      return Failure(RowCount(|b|));
    }
    var t := EmptySets();
    var row := 0;
    while row < BoardSize
      invariant 0 <= row <= BoardSize
      invariant PrefixOk(b, row * BoardSize) && TracksBefore(b, t, row * BoardSize)
    {
      MalformedRefutes(b, row, 0);
      if |b[row]| != BoardSize {
        return Failure(ColumnCount(row, |b[row]|));
      }
      var checked := CheckRow(b, t, row);
      if checked.Failure? {
        return checked;
      }
      t := checked.value;
      row := row + 1;
    }
    PrefixOkIff(b);
    return Success(t);
  }

  /** Every set holds every digit 1..9 for the units numbered below `i`, and for
      unit `i` the digits below `ans`. */
  ghost predicate SetsFullBefore(t: Tracker, i: int, ans: int)
    requires t.Valid() && 0 <= i <= BoardSize
  {
    && (forall k, v :: 0 <= k < i && 1 <= v <= BoardSize ==> v in t.rows[k] && v in t.cols[k] && v in t.boxes[k])
    && (i < BoardSize ==> forall v :: 1 <= v < ans ==> v in t.rows[i] && v in t.cols[i] && v in t.boxes[i])
  }

  /** The first `n` cells are filled. */
  ghost predicate FilledBefore(b: Grid, n: int)
    requires WellShaped(b)
  {
    forall r, c :: OnBoard(r, c) && r * BoardSize + c < n ==> b[r][c] != 0
  }

  /** A filled cell whose value is already in one of its sets (the sets tracking
      the cells before it) repeats an earlier peer, so the board has a repeat. */
  lemma RepeatRefutes(b: Grid, t: Tracker, row: int, col: int)
    requires WellShaped(b) && OnBoard(row, col) && b[row][col] != 0
    requires TracksBefore(b, t, row * BoardSize + col)
    ensures !Legal(t, row, col, b[row][col]) ==> EarlierPeerHolds(b, row, col, b[row][col]) && !NoConflicts(b)
  {
    LegalBeforeIff(b, t, row, col, b[row][col]);
    NoRepeatIff(b);
  }

  /** One cell of the first pass of `checkIfValidSolution`: a filled cell that
      is in none of its sets extends the filled, repeat-free prefix. */
  lemma SolutionStep(b: Grid, t: Tracker, row: int, col: int)
    requires WellShaped(b) && OnBoard(row, col) && b[row][col] != 0
    requires FilledBefore(b, row * BoardSize + col) && NoRepeatBefore(b, row * BoardSize + col) && TracksBefore(b, t, row * BoardSize + col)
    requires Legal(t, row, col, b[row][col])
    ensures FilledBefore(b, row * BoardSize + col + 1) && NoRepeatBefore(b, row * BoardSize + col + 1)
    ensures TracksBefore(b, AddToSets(t, row, col, b[row][col]), row * BoardSize + col + 1)
  {
    LegalBeforeIff(b, t, row, col, b[row][col]);
    TrackStep(b, t, row, col);
    assert forall r, c :: OnBoard(r, c) && r * BoardSize + c < row * BoardSize + col + 1 ==> r * BoardSize + c < row * BoardSize + col || (r, c) == (row, col);
  }

  /** All sets full means every unit holds every digit. */
  lemma SetsFullIff(b: Grid, t: Tracker)
    requires Tracks(b, t)
    ensures SetsFullBefore(t, BoardSize, 1) <==> AllDigits(b)
  {
    if SetsFullBefore(t, BoardSize, 1) {
      forall u, v | ValidUnit(u) && 1 <= v <= BoardSize
        ensures v in Digits(b, u)
      {
        assert v in t.Of(u);
      }
    }
    if AllDigits(b) {
      forall k, v | 0 <= k < BoardSize && 1 <= v <= BoardSize
        ensures v in t.rows[k] && v in t.cols[k] && v in t.boxes[k]
      {
        assert v in Digits(b, Row(k)) && v in Digits(b, Col(k)) && v in Digits(b, Box(k));
        assert v in t.Of(Row(k)) && v in t.Of(Col(k)) && v in t.Of(Box(k));
      }
    }
  }

  /** `checkIfValidSolution`: a first pass that fails on an empty cell or a
      repeat, then a pass that fails unless every set holds 1..9. It accepts a
      board exactly when the board is solved. The sets it rebuilds are
      returned: they hold the whole board after an acceptance, and some
      row-major prefix of it after a rejection. */
  method CheckIfValidSolution(b: Grid) returns (ok: bool, t: Tracker)
    requires WellShaped(b)
    ensures ok <==> ValidSolution(b)
    ensures ok <==> Solved(b)
    ensures ok ==> Tracks(b, t)
    ensures !ok ==> exists n :: 0 <= n <= CellCount && TracksBefore(b, t, n)
  {
    SolvedIffValidSolution(b);
    t := EmptySets();
    var row := 0;
    while row < BoardSize
      invariant 0 <= row <= BoardSize
      invariant FilledBefore(b, row * BoardSize) && NoRepeatBefore(b, row * BoardSize) && TracksBefore(b, t, row * BoardSize)
    {
      var col := 0;
      while col < BoardSize
        invariant 0 <= col <= BoardSize
        invariant FilledBefore(b, row * BoardSize + col) && NoRepeatBefore(b, row * BoardSize + col) && TracksBefore(b, t, row * BoardSize + col)
      {
        var num := b[row][col];
        if num == 0 {
          return false, t;
        }
        RepeatRefutes(b, t, row, col);
        if num in t.rows[row] || num in t.cols[col] || num in t.boxes[BoxIndex(row, col)] {
          return false, t;
        }
        SolutionStep(b, t, row, col);
        t := AddToSets(t, row, col, num);
        col := col + 1;
      }
      row := row + 1;
    }
    assert Complete(b);
    assert Tracks(b, t);
    SetsFullIff(b, t);
    var i := 0;
    while i < BoardSize
      invariant 0 <= i <= BoardSize
      invariant SetsFullBefore(t, i, 1)
    {
      var ans := 1;
      while ans <= BoardSize
        invariant 1 <= ans <= BoardSize + 1
        invariant SetsFullBefore(t, i, ans)
      {
        if ans !in t.rows[i] || ans !in t.cols[i] || ans !in t.boxes[i] {
          return false, t;
        }
        ans := ans + 1;
      }
      i := i + 1;
    }
    return true, t;
  }
}
