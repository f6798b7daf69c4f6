/// Concrete boards taken from the repository's tests, with what the grid
/// rules say about them.
module Fixtures {
  import opened Rules

  /// The board of tests/test_gameposition.py: a 7 at row 0, column 1, and
  /// a last row holding 2 .. 9 after an empty cell.
  const Sparse: Grid := [
    [0, 7, 0, 0, 0, 0, 0, 0, 0],
    [0, 0, 0, 0, 0, 0, 0, 0, 0],
    [0, 0, 0, 0, 0, 0, 0, 0, 0],
    [0, 0, 0, 0, 0, 0, 0, 0, 0],
    [0, 0, 0, 0, 0, 0, 0, 0, 0],
    [0, 0, 0, 0, 0, 0, 0, 0, 0],
    [0, 0, 0, 0, 0, 0, 0, 0, 0],
    [0, 0, 0, 0, 0, 0, 0, 0, 0],
    [0, 2, 3, 4, 5, 6, 7, 8, 9]]

  /// The solved board of tests/test_game.py.
  const Solved: Grid := [
    [4, 1, 7, 3, 6, 9, 8, 2, 5],
    [6, 3, 2, 1, 5, 8, 9, 4, 7],
    [9, 5, 8, 7, 2, 4, 3, 1, 6],
    [8, 2, 5, 4, 3, 7, 1, 6, 9],
    [7, 9, 1, 5, 8, 6, 4, 3, 2],
    [3, 4, 6, 9, 1, 2, 7, 5, 8],
    [2, 8, 9, 6, 4, 3, 5, 7, 1],
    [5, 7, 3, 2, 9, 1, 6, 8, 4],
    [1, 6, 4, 8, 7, 5, 2, 9, 3]]

  /// The top left cell of `Sparse` may take every digit but the 7 beside it:
  /// the last row's digits are in neither its row, its column nor its box.
  lemma SparseCorner()
    ensures forall d :: d in Candidates(Sparse, 0, 0) <==> 1 <= d <= 9 && d != 7
  {
    SparseCornerViews();
    forall d | 1 <= d <= 9
      ensures d in Sparse[0] <==> d == 7
    {
    }
  }

  /// The box, the row and the column of the top left cell of `Sparse`.
  lemma SparseCornerViews()
    ensures Box(Sparse, 0, 0) == [0, 7, 0, 0, 0, 0, 0, 0, 0] == Sparse[0]
    ensures Column(Sparse, 0) == [0, 0, 0, 0, 0, 0, 0, 0, 0]
  {
  }

  /// Every row and every column of `Solved` passes `check_line` and
  /// `check_column`.
  lemma SolvedLinesPass()
    ensures forall r :: 0 <= r < 9 ==> AllDiff(Solved[r])
    ensures forall c :: 0 <= c < 9 ==> AllDiff(Column(Solved, c))
  {
    forall r | 0 <= r < 9
      ensures AllDiff(Solved[r])
    {
      AllDigitsPass(Solved[r]);
    }
    forall c | 0 <= c < 9
      ensures AllDiff(Column(Solved, c))
    {
      SolvedColumn(c);
    }
  }

  /// Every box of `Solved` passes `check_region`.
  lemma SolvedBoxesPass()
    ensures forall r, c :: 0 <= r < 9 && 0 <= c < 9 ==> NoRepeat(Box(Solved, r, c))
  {
    forall r, c | 0 <= r < 9 && 0 <= c < 9
      ensures NoRepeat(Box(Solved, r, c))
    {
      BoxOfStart(Solved, r, c);
      var x, y := BoxStart(r), BoxStart(c);
      if x == 0 {
        SolvedBoxesTop(y);
      } else if x == 3 {
        SolvedBoxesMiddle(y);
      } else {
        SolvedBoxesBottom(y);
      }
    }
  }

  /// `Solved` passes `check_position` at every cell.
  lemma SolvedConsistent()
    ensures GridOk(Solved)
  {
    SolvedLinesPass();
    SolvedBoxesPass();
  }

  lemma SolvedIsGrid()
    ensures IsGrid(Solved)
  {
  }

  /// Column c of `Solved` holds every digit once.
  lemma SolvedColumn(c: int)
    requires 0 <= c < 9
    ensures AllDiff(Column(Solved, c))
  {
    SolvedIsGrid();
    var col := Column(Solved, c);
    if c == 0 {
      assert col == [4, 6, 9, 8, 7, 3, 2, 5, 1];
    } else if c == 1 {
      assert col == [1, 3, 5, 2, 9, 4, 8, 7, 6];
    } else if c == 2 {
      assert col == [7, 2, 8, 5, 1, 6, 9, 3, 4];
    } else if c == 3 {
      assert col == [3, 1, 7, 4, 5, 9, 6, 2, 8];
    } else if c == 4 {
      assert col == [6, 5, 2, 3, 8, 1, 4, 9, 7];
    } else if c == 5 {
      assert col == [9, 8, 4, 7, 6, 2, 3, 1, 5];
    } else if c == 6 {
      assert col == [8, 9, 3, 1, 4, 7, 5, 6, 2];
    } else if c == 7 {
      assert col == [2, 4, 1, 6, 3, 5, 7, 8, 9];
    } else {
      assert col == [5, 7, 6, 9, 2, 8, 1, 4, 3];
    }
    AllDigitsPass(col);
  }

  /// The box of rows 0 to 2 starting at column y of `Solved` holds
  /// every digit once.
  lemma SolvedBoxesTop(y: int)
    requires y == 0 || y == 3 || y == 6
    ensures NoRepeat(Box(Solved, 0, y))
  {
    SolvedIsGrid();
    var box := Box(Solved, 0, y);
    if y == 0 {
      assert box == [4, 1, 7, 6, 3, 2, 9, 5, 8];
    } else if y == 3 {
      assert box == [3, 6, 9, 1, 5, 8, 7, 2, 4];
    } else {
      assert box == [8, 2, 5, 9, 4, 7, 3, 1, 6];
    }
    AllDigitsPass(box);
  }

  /// The box of rows 3 to 5 starting at column y of `Solved` holds
  /// every digit once.
  lemma SolvedBoxesMiddle(y: int)
    requires y == 0 || y == 3 || y == 6
    ensures NoRepeat(Box(Solved, 3, y))
  {
    SolvedIsGrid();
    var box := Box(Solved, 3, y);
    if y == 0 {
      assert box == [8, 2, 5, 7, 9, 1, 3, 4, 6];
    } else if y == 3 {
      assert box == [4, 3, 7, 5, 8, 6, 9, 1, 2];
    } else {
      assert box == [1, 6, 9, 4, 3, 2, 7, 5, 8];
    }
    AllDigitsPass(box);
  }

  /// The box of rows 6 to 8 starting at column y of `Solved` holds
  /// every digit once.
  lemma SolvedBoxesBottom(y: int)
    requires y == 0 || y == 3 || y == 6
    ensures NoRepeat(Box(Solved, 6, y))
  {
    SolvedIsGrid();
    var box := Box(Solved, 6, y);
    if y == 0 {
      assert box == [2, 8, 9, 5, 7, 3, 1, 6, 4];
    } else if y == 3 {
      assert box == [6, 4, 3, 2, 9, 1, 8, 7, 5];
    } else {
      assert box == [5, 7, 1, 6, 8, 4, 2, 9, 3];
    }
    AllDigitsPass(box);
  }

  /// The board of `test_validate_fail_middle`: `Solved` with the 8 at the
  /// centre replaced by a 7.
  const Broken: Grid := Solved[4 := Solved[4][4 := 7]]

  /// In `Broken` the centre row, the centre column and the centre box each
  /// hold the 7 twice, so `check_line`, `check_column` and `check_region`
  /// all fail at the centre.
  lemma BrokenCentreFails()
    ensures !AllDiff(Broken[4]) && !AllDiff(Column(Broken, 4))
    ensures !NoRepeat(Box(Broken, 4, 4)) && !PositionOk(Broken, 4, 4)
  {
    var row, col, box := Broken[4], Column(Broken, 4), Box(Broken, 4, 4);
    assert row[0] == row[4] == 7;
    assert col[4] == col[8] == 7;
    assert box[2] == box[4] == 7;
  }
}
