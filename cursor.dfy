/// The row-major cursor of the board (`cur_x`, `cur_y`) and its two moves
/// `_next` and `_prev`, as functions on a cursor value. The class Sudoku.Game
/// holds the cursor in fields and its methods are specified by these
/// functions.
module Cursor {

  datatype Cursor = Cursor(x: int, y: int)

  /// Where `solve` starts: the last cell.
  const Start := Cursor(8, 8)

  /// Position of the cursor in row-major order.
  function Index(p: Cursor): int {
    9 * p.x + p.y
  }

  /// The column lies in 0..8.
  predicate ColumnInRange(p: Cursor) {
    0 <= p.y <= 8
  }

  predicate InGrid(p: Cursor) {
    0 <= p.x <= 8 && 0 <= p.y <= 8
  }

  /// `_prev`: from column 0 wrap to column 8 of the previous row, otherwise
  /// step one column left. The row-major index drops by exactly one, and
  /// the column stays in 0..8.
  function Back(p: Cursor): (q: Cursor)
    ensures Index(q) == Index(p) - 1
    ensures ColumnInRange(p) ==> ColumnInRange(q)
  {
    if p.y == 0 then Cursor(p.x - 1, 8) else Cursor(p.x, p.y - 1)
  }

  /// `_next`: step one column right, wrapping from column 8 to column 0 of
  /// the next row, except at the last cell, where it steps back instead. The
  /// second component says whether `_back` is set: only at the last cell,
  /// where the index drops by one; elsewhere it rises by exactly one.
  function Forth(p: Cursor): (r: (Cursor, bool))
    ensures p != Start ==> Index(r.0) == Index(p) + 1 && !r.1
    ensures p == Start ==> r == (Cursor(8, 7), true) && Index(r.0) == Index(p) - 1
    ensures ColumnInRange(p) ==> ColumnInRange(r.0)
  {
    if p.y == 8 then
      if p.x == 8 then (Back(p), true) else (Cursor(p.x + 1, 0), false)
    else (Cursor(p.x, p.y + 1), false)
  }

  /// The cursor at row-major index n, with its column in 0..8.
  function FromIndex(n: int): Cursor {
    Cursor(n / 9, n % 9)
  }

  /// On a cursor whose column is in range, the index determines the cursor.
  lemma {:induction false} IndexDetermines(p: Cursor)
    requires ColumnInRange(p)
    ensures FromIndex(Index(p)) == p
  {
    var n := Index(p);
    assert n == 9 * p.x + p.y && 0 <= p.y < 9;
    assert n / 9 == p.x && n % 9 == p.y;
  }

  /// `_prev` undoes `_next` on every cell of the grid except the last one.
  lemma {:induction false} BackUndoesForth(p: Cursor)
    requires InGrid(p) && p != Start
    ensures Back(Forth(p).0) == p
  {
    IndexDetermines(Forth(p).0);
    IndexDetermines(Back(Forth(p).0));
    IndexDetermines(p);
  }

  /// `_prev` from the first cell leaves the grid at (-1, 8), the value of
  /// `cur_x` that ends the `solve` loop.
  lemma BackFromOrigin()
    ensures Back(Cursor(0, 0)) == Cursor(-1, 8)
    ensures Index(Back(Cursor(0, 0))) == -1
  {
    var origin := Cursor(0, 0);
    assert origin.y == 0;
  }

  /// The state after `k` calls of `_prev`.
  function BackTimes(p: Cursor, k: nat): Cursor
    decreases k
  {
    if k == 0 then p else BackTimes(Back(p), k - 1)
  }

  /// `_prev` moves from row-major index n to index n - 1.
  lemma {:induction false} BackIsPredecessor(n: int)
    ensures Back(FromIndex(n)) == FromIndex(n - 1)
  {
    var p := FromIndex(n);
    IndexDetermines(p);
    IndexDetermines(Back(p));
    assert Index(Back(p)) == n - 1;
  }

  /// k calls of `_prev` from index n reach index n - k.
  lemma {:induction false} BackTimesFromIndex(n: int, k: nat)
    decreases k
    ensures BackTimes(FromIndex(n), k) == FromIndex(n - k)
  {
    if k > 0 {
      BackIsPredecessor(n);
      BackTimesFromIndex(n - 1, k - 1);
    }
  }

  /// Stepping back from the start visits every cell in reverse row-major
  /// order and leaves the grid (cur_x == -1) after exactly 81 steps.
  lemma {:induction false} BackwardSweep(k: nat)
    requires k <= 81
    ensures BackTimes(Start, k) == FromIndex(80 - k)
    ensures BackTimes(Start, k).x == -1 <==> k == 81
    ensures k < 81 ==> InGrid(BackTimes(Start, k))
  {
    IndexDetermines(Start);
    BackTimesFromIndex(80, k);
    var n := 80 - k;
    assert -1 <= n <= 80;
    if n == -1 {
      assert FromIndex(n) == Cursor(-1, 8);
    } else {
      assert 0 <= n / 9 <= 8;
    }
  }
}
