/// The grid rules of the solver, as pure functions over a 9x9 grid of
/// integers (0 stands for an empty cell): the duplicate test `_alldiff`, the
/// row, column and 3x3 box views of a cell, the consistency test at one cell
/// (`check_position`) and the candidate digits of a cell
/// (`get_possibilities`).
///
/// Which integer a cell contributes is decided by the caller: the checks use
/// the value a cell was constructed with, `get_possibilities` its current
/// value (see module Sudoku).
module Rules {

  type Grid = seq<seq<int>>

  /// A grid of 9 rows of 9 cells.
  predicate IsGrid(g: Grid) {
    |g| == 9 && forall i :: 0 <= i < 9 ==> |g[i]| == 9
  }

  /// Every cell holds 0 (empty) or a digit 1..9.
  predicate IsDigitGrid(g: Grid)
    requires IsGrid(g)
  {
    forall i, j :: 0 <= i < 9 && 0 <= j < 9 ==> 0 <= g[i][j] <= 9
  }

  /// The entries of `s` that are not 0, in order, each as often as in `s`.
  function NonZero(s: seq<int>): (r: seq<int>)
    ensures |r| <= |s|
    ensures forall x :: x in r <==> x in s && x != 0
    ensures multiset(r) == multiset(s)[0 := 0]
  {
    if s == [] then []
    else
      assert s == s[..|s| - 1] + [s[|s| - 1]];
      NonZero(s[..|s| - 1]) + (if s[|s| - 1] != 0 then [s[|s| - 1]] else [])
  }

  function Elements(s: seq<int>): set<int> {
    set x | x in s
  }

  /// No two entries of `t` are equal.
  predicate Distinct(t: seq<int>) {
    forall i, j :: 0 <= i < j < |t| ==> t[i] != t[j]
  }

  /// No nonzero value occurs twice in `s`: zeros are ignored.
  predicate NoRepeat(s: seq<int>) {
    forall i, j :: 0 <= i < j < |s| && s[i] == s[j] ==> s[i] == 0
  }

  /// `_alldiff`: the set of nonzero entries is as large as their list.
  predicate AllDiff(s: seq<int>)
    ensures AllDiff(s) <==> NoRepeat(s)
  {
    CardinalityIffDistinct(NonZero(s));
    NonZeroDistinct(s);
    |Elements(NonZero(s))| == |NonZero(s)|
  }

  lemma DistinctSnoc(t: seq<int>, x: int)
    ensures Distinct(t + [x]) <==> Distinct(t) && x !in t
  {
    var u := t + [x];
    if Distinct(u) {
      assert forall i, j :: 0 <= i < j < |t| ==> t[i] == u[i] && t[j] == u[j];
      forall k | 0 <= k < |t|
        ensures t[k] != x
      {
        assert u[k] == t[k] && u[|t|] == x;
      }
    }
  }

  lemma NoRepeatSnoc(s: seq<int>, x: int)
    ensures NoRepeat(s + [x]) <==> NoRepeat(s) && (x == 0 || x !in s)
  {
    var u := s + [x];
    if NoRepeat(u) {
      assert forall i, j :: 0 <= i < j < |s| ==> s[i] == u[i] && s[j] == u[j];
      forall k | 0 <= k < |s| && x != 0
        ensures s[k] != x
      {
        assert u[k] == s[k] && u[|s|] == x;
      }
    }
  }

  /// A repeat in a prefix is a repeat in the whole list.
  lemma NoRepeatPrefix(s: seq<int>, n: int)
    requires 0 <= n <= |s|
    ensures NoRepeat(s) ==> NoRepeat(s[..n])
  {
    assert forall i :: 0 <= i < n ==> s[..n][i] == s[i];
  }

  /// Extending a prefix of `s` by the next entry, as the region scans of
  /// `check_region` and `get_possibilities` do.
  lemma ScanStep(s: seq<int>, k: int)
    requires 0 <= k < |s|
    ensures NonZero(s[..k + 1]) == NonZero(s[..k]) + (if s[k] != 0 then [s[k]] else [])
    ensures NoRepeat(s[..k + 1]) <==> NoRepeat(s[..k]) && (s[k] == 0 || s[k] !in NonZero(s[..k]))
    ensures Elements(s[..k + 1]) == Elements(s[..k]) + {s[k]}
  {
    assert s[..k + 1] == s[..k] + [s[k]];
    assert (s[..k] + [s[k]])[..k] == s[..k];
    NoRepeatSnoc(s[..k], s[k]);
  }

  /// `values` holds the nonzero entries among the first k entries of `s`,
  /// in order, and none of them repeats.
  predicate Scanned(s: seq<int>, k: int, values: seq<int>) {
    0 <= k <= |s| && values == NonZero(s[..k]) && Distinct(values)
  }

  /// A scan whose collected nonzero values are distinct and which meets a
  /// zero or a new value still has distinct collected values.
  lemma ScanKeeps(s: seq<int>, k: int, values: seq<int>)
    requires 0 <= k < |s| && values == NonZero(s[..k]) && Distinct(values)
    requires s[k] == 0 || s[k] !in values
    ensures var next := if s[k] != 0 then values + [s[k]] else values;
      next == NonZero(s[..k + 1]) && Distinct(next)
  {
    ScanStep(s, k);
    if s[k] != 0 {
      DistinctSnoc(values, s[k]);
    }
  }

  /// A scan that meets a nonzero value it has already collected has found
  /// a repeat in the whole list.
  lemma ScanFails(s: seq<int>, k: int, values: seq<int>)
    requires 0 <= k < |s| && values == NonZero(s[..k])
    requires s[k] != 0 && s[k] in values
    ensures !NoRepeat(s)
  {
    ScanStep(s, k);
    NoRepeatPrefix(s, k + 1);
  }

  /// A scan of the whole list with distinct collected values finds no repeat.
  lemma ScanDone(s: seq<int>, values: seq<int>)
    requires values == NonZero(s[..|s|]) && Distinct(values)
    ensures NoRepeat(s)
  {
    assert s[..|s|] == s;
    NonZeroDistinct(s);
  }

  /// A list has as many distinct elements as entries exactly when no entry repeats.
  lemma {:induction false} CardinalityIffDistinct(t: seq<int>)
    ensures |Elements(t)| <= |t|
    ensures |Elements(t)| == |t| <==> Distinct(t)
  {
    if t != [] {
      var u, x := t[..|t| - 1], t[|t| - 1];
      assert t == u + [x];
      CardinalityIffDistinct(u);
      DistinctSnoc(u, x);
      assert Elements(t) == Elements(u) + {x};
      if x in u {
        assert Elements(t) == Elements(u);
      } else {
        assert |Elements(t)| == |Elements(u)| + 1;
      }
    }
  }

  /// A line of 9 entries holding every digit 1..9, as every row, column and
  /// box of a solved puzzle does, passes `_alldiff`.
  lemma AllDigitsPass(s: seq<int>)
    requires |s| == 9 && forall d :: 1 <= d <= 9 ==> d in s
    ensures AllDiff(s)
  {
    var digits := {1, 2, 3, 4, 5, 6, 7, 8, 9};
    assert digits <= Elements(s);
    CardinalityIffDistinct(s);
    assert |digits| == 9;
    SubsetCardinality(digits, Elements(s));
  }

  lemma SubsetCardinality(a: set<int>, b: set<int>)
    requires a <= b
    ensures |a| <= |b|
  {
    assert b == a + (b - a);
  }

  /// The nonzero entries are pairwise distinct exactly when no nonzero value repeats.
  lemma {:induction false} NonZeroDistinct(s: seq<int>)
    ensures Distinct(NonZero(s)) <==> NoRepeat(s)
  {
    if s != [] {
      var u, x := s[..|s| - 1], s[|s| - 1];
      assert s == u + [x];
      assert NonZero(s) == NonZero(u) + (if x != 0 then [x] else []);
      NonZeroDistinct(u);
      NoRepeatSnoc(u, x);
      if x != 0 {
        DistinctSnoc(NonZero(u), x);
        assert x in NonZero(u) <==> x in u;
      } else {
        assert NonZero(s) == NonZero(u);
      }
    }
  }

  /// First row (or column) of the 3x3 box holding row (or column) `n`:
  /// `n // 3 * 3`, Python's floor division, which agrees with Dafny's on n >= 0.
  function BoxStart(n: int): (s: int)
    requires 0 <= n < 9
    ensures s == if n < 3 then 0 else if n < 6 then 3 else 6
  {
    n / 3 * 3
  }

  function Column(g: Grid, c: int): (col: seq<int>)
    requires IsGrid(g) && 0 <= c < 9
    ensures |col| == 9 && forall i :: 0 <= i < 9 ==> col[i] == g[i][c]
  {
    seq(9, i requires 0 <= i < 9 => g[i][c])
  }

  /// Row offset inside a box of its k-th cell, read row by row: k // 3.
  function BoxRow(k: int): (i: int)
    requires 0 <= k < 9
    ensures 0 <= i < 3 && 0 <= k - 3 * i < 3
  {
    if k < 3 then 0 else if k < 6 then 1 else 2
  }

  /// The 3x3 box of cell (r, c), read row by row as `check_region` and
  /// `get_possibilities` visit it.
  function Box(g: Grid, r: int, c: int): (b: seq<int>)
    requires IsGrid(g) && 0 <= r < 9 && 0 <= c < 9
    ensures |b| == 9
  {
    seq(9, k requires 0 <= k < 9 => g[BoxStart(r) + BoxRow(k)][BoxStart(c) + k - 3 * BoxRow(k)])
  }

  /// The box is the three columns of the box in its first row, then in its
  /// second, then in its third.
  lemma BoxRows(g: Grid, r: int, c: int)
    requires IsGrid(g) && 0 <= r < 9 && 0 <= c < 9
    ensures var x, y := BoxStart(r), BoxStart(c);
      Box(g, r, c) == g[x][y..y + 3] + g[x + 1][y..y + 3] + g[x + 2][y..y + 3]
  {
    var x, y := BoxStart(r), BoxStart(c);
    var rows := g[x][y..y + 3] + g[x + 1][y..y + 3] + g[x + 2][y..y + 3];
    forall k | 0 <= k < 9
      ensures Box(g, r, c)[k] == rows[k]
    {
      assert BoxRow(k) == k / 3;
    }
  }

  /// Cell (x, y) of the box of (r, c) sits at place 3 (x - x0) + (y - y0)
  /// of Box(g, r, c), where (x0, y0) is the box's first cell.
  lemma BoxAt(g: Grid, r: int, c: int, x: int, y: int)
    requires IsGrid(g) && 0 <= r < 9 && 0 <= c < 9
    requires BoxStart(r) <= x < BoxStart(r) + 3 && BoxStart(c) <= y < BoxStart(c) + 3
    ensures Box(g, r, c)[3 * (x - BoxStart(r)) + (y - BoxStart(c))] == g[x][y]
  {
    var k := 3 * (x - BoxStart(r)) + (y - BoxStart(c));
    assert BoxRow(k) == x - BoxStart(r);
  }

  /// Every cell of a box has that box: the box of (r, c) is the box of its first cell.
  lemma BoxOfStart(g: Grid, r: int, c: int)
    requires IsGrid(g) && 0 <= r < 9 && 0 <= c < 9
    ensures BoxStart(BoxStart(r)) == BoxStart(r) && BoxStart(BoxStart(c)) == BoxStart(c)
    ensures Box(g, r, c) == Box(g, BoxStart(r), BoxStart(c))
  {
  }

  /// `check_position`'s three tests, each in its meaning: no nonzero value
  /// repeats in the box, the row or the column of (r, c).
  predicate PositionOk(g: Grid, r: int, c: int)
    requires IsGrid(g) && 0 <= r < 9 && 0 <= c < 9
  {
    NoRepeat(Box(g, r, c)) && NoRepeat(g[r]) && NoRepeat(Column(g, c))
  }

  /// `check_position` is `check_region`, `check_line` and `check_column`,
  /// each of them `_alldiff`: it holds exactly when `PositionOk` does.
  lemma PositionOkAllDiff(g: Grid, r: int, c: int)
    requires IsGrid(g) && 0 <= r < 9 && 0 <= c < 9
    ensures PositionOk(g, r, c) <==> AllDiff(Box(g, r, c)) && AllDiff(g[r]) && AllDiff(Column(g, c))
  {
  }

  /// The consistency test holds at every cell.
  predicate GridOk(g: Grid)
    requires IsGrid(g)
  {
    forall r, c :: 0 <= r < 9 && 0 <= c < 9 ==> PositionOk(g, r, c)
  }

  /// `get_possibilities`: the digits 1..9 minus every value of the box, the
  /// row and the column of (r, c).
  function Candidates(g: Grid, r: int, c: int): (p: set<int>)
    requires IsGrid(g) && 0 <= r < 9 && 0 <= c < 9
    ensures forall d :: d in p ==> 1 <= d <= 9
    ensures forall d :: d in p <==>
      1 <= d <= 9 && d !in Box(g, r, c) && d !in g[r] && d !in Column(g, c)
  {
    {1, 2, 3, 4, 5, 6, 7, 8, 9} - (Elements(Box(g, r, c)) + Elements(g[r]) + Elements(Column(g, c)))
  }

  /// The grid with `d` written at (r, c).
  function Place(g: Grid, r: int, c: int, d: int): (h: Grid)
    requires IsGrid(g) && 0 <= r < 9 && 0 <= c < 9
    ensures IsGrid(h) && h[r][c] == d
    ensures forall i, j :: 0 <= i < 9 && 0 <= j < 9 && (i != r || j != c) ==> h[i][j] == g[i][j]
  {
    g[r := g[r][c := d]]
  }

  lemma NoRepeatUpdate(s: seq<int>, k: int, d: int)
    requires 0 <= k < |s| && s[k] == 0 && d != 0
    ensures NoRepeat(s[k := d]) <==> NoRepeat(s) && d !in s
  {
    var u := s[k := d];
    if NoRepeat(u) {
      forall i, j | 0 <= i < j < |s| && s[i] == s[j]
        ensures s[i] == 0
      {
        if i != k && j != k {
          assert u[i] == s[i] && u[j] == s[j];
        }
      }
      forall m | 0 <= m < |s|
        ensures s[m] != d
      {
        if m != k {
          assert u[m] == s[m] && u[k] == d;
        }
      }
    }
  }

  /// Index inside Box(g, r, c) of the cell (r, c) itself.
  function BoxIndex(r: int, c: int): (k: int)
    requires 0 <= r < 9 && 0 <= c < 9
    ensures 0 <= k < 9 && BoxStart(r) + BoxRow(k) == r && BoxStart(c) + k - 3 * BoxRow(k) == c
  {
    (r - BoxStart(r)) * 3 + (c - BoxStart(c))
  }

  lemma ColumnPlace(g: Grid, r: int, c: int, d: int, c2: int)
    requires IsGrid(g) && 0 <= r < 9 && 0 <= c < 9 && 0 <= c2 < 9
    ensures Column(Place(g, r, c, d), c2) ==
      if c2 == c then Column(g, c)[r := d] else Column(g, c2)
  {
  }

  lemma BoxPlace(g: Grid, r: int, c: int, d: int, r2: int, c2: int)
    requires IsGrid(g) && 0 <= r < 9 && 0 <= c < 9 && 0 <= r2 < 9 && 0 <= c2 < 9
    ensures Box(Place(g, r, c, d), r2, c2) ==
      if BoxStart(r2) == BoxStart(r) && BoxStart(c2) == BoxStart(c)
      then Box(g, r, c)[BoxIndex(r, c) := d]
      else Box(g, r2, c2)
  {
    if BoxStart(r2) == BoxStart(r) && BoxStart(c2) == BoxStart(c) {
      BoxPlaceSame(g, r, c, d, r2, c2);
    } else {
      BoxPlaceOther(g, r, c, d, r2, c2);
    }
  }

  lemma BoxPlaceSame(g: Grid, r: int, c: int, d: int, r2: int, c2: int)
    requires IsGrid(g) && 0 <= r < 9 && 0 <= c < 9 && 0 <= r2 < 9 && 0 <= c2 < 9
    requires BoxStart(r2) == BoxStart(r) && BoxStart(c2) == BoxStart(c)
    ensures Box(Place(g, r, c, d), r2, c2) == Box(g, r, c)[BoxIndex(r, c) := d]
  {
    var h := Place(g, r, c, d);
    forall k | 0 <= k < 9
      ensures Box(h, r2, c2)[k] == Box(g, r, c)[BoxIndex(r, c) := d][k]
    {
      if k != BoxIndex(r, c) {
        assert BoxStart(r) + BoxRow(k) != r || BoxStart(c) + k - 3 * BoxRow(k) != c;
      }
    }
  }

  lemma BoxPlaceOther(g: Grid, r: int, c: int, d: int, r2: int, c2: int)
    requires IsGrid(g) && 0 <= r < 9 && 0 <= c < 9 && 0 <= r2 < 9 && 0 <= c2 < 9
    requires BoxStart(r2) != BoxStart(r) || BoxStart(c2) != BoxStart(c)
    ensures Box(Place(g, r, c, d), r2, c2) == Box(g, r2, c2)
  {
    var h := Place(g, r, c, d);
    forall k | 0 <= k < 9
      ensures Box(h, r2, c2)[k] == Box(g, r2, c2)[k]
    {
      var x, y := BoxStart(r2) + BoxRow(k), BoxStart(c2) + k - 3 * BoxRow(k);
      assert BoxStart(x) == BoxStart(r2) && BoxStart(y) == BoxStart(c2);
    }
  }

  /// At an empty cell of a grid that is consistent there, a digit is a
  /// candidate exactly when writing it keeps the cell consistent.
  lemma {:induction false} CandidateIffStillConsistent(g: Grid, r: int, c: int, d: int)
    requires IsGrid(g) && 0 <= r < 9 && 0 <= c < 9
    requires PositionOk(g, r, c) && g[r][c] == 0 && 1 <= d <= 9
    ensures d in Candidates(g, r, c) <==> PositionOk(Place(g, r, c, d), r, c)
  {
    var h := Place(g, r, c, d);
    assert h[r] == g[r][c := d];
    NoRepeatUpdate(g[r], c, d);
    ColumnPlace(g, r, c, d, c);
    NoRepeatUpdate(Column(g, c), r, d);
    BoxPlace(g, r, c, d, r, c);
    NoRepeatUpdate(Box(g, r, c), BoxIndex(r, c), d);
  }

  /// Writing a candidate into an empty cell of a consistent grid leaves the
  /// whole grid consistent.
  lemma {:induction false} PlaceCandidateKeepsGridOk(g: Grid, r: int, c: int, d: int)
    requires IsGrid(g) && 0 <= r < 9 && 0 <= c < 9
    requires GridOk(g) && g[r][c] == 0 && d in Candidates(g, r, c)
    ensures GridOk(Place(g, r, c, d))
  {
    var h := Place(g, r, c, d);
    forall r2, c2 | 0 <= r2 < 9 && 0 <= c2 < 9
      ensures PositionOk(h, r2, c2)
    {
      assert PositionOk(g, r2, c2) && PositionOk(g, r, c);
      if r2 == r {
        assert h[r] == g[r][c := d];
        NoRepeatUpdate(g[r], c, d);
      } else {
        assert h[r2] == g[r2];
      }
      ColumnPlace(g, r, c, d, c2);
      if c2 == c {
        NoRepeatUpdate(Column(g, c), r, d);
      }
      BoxPlace(g, r, c, d, r2, c2);
      if BoxStart(r2) == BoxStart(r) && BoxStart(c2) == BoxStart(c) {
        NoRepeatUpdate(Box(g, r, c), BoxIndex(r, c), d);
      }
    }
  }
}
