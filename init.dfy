/// The first phase of `solve`, as functions on the states of the 81 cells:
/// visiting the cells in row-major order, a fixed cell is offered its own
/// value, an empty cell the digits `get_possibilities` finds for it in
/// ascending order, and every cell then takes one `try` step. Because each
/// step reads the values written by the steps before it, this phase fills
/// the board greedily; the theorem at the end says it never creates a
/// conflict on a consistent puzzle.
module SolveInit {
  import opened Rules
  import opened Positions

  type Board = seq<seq<CellState>>

  predicate IsBoard(b: Board) {
    |b| == 9 && forall i :: 0 <= i < 9 ==> |b[i]| == 9
  }

  /// The current values of the cells (what `get_possibilities` and
  /// `__str__` read).
  function ValuesOf(b: Board): (g: Grid)
    ensures |g| == |b| && forall i :: 0 <= i < |b| ==> |g[i]| == |b[i]|
    ensures forall i, j :: 0 <= i < |b| && 0 <= j < |b[i]| ==> g[i][j] == b[i][j].value
  {
    seq(|b|, i requires 0 <= i < |b| => seq(|b[i]|, j requires 0 <= j < |b[i]| => b[i][j].value))
  }

  /// The integers the cells were constructed with (what the checks compare).
  function InitialOf(b: Board): (g: Grid)
    ensures |g| == |b| && forall i :: 0 <= i < |b| ==> |g[i]| == |b[i]|
    ensures forall i, j :: 0 <= i < |b| && 0 <= j < |b[i]| ==> g[i][j] == b[i][j].initial
  {
    seq(|b|, i requires 0 <= i < |b| => seq(|b[i]|, j requires 0 <= j < |b[i]| => b[i][j].initial))
  }

  /// The board as the constructor builds it from a matrix.
  function Fresh(m: Grid): (b: Board)
    ensures |b| == |m| && forall i :: 0 <= i < |m| ==> |b[i]| == |m[i]|
    ensures forall i, j :: 0 <= i < |m| && 0 <= j < |m[i]| ==> b[i][j] == NewCell(m[i][j])
  {
    seq(|m|, i requires 0 <= i < |m| => seq(|m[i]|, j requires 0 <= j < |m[i]| => NewCell(m[i][j])))
  }

  /// The digits d..9 of `p`, in ascending order.
  function AscendingFrom(p: set<int>, d: int): seq<int>
    requires 1 <= d <= 10
    decreases 10 - d
  {
    if d == 10 then [] else (if d in p then [d] else []) + AscendingFrom(p, d + 1)
  }

  /// What `AscendingFrom` holds: exactly the digits d..9 of `p`, strictly
  /// increasing.
  predicate AscendingDigits(p: set<int>, d: int, r: seq<int>) {
    && (forall a :: 0 <= a < |r| ==> r[a] in p && d <= r[a] <= 9)
    && (forall x :: x in p && d <= x <= 9 ==> x in r)
    && (forall a, c :: 0 <= a < c < |r| ==> r[a] < r[c])
  }

  lemma {:induction false} AscendingFromSpec(p: set<int>, d: int)
    requires 1 <= d <= 10
    decreases 10 - d
    ensures AscendingDigits(p, d, AscendingFrom(p, d))
  {
    if d < 10 {
      AscendingFromSpec(p, d + 1);
      AscendingFromStep(p, d);
    }
  }

  lemma AscendingFromStep(p: set<int>, d: int)
    requires 1 <= d < 10
    requires AscendingDigits(p, d + 1, AscendingFrom(p, d + 1))
    ensures AscendingDigits(p, d, AscendingFrom(p, d))
  {
    var rest := AscendingFrom(p, d + 1);
    if d in p {
      assert AscendingFrom(p, d) == [d] + rest;
      AscendingCons(p, d, rest);
    } else {
      assert AscendingFrom(p, d) == rest;
    }
  }

  /// Putting a digit of `p` in front of the larger digits keeps them sorted.
  lemma AscendingCons(p: set<int>, d: int, rest: seq<int>)
    requires 1 <= d < 10 && d in p
    requires AscendingDigits(p, d + 1, rest)
    ensures AscendingDigits(p, d, [d] + rest)
  {
    var r := [d] + rest;
    forall a | 0 < a < |r| ensures r[a] == rest[a - 1] && d < r[a] {
    }
    forall x | x in p && d <= x <= 9 ensures x in r {
      if x != d {
        assert x in rest;
      }
    }
  }

  /// The candidates of a cell as the sorted list `solve` builds from them
  /// (`extend` on the cell's empty list, then `sort`).
  function Ascending(p: set<int>): (r: seq<int>)
    ensures forall x :: x in r <==> x in p && 1 <= x <= 9
    ensures forall a, c :: 0 <= a < c < |r| ==> r[a] < r[c]
  {
    AscendingFromSpec(p, 1);
    AscendingFrom(p, 1)
  }

  /// The loop body of `solve`'s first phase at cell (i, j).
  function PrepareCell(b: Board, i: int, j: int): (r: Board)
    requires IsBoard(b) && 0 <= i < 9 && 0 <= j < 9
    ensures IsBoard(r)
    ensures forall i2, j2 :: 0 <= i2 < 9 && 0 <= j2 < 9 && (i2 != i || j2 != j) ==> r[i2][j2] == b[i2][j2]
  {
    b[i := b[i][j := Visit(b[i][j], ValuesOf(b), i, j)]]
  }

  /// Nondecreasing order.
  predicate Sorted(s: seq<int>) {
    forall a, c :: 0 <= a < c < |s| ==> s[a] <= s[c]
  }

  /// `x` inserted before the first element of `s` that is not smaller.
  function Insert(x: int, s: seq<int>): seq<int> {
    if s == [] || x <= s[0] then [x] + s else [s[0]] + Insert(x, s[1..])
  }

  /// `list.sort` on a list of integers, as insertion sort: the result is in
  /// nondecreasing order and holds the elements of `s` with their
  /// multiplicities.
  function Sort(s: seq<int>): (r: seq<int>)
    ensures Sorted(r) && multiset(r) == multiset(s)
  {
    if s == [] then []
    else
      InsertSorted(s[0], Sort(s[1..]));
      InsertCount(s[0], Sort(s[1..]));
      assert s == [s[0]] + s[1..];
      Insert(s[0], Sort(s[1..]))
  }

  /// Inserting keeps the elements with their multiplicities.
  lemma {:induction false} InsertCount(x: int, s: seq<int>)
    ensures multiset(Insert(x, s)) == multiset{x} + multiset(s)
  {
    if s != [] && x > s[0] {
      InsertCount(x, s[1..]);
      assert s == [s[0]] + s[1..];
    }
  }

  /// Inserting a value above a bound into a list above it stays above it.
  lemma {:induction false} InsertAbove(x: int, s: seq<int>, lo: int)
    requires lo <= x && forall c :: 0 <= c < |s| ==> lo <= s[c]
    ensures forall c :: 0 <= c < |Insert(x, s)| ==> lo <= Insert(x, s)[c]
  {
    if s != [] && x > s[0] {
      InsertAbove(x, s[1..], lo);
      var t := Insert(x, s[1..]);
      assert forall c :: 0 < c < |t| + 1 ==> ([s[0]] + t)[c] == t[c - 1];
    }
  }

  /// Inserting into a sorted list keeps it sorted.
  lemma {:induction false} InsertSorted(x: int, s: seq<int>)
    requires Sorted(s)
    ensures Sorted(Insert(x, s))
  {
    if s != [] && x > s[0] {
      InsertSorted(x, s[1..]);
      InsertAbove(x, s[1..], s[0]);
      var t := Insert(x, s[1..]);
      var r := [s[0]] + t;
      assert Insert(x, s) == r;
      assert forall c :: 0 < c < |r| ==> r[c] == t[c - 1];
    } else {
      var r := [x] + s;
      assert forall c :: 0 < c < |r| ==> r[c] == s[c - 1];
    }
  }

  /// A list that is already strictly increasing is left as it is.
  lemma {:induction false} SortIncreasing(s: seq<int>)
    requires forall a, c :: 0 <= a < c < |s| ==> s[a] < s[c]
    ensures Sort(s) == s
  {
    if s != [] {
      SortIncreasing(s[1..]);
      assert Sort(s[1..]) == s[1..];
      assert s[1..] == [] || s[0] <= s[1..][0];
      assert Insert(s[0], s[1..]) == [s[0]] + s[1..] == s;
    }
  }

  /// The inner loop of the first phase: the board after the first j cells
  /// of row i have been visited, starting from b.
  function PrepareRow(b: Board, i: int, j: int): (r: Board)
    requires IsBoard(b) && 0 <= i < 9 && 0 <= j <= 9
    ensures IsBoard(r)
    decreases j
  {
    if j == 0 then b else PrepareCell(PrepareRow(b, i, j - 1), i, j - 1)
  }

  /// The outer loop of the first phase: the board after the first i rows
  /// have been visited, starting from b; like `enumerate`, each row is
  /// visited over its whole length.
  function PrepareRows(b: Board, i: int): (r: Board)
    requires IsBoard(b) && 0 <= i <= 9
    ensures IsBoard(r)
    decreases i
  {
    if i == 0 then b else PrepareRow(PrepareRows(b, i - 1), i - 1, |b[i - 1]|)
  }

  /// Row i is the next row to visit after the first i rows.
  lemma PrepareRowsNext(b: Board, i: int)
    requires IsBoard(b) && 0 <= i < 9
    ensures PrepareRows(b, i + 1) == PrepareRow(PrepareRows(b, i), i, 9)
  {
    assert |b[i]| == 9;
  }

  /// What the first phase leaves in a cell constructed with the digit `v`: a
  /// fixed cell keeps `v` and has tried it; an empty cell is either
  /// unchanged, or holds a digit, has tried `v`, and keeps only larger
  /// digits, in increasing order, to try next. Which digits these are is
  /// stated by `SettledEmpty`.
  predicate Settled(v: int, s: CellState) {
    && s.initial == v
    && (s.fixed <==> v > 0)
    && (v > 0 ==> s.value == v && s.tried == [v] && s.possibilities == [])
    && (v <= 0 ==>
         (s.value == v && s.tried == [] && s.possibilities == [])
         || (s.tried == [v] && 1 <= s.value <= 9
             && (forall a :: 0 <= a < |s.possibilities| ==> s.value < s.possibilities[a] <= 9)
             && (forall a, c :: 0 <= a < c < |s.possibilities| ==> s.possibilities[a] < s.possibilities[c])))
  }

  /// The state after k visits: values consistent, visited cells settled,
  /// the others as constructed.
  predicate Visited(m: Grid, b: Board, k: int)
    requires IsGrid(m) && IsBoard(b)
  {
    && GridOk(ValuesOf(b))
    && (forall i, j :: 0 <= i < 9 && 0 <= j < 9 && 9 * i + j < k ==> Settled(m[i][j], b[i][j]))
    && (forall i, j :: 0 <= i < 9 && 0 <= j < 9 && 9 * i + j >= k ==> b[i][j] == NewCell(m[i][j]))
  }

  lemma ValuesOfUpdate(b: Board, i: int, j: int, s: CellState)
    requires IsBoard(b) && 0 <= i < 9 && 0 <= j < 9
    ensures IsGrid(ValuesOf(b))
    ensures ValuesOf(b[i := b[i][j := s]]) == Place(ValuesOf(b), i, j, s.value)
  {
    var lhs, rhs := ValuesOf(b[i := b[i][j := s]]), Place(ValuesOf(b), i, j, s.value);
    forall i2 | 0 <= i2 < 9
      ensures lhs[i2] == rhs[i2]
    {
      assert |lhs[i2]| == |rhs[i2]| == 9;
    }
  }

  /// What a visit offers the cell at (i, j) to try: a fixed cell its own
  /// value after what it already had, an empty cell what it already had and
  /// its candidates, all sorted. Nothing else of the cell changes.
  function Offered(s: CellState, g: Grid, i: int, j: int): (t: CellState)
    requires IsGrid(g) && 0 <= i < 9 && 0 <= j < 9
    ensures t == s.(possibilities := t.possibilities)
    ensures s.fixed ==> t.possibilities == s.possibilities + [s.value]
    ensures !s.fixed ==> Sorted(t.possibilities)
    ensures !s.fixed ==>
      multiset(t.possibilities) == multiset(s.possibilities) + multiset(Ascending(Candidates(g, i, j)))
  {
    if s.fixed then s.(possibilities := s.possibilities + [s.value])
    else s.(possibilities := Sort(s.possibilities + Ascending(Candidates(g, i, j))))
  }

  /// The cell state one visit produces: the offer, then one `try`. The
  /// visit keeps the cell's integer and flag; when something is offered,
  /// the cell moves to the first value offered and has tried its old value.
  function Visit(s: CellState, g: Grid, i: int, j: int): (t: CellState)
    requires IsGrid(g) && 0 <= i < 9 && 0 <= j < 9
    ensures t.initial == s.initial && t.fixed == s.fixed
    ensures Schedule(t) == Schedule(Offered(s, g, i, j))
    ensures var offer := Offered(s, g, i, j).possibilities;
      offer != [] ==> t.value == offer[0] && t.tried == s.tried + [s.value]
    ensures Offered(s, g, i, j).possibilities == [] ==> t == s
  {
    TryCell(Offered(s, g, i, j)).1
  }

  /// Trying the ascending candidates of an empty cell settles it: with no
  /// candidate the cell is unchanged; otherwise it holds the smallest
  /// candidate, has tried `v`, and keeps the other candidates, ascending.
  lemma SettledEmpty(v: int, p: set<int>)
    requires v <= 0
    ensures var t := TryCell(NewCell(v).(possibilities := Ascending(p))).1;
      && Settled(v, t)
      && (Ascending(p) == [] ==> t == NewCell(v))
      && (Ascending(p) != [] ==>
            t == NewCell(v).(value := Ascending(p)[0], tried := [v], possibilities := Ascending(p)[1..]))
      && (t.value != v ==> t.value in p && forall d :: d in p && 1 <= d <= 9 ==> t.value <= d)
      && (forall d :: d in p && 1 <= d <= 9 && d != t.value <==> d in t.possibilities)
  {
    var asc := Ascending(p);
    var s := NewCell(v).(possibilities := asc);
    if asc != [] {
      var t := NewCell(v).(value := asc[0], tried := [v], possibilities := asc[1..]);
      assert TryCell(s).1 == t;
      AscendingSplit(p);
    }
  }

  /// The smallest candidate comes first, and the candidates after it are
  /// the others, larger and ascending.
  lemma AscendingSplit(p: set<int>)
    requires Ascending(p) != []
    ensures var asc := Ascending(p);
      && asc[0] in p && 1 <= asc[0] <= 9
      && (forall a :: 0 <= a < |asc[1..]| ==> asc[0] < asc[1..][a] <= 9)
      && (forall a, c :: 0 <= a < c < |asc[1..]| ==> asc[1..][a] < asc[1..][c])
      && (forall d :: d in p && 1 <= d <= 9 ==> asc[0] <= d && (d != asc[0] <==> d in asc[1..]))
  {
    var asc := Ascending(p);
    AscendingTail(asc);
    assert asc[0] in asc;
    forall d | d in p && 1 <= d <= 9
      ensures asc[0] <= d && (d != asc[0] <==> d in asc[1..])
    {
      AscendingMember(asc, d);
    }
  }

  /// In a strictly increasing list of digits, the entries after the first
  /// are larger than it and still strictly increasing.
  lemma AscendingTail(asc: seq<int>)
    requires asc != [] && forall x :: x in asc ==> x <= 9
    requires forall a, c :: 0 <= a < c < |asc| ==> asc[a] < asc[c]
    ensures forall a :: 0 <= a < |asc[1..]| ==> asc[0] < asc[1..][a] <= 9
    ensures forall a, c :: 0 <= a < c < |asc[1..]| ==> asc[1..][a] < asc[1..][c]
  {
    var rest := asc[1..];
    forall a | 0 <= a < |rest|
      ensures asc[0] < rest[a] <= 9
    {
      assert rest[a] == asc[a + 1] && asc[a + 1] in asc;
    }
    forall a, c | 0 <= a < c < |rest|
      ensures rest[a] < rest[c]
    {
      assert rest[a] == asc[a + 1] && rest[c] == asc[c + 1];
    }
  }

  /// An entry of a strictly increasing list is at least its first entry,
  /// and is in the rest exactly when it is not the first.
  lemma AscendingMember(asc: seq<int>, d: int)
    requires d in asc
    requires forall a, c :: 0 <= a < c < |asc| ==> asc[a] < asc[c]
    ensures asc[0] <= d && (d != asc[0] <==> d in asc[1..])
  {
    var a :| 0 <= a < |asc| && asc[a] == d;
    if a > 0 {
      assert asc[1..][a - 1] == d;
    }
  }

  /// Visiting a freshly constructed cell settles it, and either keeps its
  /// value or, for an empty cell, writes one of its candidates.
  lemma VisitSettles(v: int, g: Grid, i: int, j: int)
    requires IsGrid(g) && 0 <= i < 9 && 0 <= j < 9 && 0 <= v <= 9
    ensures var t := Visit(NewCell(v), g, i, j);
      && Settled(v, t)
      && (t.value == v || (v == 0 && t.value in Candidates(g, i, j)))
  {
    if v == 0 {
      var c := Candidates(g, i, j);
      var asc := Ascending(c);
      assert NewCell(v).possibilities + asc == asc;
      SortIncreasing(asc);
      assert Offered(NewCell(v), g, i, j) == NewCell(v).(possibilities := asc);
      SettledEmpty(v, c);
    }
  }

  /// Visiting one more cell keeps the invariant.
  lemma VisitStep(m: Grid, b: Board, i: int, j: int)
    requires IsGrid(m) && IsDigitGrid(m) && IsBoard(b) && 0 <= i < 9 && 0 <= j < 9
    requires Visited(m, b, 9 * i + j)
    ensures Visited(m, PrepareCell(b, i, j), 9 * i + j + 1)
  {
    var k := 9 * i + j;
    var g := ValuesOf(b);
    assert b[i][j] == NewCell(m[i][j]);
    var t := Visit(b[i][j], g, i, j);
    VisitSettles(m[i][j], g, i, j);
    var r := PrepareCell(b, i, j);
    assert r == b[i := b[i][j := t]];
    ValuesOfUpdate(b, i, j, t);
    if t.value == m[i][j] {
      assert g[i][j := t.value] == g[i];
      assert ValuesOf(r) == g;
    } else {
      PlaceCandidateKeepsGridOk(g, i, j, t.value);
    }
    forall i2, j2 | 0 <= i2 < 9 && 0 <= j2 < 9 && 9 * i2 + j2 < k + 1
      ensures Settled(m[i2][j2], r[i2][j2])
    {
      if i2 != i || j2 != j {
        assert 9 * i2 + j2 < k;
      }
    }
  }

  /// Visiting the first j cells of row i keeps the invariant.
  lemma {:induction false} VisitRowAll(m: Grid, b: Board, i: int, j: int)
    requires IsGrid(m) && IsDigitGrid(m) && IsBoard(b) && 0 <= i < 9 && 0 <= j <= 9
    requires Visited(m, b, 9 * i)
    ensures Visited(m, PrepareRow(b, i, j), 9 * i + j)
    decreases j
  {
    if j > 0 {
      VisitRowAll(m, b, i, j - 1);
      VisitStep(m, PrepareRow(b, i, j - 1), i, j - 1);
    }
  }

  /// Visiting the first i rows keeps the invariant.
  lemma {:induction false} VisitRowsAll(m: Grid, i: int)
    requires IsGrid(m) && IsDigitGrid(m) && GridOk(m) && 0 <= i <= 9
    ensures Visited(m, PrepareRows(Fresh(m), i), 9 * i)
    decreases i
  {
    if i == 0 {
      forall a | 0 <= a < 9
        ensures ValuesOf(Fresh(m))[a] == m[a]
      {
      }
      assert ValuesOf(Fresh(m)) == m;
    } else {
      VisitRowsAll(m, i - 1);
      VisitRowAll(m, PrepareRows(Fresh(m), i - 1), i - 1, |m[i - 1]|);
    }
  }

  /// On a puzzle of digits whose givens do not conflict, the first phase of
  /// `solve` never creates a conflict: after any number of rows, no nonzero
  /// current value repeats in any row, column or box, and every cell of the
  /// rows visited so far is settled.
  lemma {:induction false} PrepareKeepsConsistency(m: Grid, i: int)
    requires IsGrid(m) && IsDigitGrid(m) && GridOk(m) && 0 <= i <= 9
    ensures var b := PrepareRows(Fresh(m), i);
      && GridOk(ValuesOf(b))
      && forall a, c :: 0 <= a < i && 0 <= c < 9 ==> Settled(m[a][c], b[a][c])
  {
    VisitRowsAll(m, i);
    var b := PrepareRows(Fresh(m), i);
    forall a, c | 0 <= a < i && 0 <= c < 9
      ensures Settled(m[a][c], b[a][c])
    {
      assert 9 * a + c < 9 * i;
    }
  }
}
