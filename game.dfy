/// `Game`: the 9x9 board of cells with its cursor, its checks, the first
/// phase of `solve`, its text form, and `parse_input`, which reads puzzles
/// from the lines of the input.
module Sudoku {
  import opened Rules
  import opened Positions
  import opened Cursor
  import opened Text
  import opened SolveInit

  class Game {
    /// The rows of cells (the list the source's `Game` extends).
    var cells: seq<seq<GamePosition>>
    /// The cursor `cur_x`, `cur_y` and the direction flag `_back`.
    var curX: int
    var curY: int
    var back: bool

    ghost function Objects(): set<GamePosition>
      reads this
    {
      set i, j | 0 <= i < |cells| && 0 <= j < |cells[i]| :: cells[i][j]
    }

    /// No cell object occurs at two places of the board.
    predicate Separate()
      reads this
    {
      forall i, j, i2, j2 ::
        (0 <= i < |cells| && 0 <= j < |cells[i]| && 0 <= i2 < |cells| && 0 <= j2 < |cells[i2]|
         && cells[i][j] == cells[i2][j2]) ==> i == i2 && j == j2
    }

    /// 9 rows of 9 cells.
    predicate Shaped()
      reads this
    {
      |cells| == 9 && forall i :: 0 <= i < 9 ==> |cells[i]| == 9
    }

    /// 9 rows of 9 separate cells.
    predicate Valid()
      reads this
    {
      Shaped() && Separate()
    }

    /// The states of all cells. Each entry is `GamePosition.State()` of the
    /// cell, written out field by field: calling that function here makes
    /// the frame reasoning of `ParseInput` run out of resource.
    function State(): (b: Board)
      reads this, Objects()
      ensures |b| == |cells| && forall i :: 0 <= i < |cells| ==> |b[i]| == |cells[i]|
    {
      seq(|cells|, i requires 0 <= i < |cells| reads this, Objects() =>
        var row := cells[i];
        seq(|row|, j requires 0 <= j < |row| reads row =>
          CellState(row[j].initial, row[j].value, row[j].fixed, row[j].possibilities, row[j].tried)))
    }

    /// The integers the cells were constructed with: what the checks compare.
    function Initial(): (g: Grid)
      reads this
      ensures |g| == |cells| && forall i :: 0 <= i < |cells| ==> |g[i]| == |cells[i]|
    {
      seq(|cells|, i requires 0 <= i < |cells| reads this =>
        var row := cells[i];
        seq(|row|, j requires 0 <= j < |row| => row[j].initial))
    }

    /// Entry (x, y) of `Initial()` is the integer cell (x, y) was constructed with.
    lemma InitialAt(x: int, y: int)
      requires Shaped() && 0 <= x < 9 && 0 <= y < 9
      ensures Initial()[x][y] == cells[x][y].initial
    {
    }

    /// The current values of the cells: what `get_possibilities` and
    /// `__str__` read.
    function Values(): (g: Grid)
      reads this, Objects()
      ensures |g| == |cells| && forall i :: 0 <= i < |cells| ==> |g[i]| == |cells[i]|
      ensures forall i, j :: 0 <= i < |cells| && 0 <= j < |cells[i]| ==> g[i][j] == cells[i][j].value
    {
      seq(|cells|, i requires 0 <= i < |cells| reads this, Objects() =>
        var row := cells[i];
        seq(|row|, j requires 0 <= j < |row| reads row => row[j].value))
    }

    /// `__init__`: one new cell per entry of the matrix, row by row; the
    /// cursor starts at the last cell.
    constructor (matrix: seq<seq<int>>)
      ensures State() == Fresh(matrix) && Initial() == matrix
      ensures Separate() && (IsGrid(matrix) ==> Valid())
      ensures curX == 8 && curY == 8 && !back
      ensures fresh(Objects())
    {
      var rows: seq<seq<GamePosition>> := [];
      var i := 0;
      while i < |matrix|
        invariant 0 <= i <= |matrix| && |rows| == i
        invariant forall a :: 0 <= a < i ==> |rows[a]| == |matrix[a]|
        invariant forall a, b :: 0 <= a < i && 0 <= b < |rows[a]| ==>
          fresh(rows[a][b]) && rows[a][b].State() == NewCell(matrix[a][b])
        invariant forall a, b, a2, b2 ::
          (0 <= a < i && 0 <= b < |rows[a]| && 0 <= a2 < i && 0 <= b2 < |rows[a2]|
           && rows[a][b] == rows[a2][b2]) ==> a == a2 && b == b2
      {
        var line := NewLine(matrix[i]);
        rows := rows + [line];
        i := i + 1;
      }
      cells := rows;
      curX, curY := 8, 8;
      back := false;
      new;
      forall a | 0 <= a < |matrix|
        ensures State()[a] == Fresh(matrix)[a] && Initial()[a] == matrix[a]
      {
      }
    }

    /// The cells of one row of `__init__`: one new cell per value.
    static method NewLine(row: seq<int>) returns (line: seq<GamePosition>)
      ensures |line| == |row|
      ensures forall b :: 0 <= b < |row| ==> fresh(line[b]) && line[b].State() == NewCell(row[b])
      ensures forall b, b2 :: 0 <= b < |row| && 0 <= b2 < |row| && line[b] == line[b2] ==> b == b2
    {
      line := [];
      var j := 0;
      while j < |row|
        invariant 0 <= j <= |row| && |line| == j
        invariant forall b :: 0 <= b < j ==> fresh(line[b]) && line[b].State() == NewCell(row[b])
        invariant forall b, b2 :: 0 <= b < j && 0 <= b2 < j && line[b] == line[b2] ==> b == b2
      {
        var position := new GamePosition(row[j]);
        line := line + [position];
        j := j + 1;
      }
    }

    /// `check_line`: no nonzero value repeats in the row.
    function CheckLine(line: int): (ok: bool)
      requires Shaped() && 0 <= line < 9
      reads this
      ensures ok <==> NoRepeat(Initial()[line])
    {
      AllDiff(Initial()[line])
    }

    /// `check_column`: no nonzero value repeats in the column.
    function CheckColumn(col: int): (ok: bool)
      requires Shaped() && 0 <= col < 9
      reads this
      ensures ok <==> NoRepeat(Column(Initial(), col))
    {
      AllDiff(Column(Initial(), col))
    }

    /// `check_region`: walk the box of (line, col) row by row, skipping
    /// zeros, and fail at the first value already seen.
    method CheckRegion(line: int, col: int) returns (ok: bool)
      requires Shaped() && 0 <= line < 9 && 0 <= col < 9
      ensures ok <==> NoRepeat(Box(Initial(), line, col))
    {
      ghost var g := Initial();
      ghost var box := Box(g, line, col);
      var startX, startY := BoxStart(line), BoxStart(col);
      var values: seq<int> := [];
      ghost var k := 0;
      var x := startX;
      while x < startX + 3
        invariant startX <= x <= startX + 3 && k == 3 * (x - startX)
        invariant Scanned(box, k, values)
      {
        var y := startY;
        while y < startY + 3
          invariant startY <= y <= startY + 3 && k == 3 * (x - startX) + (y - startY)
          invariant Scanned(box, k, values)
        {
          var value := cells[x][y].initial;
          RegionScan(line, col, x, y, values);
          if value != 0 {
            if value in values {
              return false;
            }
            values := values + [value];
          }
          k := k + 1;
          y := y + 1;
        }
        x := x + 1;
      }
      ScanDone(box, values);
      return true;
    }

    /// One step of `check_region` at cell (x, y) of the box of (line, col):
    /// a nonzero value already seen is a repeat in the box; otherwise the
    /// values seen, with this one if it is nonzero, are the distinct nonzero
    /// values of the box up to and including this cell.
    lemma RegionScan(line: int, col: int, x: int, y: int, values: seq<int>)
      requires Shaped() && 0 <= line < 9 && 0 <= col < 9
      requires BoxStart(line) <= x < BoxStart(line) + 3 && BoxStart(col) <= y < BoxStart(col) + 3
      requires Scanned(Box(Initial(), line, col), 3 * (x - BoxStart(line)) + (y - BoxStart(col)), values)
      ensures var v, box := cells[x][y].initial, Box(Initial(), line, col);
        var k := 3 * (x - BoxStart(line)) + (y - BoxStart(col));
        && (v != 0 && v in values ==> !NoRepeat(box))
        && (v == 0 ==> Scanned(box, k + 1, values))
        && (v != 0 && v !in values ==> Scanned(box, k + 1, values + [v]))
    {
      var v, box := cells[x][y].initial, Box(Initial(), line, col);
      var k := 3 * (x - BoxStart(line)) + (y - BoxStart(col));
      assert 0 <= k < 9 && box[k] == v by {
        RegionAt(line, col, x, y);
      }
      if v != 0 && v in values {
        ScanFails(box, k, values);
      } else {
        ScanKeeps(box, k, values);
      }
    }

    /// The cell (x, y) of the box of (line, col) is entry
    /// 3 (x - x0) + (y - y0) of that box, where (x0, y0) is its first cell.
    lemma RegionAt(line: int, col: int, x: int, y: int)
      requires Shaped() && 0 <= line < 9 && 0 <= col < 9
      requires BoxStart(line) <= x < BoxStart(line) + 3 && BoxStart(col) <= y < BoxStart(col) + 3
      ensures Box(Initial(), line, col)[3 * (x - BoxStart(line)) + (y - BoxStart(col))] == cells[x][y].initial
    {
      InitialAt(x, y);
      BoxAt(Initial(), line, col, x, y);
    }

    /// `check_position`: the box, then the row, then the column of
    /// (line, col) hold no repeated nonzero value.
    method CheckPosition(line: int, col: int) returns (ok: bool)
      requires Shaped() && 0 <= line < 9 && 0 <= col < 9
      ensures ok <==> PositionOk(Initial(), line, col)
    {
      var region := CheckRegion(line, col);
      if !region {
        return false;
      }
      if !CheckLine(line) {
        return false;
      }
      if !CheckColumn(col) {
        return false;
      }
      return true;
    }

    /// `get_possibilities`: the digits 1..9 that no current value of the
    /// box, the row or the column of (line, col) takes. The source returns
    /// them as a tuple in the set's iteration order; the model returns the
    /// set.
    method GetPossibilities(line: int, col: int) returns (p: set<int>)
      requires Shaped() && 0 <= line < 9 && 0 <= col < 9
      ensures p == Candidates(Values(), line, col)
      ensures forall d :: d in p <==>
        1 <= d <= 9 && d !in Box(Values(), line, col) && d !in Values()[line] && d !in Column(Values(), col)
    {
      ghost var g := Values();
      ghost var box := Box(g, line, col);
      var startX, startY := BoxStart(line), BoxStart(col);
      var values: set<int> := {};
      var x := startX;
      while x < startX + 3
        invariant startX <= x <= startX + 3
        invariant values == Elements(box[..3 * (x - startX)])
        invariant Values() == g
      {
        var y := startY;
        while y < startY + 3
          invariant startY <= y <= startY + 3
          invariant values == Elements(box[..3 * (x - startX) + (y - startY)])
          invariant Values() == g
        {
          ghost var k := 3 * (x - startX) + (y - startY);
          assert cells[x][y].value == g[x][y];
          BoxAt(g, line, col, x, y);
          ScanStep(box, k);
          values := values + {cells[x][y].value};
          y := y + 1;
        }
        x := x + 1;
      }
      assert box[..9] == box;
      values := values + Elements(Values()[line]);
      values := values + Elements(Column(Values(), col));
      p := {1, 2, 3, 4, 5, 6, 7, 8, 9} - values;
    }

    /// The body of the first phase of `solve` at cell (i, j): a fixed cell
    /// is offered its own value, an empty cell its candidates in ascending
    /// order, and the cell then takes one `try` step.
    method VisitCell(i: int, j: int)
      requires Valid() && 0 <= i < 9 && 0 <= j < 9
      modifies cells[i][j]
      ensures State() == PrepareCell(old(State()), i, j)
    {
      ghost var before := State();
      ValuesOfState(this);
      Offer(i, j);
      var _ := cells[i][j].TryNext();
      forall a, b | 0 <= a < 9 && 0 <= b < 9 && (a != i || b != j)
        ensures cells[a][b].State() == before[a][b]
      {
        assert cells[a][b] != cells[i][j];
      }
      StateAfterWrite(this, i, j, before);
    }

    /// The branch of the first phase of `solve` at cell (i, j): a fixed cell
    /// is offered its own value, an empty cell the candidates
    /// `get_possibilities` finds for it, in ascending order.
    method Offer(i: int, j: int)
      requires Valid() && 0 <= i < 9 && 0 <= j < 9
      modifies cells[i][j]
      ensures cells[i][j].State() == Offered(old(cells[i][j].State()), old(Values()), i, j)
    {
      var position := cells[i][j];
      if position.fixed {
        position.possibilities := position.possibilities + [position.value];
      } else {
        var possibilities := GetPossibilities(i, j);
        assert Objects() == old(Objects());
        assert forall o | o in Objects() :: unchanged(o);
        position.possibilities := Sort(position.possibilities + Ascending(possibilities));
      }
    }

    /// One pass of the inner loop of the first phase of `solve`: visit the
    /// cells of row i from left to right.
    method VisitRow(i: int, ghost start: Board)
      requires Valid() && 0 <= i < 9 && IsBoard(start)
      requires State() == PrepareRows(start, i)
      modifies Objects()
      ensures Valid() && State() == PrepareRows(start, i + 1)
    {
      var j := 0;
      while j < 9
        invariant 0 <= j <= 9 && Valid()
        invariant State() == PrepareRow(PrepareRows(start, i), i, j)
      {
        ghost var before := PrepareRows(start, i);
        VisitCell(i, j);
        assert State() == PrepareRow(before, i, j + 1);
        j := j + 1;
      }
      PrepareRowsNext(start, i);
    }

    /// The first phase of `solve`: visit the rows from top to bottom.
    method Prepare()
      requires Valid()
      modifies Objects()
      ensures State() == PrepareRows(old(State()), 9)
    {
      ghost var start := State();
      var i := 0;
      while i < 9
        invariant 0 <= i <= 9 && Valid()
        invariant State() == PrepareRows(start, i)
      {
        VisitRow(i, start);
        i := i + 1;
      }
    }

    /// `_prev`: one cell back in row-major order.
    method Prev()
      modifies this
      ensures Cursor(curX, curY) == Back(Cursor(old(curX), old(curY)))
      ensures cells == old(cells) && back == old(back)
    {
      if curY == 0 {
        curY := 8;
        curX := curX - 1;
      } else {
        curY := curY - 1;
      }
    }

    /// `_next`: one cell forward in row-major order; at the last cell, one
    /// cell back instead, and `_back` is set.
    method Next()
      modifies this
      ensures Cursor(curX, curY) == Forth(Cursor(old(curX), old(curY))).0
      ensures cells == old(cells)
      ensures back == (old(back) || Forth(Cursor(old(curX), old(curY))).1)
    {
      if curY == 8 {
        if curX == 8 {
          Prev();
          back := true;
        } else {
          curY := 0;
          curX := curX + 1;
        }
      } else {
        curY := curY + 1;
      }
    }

    /// `__str__`: every current value followed by a space, the last space of
    /// each row replaced by a newline, all pieces joined. The values are read
    /// once up front; nothing changes them while the text is built. An empty
    /// row would make the replacement hit the row before it, or no piece.
    method ToString() returns (s: string)
      requires forall i :: 0 <= i < |cells| ==> |cells[i]| > 0
      ensures s == Render(Values())
    {
      s := Show(Values());
      assert Objects() == old(Objects());
      assert forall o | o in Objects() :: unchanged(o);
    }
  }

  /// The values a game exposes are the values of its cell states.
  lemma ValuesOfState(game: Game)
    ensures game.Values() == ValuesOf(game.State())
  {
    forall i | 0 <= i < |game.cells|
      ensures game.Values()[i] == ValuesOf(game.State())[i]
    {
    }
  }

  /// `parse_input`: drop the first line, skip lines that are blank after
  /// stripping, split the others on single spaces, and build one game from
  /// every 9 such rows; a last group of fewer than 9 rows is dropped. The
  /// lines of the input are a parameter; the tokens of every complete group
  /// must be numerals, which `int()` reads.
  method ParseInput(input: seq<string>) returns (games: seq<Game>)
    requires Parsable(input)
    ensures |games| == |Groups(input)|
    ensures forall k :: 0 <= k < |games| ==> Built(games[k], ToInts(Groups(input)[k]))
    ensures forall k :: 0 <= k < |games| ==> fresh(games[k]) && fresh(games[k].Objects())
    ensures Apart(games)
  {
    games := [];
    if input == [] {
      return;
    }
    ghost var grids := Puzzles(input);
    var count := 0;
    var matrix: seq<seq<string>> := [];
    ghost var done: seq<seq<seq<string>>> := [];
    ghost var cellSets: seq<set<GamePosition>> := [];
    ghost var made: set<object> := {};
    var n := 1;
    while n < |input|
      invariant 1 <= n <= |input|
      invariant Reading(done, matrix) == ReadLines(input, n)
      invariant count == |matrix| && |games| == |done| <= |grids|
      invariant forall k :: 0 <= k < |games| ==> Built(games[k], grids[k])
      invariant Tracked(games, cellSets, made)
      invariant fresh(made)
    {
      games, done, matrix, count, cellSets, made := ParseLine(input, n, games, grids, done, matrix, count, cellSets, made);
      n := n + 1;
    }
    ReadLinesAll(input);
  }

  /// One pass of the loop of `parse_input`, over line n: a line that is
  /// blank after stripping is skipped; otherwise its pieces are a new row,
  /// and a ninth row completes the group, which becomes a new game.
  method ParseLine(input: seq<string>, n: int, games: seq<Game>, ghost grids: seq<Grid>,
                   ghost done: seq<seq<seq<string>>>, matrix: seq<seq<string>>, count: int,
                   ghost cellSets: seq<set<GamePosition>>, ghost made: set<object>)
    returns (games': seq<Game>, ghost done': seq<seq<seq<string>>>, matrix': seq<seq<string>>, count': int,
             ghost cellSets': seq<set<GamePosition>>, ghost made': set<object>)
    requires 1 <= n < |input| && Parsable(input) && grids == Puzzles(input)
    requires Reading(done, matrix) == ReadLines(input, n)
    requires count == |matrix| && |games| == |done| <= |grids|
    requires forall k :: 0 <= k < |games| ==> Built(games[k], grids[k])
    requires Tracked(games, cellSets, made)
    ensures Reading(done', matrix') == ReadLines(input, n + 1)
    ensures count' == |matrix'| && |games'| == |done'| <= |grids|
    ensures forall k :: 0 <= k < |games'| ==> Built(games'[k], grids[k])
    ensures Tracked(games', cellSets', made')
    ensures made <= made' && fresh(made' - made)
  {
    games', done', matrix', count', cellSets', made' := games, done, matrix, count, cellSets, made;
    var line := Strip(input[n]);
    assert ReadLines(input, n + 1) == Feed(Reading(done, matrix), input[n]);
    if line != "" {
      matrix' := matrix + [Split(line)];
      count' := count + 1;
      if count' == 9 {
        FeedCompletes(Reading(done, matrix), input[n]);
        GroupCompleted(input, n, done, matrix');
        assert Numerals(matrix') && grids[|games|] == ToInts(matrix');
        games', cellSets', made' := AppendGame(games, grids, ToInts(matrix'), cellSets, made);
        done' := done + [matrix'];
        matrix' := [];
        count' := 0;
      } else {
        assert Feed(Reading(done, matrix), input[n]) == Reading(done, matrix');
      }
    } else {
      assert Feed(Reading(done, matrix), input[n]) == Reading(done, matrix);
    }
  }

  /// The integers of the complete puzzles of the input, one grid per puzzle.
  ghost function Puzzles(input: seq<string>): (grids: seq<Grid>)
    requires Parsable(input)
    ensures |grids| == |Groups(input)|
    ensures forall k :: 0 <= k < |grids| ==> grids[k] == ToInts(Groups(input)[k])
  {
    var groups := Groups(input);
    seq(|groups|, k requires 0 <= k < |groups| => ToInts(groups[k]))
  }

  /// What `Game(matrix)` leaves: the cells hold the states new cells have,
  /// built from the integers of `m`, no cell object occurs twice, a 9x9
  /// matrix gives a valid board, and the cursor is at the last cell.
  predicate Built(game: Game, m: Grid)
    reads game, game.Objects()
  {
    && game.Initial() == m && game.State() == Fresh(m)
    && game.Separate() && (IsGrid(m) ==> game.Valid())
    && game.curX == 8 && game.curY == 8 && !game.back
  }

  /// No two games of the list share a cell object.
  ghost predicate Apart(games: seq<Game>)
    reads set k | 0 <= k < |games| :: games[k]
  {
    forall k, l :: 0 <= k < l < |games| ==> games[k].Objects() !! games[l].Objects()
  }

  /// `cellSets` holds the cells of each game, pairwise disjoint, and `made`
  /// holds the games and their cells.
  ghost predicate Tracked(games: seq<Game>, cellSets: seq<set<GamePosition>>, made: set<object>)
    reads set k | 0 <= k < |games| :: games[k]
  {
    && |cellSets| == |games|
    && (forall k :: 0 <= k < |games| ==> games[k] in made && games[k].Objects() == cellSets[k] <= made)
    && (forall k, l :: 0 <= k < l < |games| ==> cellSets[k] !! cellSets[l])
  }

  /// `games.append(Game(matrix))` when `matrix` is the next group: the new
  /// game and its cells are new objects, the game is built from the group,
  /// and building it changes none of the games before it.
  method AppendGame(games: seq<Game>, ghost grids: seq<Grid>, matrix: Grid,
                    ghost cellSets: seq<set<GamePosition>>, ghost made: set<object>)
    returns (more: seq<Game>, ghost cellSets': seq<set<GamePosition>>, ghost made': set<object>)
    requires |games| < |grids| && grids[|games|] == matrix
    requires forall k :: 0 <= k < |games| ==> Built(games[k], grids[k])
    requires Tracked(games, cellSets, made)
    ensures |more| == |games| + 1 && more[..|games|] == games
    ensures fresh(more[|games|]) && fresh(more[|games|].Objects())
    ensures forall k :: 0 <= k < |more| ==> Built(more[k], grids[k])
    ensures cellSets' == cellSets + [more[|games|].Objects()] && Tracked(more, cellSets', made')
    ensures made' == made + {more[|games|]} + more[|games|].Objects()
  {
    label Before:
    var game := new Game(matrix);
    more := games + [game];
    cellSets', made' := cellSets + [game.Objects()], made + {game} + game.Objects();
    assert more[..|games|] == games;
    forall k | 0 <= k < |games|
      ensures Built(games[k], grids[k])
      ensures games[k] in made && games[k].Objects() == cellSets[k] <= made && cellSets[k] !! game.Objects()
    {
      assert unchanged@Before(games[k]);
      assert unchanged@Before(games[k].Objects());
    }
  }

  /// A board whose cells other than (i, j) hold the states of `before`
  /// differs from `before` at most at (i, j).
  lemma StateAfterWrite(game: Game, i: int, j: int, before: Board)
    requires game.Valid() && IsBoard(before) && 0 <= i < 9 && 0 <= j < 9
    requires forall a, b :: 0 <= a < 9 && 0 <= b < 9 && (a != i || b != j) ==> game.cells[a][b].State() == before[a][b]
    ensures game.State() == before[i := before[i][j := game.cells[i][j].State()]]
  {
    var after, row := game.State(), before[i][j := game.cells[i][j].State()];
    forall a | 0 <= a < 9
      ensures after[a] == before[i := row][a]
    {
      assert |after[a]| == |before[i := row][a]| == 9;
    }
  }
}
