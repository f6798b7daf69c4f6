# A verified model of `sudoku.py`

`sudoku.py` is an early draft of a backtracking Sudoku solver. It has four parts:

- A cell, `GamePosition`. It holds the integer it was built with, a current `value`, a `fixed` flag, a list of values still to try (`possibilities`) and a list of values already tried (`tried`).
- The board, `Game`. It is a list of 9 rows of cells with a row-major cursor (`cur_x`, `cur_y`, `_back`). It offers:
  - the duplicate test `_alldiff`;
  - the checks `check_line`, `check_column`, `check_region` and `check_position`;
  - the candidate finder `get_possibilities`;
  - the cursor moves `_next` and `_prev`;
  - the first phase of `solve`, which offers every empty cell its candidates and every fixed cell its own value, then takes one `try` step at each cell;
  - `__str__`.
- `parse_input`, which cuts the lines of the input into puzzles of 9 rows.
- The rules these rely on: rows, columns and 3x3 boxes of a 9x9 grid.

This Dafny project models those parts and proves what they promise.

| file | module | what it holds |
|---|---|---|
| `rules.dfy` | `Rules` | The grid rules as pure functions: `_alldiff`, the row, column and box views, the consistency of one cell, the candidates of a cell. Also lemmas about writing a candidate into a grid. |
| `position.dfy` | `Positions` | The cell as a value (`CellState`) and as a class (`GamePosition`) with `try` (`TryNext`) and `reset`. |
| `cursor.dfy` | `Cursor` | `_next` and `_prev` as functions on a cursor value, with lemmas about row-major order. |
| `text.dfy` | `Text` | `str`/`int` of integers, `strip`, `split(' ')` and joining. Also the text of `__str__`, the grouping of `parse_input` as a function and as a line-by-line reading, and the render-then-parse round trip. |
| `init.dfy` | `SolveInit` | The first phase of `solve` as functions on the 81 cell states. Its theorem: on a consistent puzzle the phase never creates a conflict. |
| `game.dfy` | `Sudoku` | The class `Game` with its checks, `get_possibilities`, the first phase of `solve`, the cursor methods and `__str__`. Also `parse_input` over a list of lines. |
| `fixtures.dfy` | `Fixtures` | Boards from the repository's tests, with what the rules say about them. |

Two views of a cell matter. In the source the cell is an `int` subclass. So `_alldiff` and `check_region` compare the integer a cell was built with; `Game.Initial()` holds that integer. `get_possibilities` and `__str__` read the mutable `.value` attribute; `Game.Values()` holds that. The model keeps both views.

The tests in tests/test_game.py, tests/test_gameposition.py and tests/test_possibilities.py target a later revision of the module. That revision has a `Possibilities` class with separate sets for the row, the column and the box of a cell, `Game(matrix, forward_check=True)`, a `value` setter that updates the neighbours' sets, and `is_valid`. None of these exist in `sudoku.py`, and this model follows the code. In particular:

- `reset` does not discard the tried values: they become the list to try, and the tried list is emptied.
- `try` takes the head of the list to try, which the first phase has sorted. It does not choose the smallest untried candidate afresh.

## Model

| member | source | states |
|---|---|---|
| `Positions.TryCell` | sudoku.py:18-24 | `try` on a cell state succeeds exactly when something is left to try. On failure the state is unchanged. On success the old value is appended to the tried list and the list to try shrinks by one. The sequence tried, current, then still to try is kept, and so are the constructed integer and the fixed flag. |
| `Positions.ResetCell` | sudoku.py:26-28 | `reset` on a cell state empties the tried list and makes the old tried list the list to try. The value, the integer and the flag are kept. |
| `Positions.GamePosition.constructor` | sudoku.py:8-16 | A new cell holds `v` as its value, is fixed exactly when `v > 0`, and has nothing to try and nothing tried. |
| `Positions.GamePosition.TryNext` | sudoku.py:18-24 | With nothing to try, `try` returns false and changes nothing. Otherwise it returns true, appends the old value to `tried`, takes the first value to try as the new value and drops it from the list to try. |
| `Positions.GamePosition.Reset` | sudoku.py:26-28 | After `reset` the list to try is the old tried list, nothing is tried, and the value is unchanged. |
| `Positions.TryStep` | sudoku.py:18-24 | `try` fails exactly when nothing is left to try, and then leaves the cell unchanged. It never changes the sequence tried, current, then still to try, nor the constructed integer or the fixed flag. |
| `Positions.TryTimesWalks` | sudoku.py:18-24 | k successful tries walk the first k values to try in order. The value is the k-th of them, the tried list has grown by the old value and the k - 1 before it, and the rest are still to try. |
| `Positions.TryExhausted` | sudoku.py:18-24 | Once every value has been tried, one more `try` fails and leaves the cell as it is. |
| `Positions.ResetAfterExhaustion` | sudoku.py:18-28 | A cell that has tried nothing yet and has at least one value to try, tries all its values and is then reset, is offered again its original value and all but its last value, which it still holds; its tried list is empty. |
| `Rules.AllDiff` | sudoku.py:47-50 | `_alldiff`: the set of nonzero entries is as large as their list exactly when no nonzero value repeats. Zeros are ignored, so an all-zero line passes. |
| `Rules.CardinalityIffDistinct` | sudoku.py:49-50 | A list has as many distinct elements as entries exactly when no entry repeats, and never more. |
| `Rules.NonZeroDistinct` | sudoku.py:49 | The nonzero entries are pairwise distinct exactly when no nonzero value repeats in the whole line. |
| `Rules.AllDigitsPass` | sudoku.py:47-50 | A line of 9 entries that holds every digit 1..9 passes `_alldiff`. |
| `Rules.NonZero` | sudoku.py:49 | The list comprehension that drops zeros keeps exactly the nonzero entries, each as often as in the line, and is no longer than the line. |
| `Rules.BoxStart` | sudoku.py:53-54 | `n // 3 * 3` is 0, 3 or 6: the first row or column of the box holding `n`. |
| `Rules.Column` | sudoku.py:74 | `zip(*self)[c]`: entry i of the column is entry c of row i. |
| `Rules.Box` | sudoku.py:78-84 | The box of a cell, read row by row as the loops of `check_region` read it, has 9 entries. |
| `Rules.BoxRows` | sudoku.py:78-84 | The box of (r, c) is the three entries from its first column in its first row, then in the second row, then in the third. |
| `Rules.BoxAt` | sudoku.py:78-84 | Cell (x, y) of the box of (r, c) is entry 3 (x - x0) + (y - y0) of the box read row by row, where (x0, y0) is its first cell. |
| `Rules.ScanStep` | sudoku.py:81-91 | One more cell of a scan adds its value to the values seen, and adds a repeat exactly when it is a nonzero value already seen. |
| `Rules.ScanKeeps` | sudoku.py:85-91 | A scan that meets a zero or a new value keeps its collected values distinct and equal to the nonzero values scanned. |
| `Rules.ScanFails` | sudoku.py:88-89 | A scan that meets a nonzero value it has already collected has found a repeat in the whole box. |
| `Rules.ScanDone` | sudoku.py:93 | A scan of the whole box that never failed means the box has no repeated nonzero value. |
| `Rules.PositionOkAllDiff` | sudoku.py:95-105 | `check_position` at (r, c) holds exactly when the box, the row and the column of (r, c) each pass `_alldiff`. |
| `Rules.Candidates` | sudoku.py:52-67 | A digit is a candidate exactly when it lies in 1..9 and occurs in neither the box, the row nor the column of the cell. |
| `Rules.Place` | sudoku.py:118 | Writing d at (r, c) changes that cell and no other. |
| `Rules.NoRepeatUpdate` | sudoku.py:88-89 | Writing a nonzero d into an empty entry keeps a line free of repeats exactly when the line had none and did not hold d. |
| `Rules.ColumnPlace` | sudoku.py:74 | Writing at (r, c) changes column c at row r only, and no other column. |
| `Rules.BoxPlace` | sudoku.py:78-84 | Writing at (r, c) changes only the box holding (r, c), at the cell's own place in it. |
| `Rules.CandidateIffStillConsistent` | sudoku.py:52-105 | Over one grid of integers: at an empty cell where no nonzero value repeats in its row, column or box, a digit is a candidate of the cell exactly when writing it there keeps every nonzero value of that row, column and box distinct. In the source `get_possibilities` reads `.value` and `check_position` the constructed integer, so this holds of the two views taken one at a time. |
| `Rules.PlaceCandidateKeepsGridOk` | sudoku.py:52-105 | Over one grid of integers: writing a candidate into an empty cell of a grid in which no nonzero value repeats in any row, column or box keeps that so everywhere. |
| `Sudoku.Game.constructor` | sudoku.py:38-45 | `Game(matrix)` builds one new, distinct cell per entry, row by row, with the state a new `GamePosition` has. The constructed integers are the matrix, and the cursor starts at (8, 8). |
| `Sudoku.Game.NewLine` | sudoku.py:41-43 | One row of `__init__`: one new cell per value, in order, each distinct from the others. |
| `Sudoku.Game.CheckLine` | sudoku.py:69-71 | `check_line` holds exactly when no nonzero constructed integer repeats in the row. |
| `Sudoku.Game.CheckColumn` | sudoku.py:73-75 | `check_column` holds exactly when no nonzero constructed integer repeats in the column. |
| `Sudoku.Game.CheckRegion` | sudoku.py:77-93 | The loop of `check_region` returns true exactly when no nonzero constructed integer repeats in the 3x3 box of the cell. |
| `Sudoku.Game.RegionScan` | sudoku.py:84-91 | One pass of the inner loop of `check_region`: a nonzero value already seen is a repeat in the box. Otherwise the values seen, with this one when it is nonzero, are still distinct and are the nonzero values so far. |
| `Sudoku.Game.RegionAt` | sudoku.py:82-84 | `self[x][y]` in the loops of `check_region` is the box entry for (x, y). |
| `Sudoku.Game.CheckPosition` | sudoku.py:95-105 | `check_position` holds exactly when the box, the row and the column of the cell all pass. |
| `Sudoku.Game.GetPossibilities` | sudoku.py:52-67 | The loops of `get_possibilities` return exactly the digits 1..9 absent from the current values of the box, the row and the column. |
| `Sudoku.Game.VisitCell` | sudoku.py:110-118 | One pass of the inner loop of the first phase of `solve` changes only cell (i, j), and in the way `SolveInit.PrepareCell` says. |
| `Sudoku.Game.Offer` | sudoku.py:111-116 | A fixed cell appends its own value to its list to try. An empty cell extends its list with the candidates and sorts it. |
| `Sudoku.Game.VisitRow` | sudoku.py:110-118 | The inner loop visits the cells of row i from left to right. |
| `Sudoku.Game.Prepare` | sudoku.py:109-118 | The first phase of `solve` leaves the board `SolveInit.PrepareRows` describes after all 9 rows. |
| `Sudoku.Game.Prev` | sudoku.py:147-152 | `_prev` moves the cursor as `Cursor.Back` says and changes nothing else. |
| `Sudoku.Game.Next` | sudoku.py:136-145 | `_next` moves the cursor as `Cursor.Forth` says, and sets `_back` exactly at the last cell. |
| `Sudoku.Game.ToString` | sudoku.py:154-161 | On a board whose rows are non-empty, `__str__` returns the text `Text.Render` gives for the current values. |
| `Sudoku.ValuesOfState` | sudoku.py:59-61 | The values `get_possibilities` reads are the values of the cell states. |
| `Sudoku.StateAfterWrite` | sudoku.py:110-118 | A step that changes one cell changes the board at that cell only. |
| `Sudoku.ParseInput` | sudoku.py:167-191 | `parse_input` returns one game per group `Text.Groups` finds, in order. Each game is built from that group's tokens read as integers: its cells have the state new cells of those integers have, no cell object occurs twice in it, and its cursor is at (8, 8). Every game and every cell is a new object, and no two games share a cell. |
| `Sudoku.ParseLine` | sudoku.py:176-189 | One pass of the loop over line n moves the reading state from `Text.ReadLines` at n to `Text.ReadLines` at n + 1. The games built so far stay as built, no two share a cell, and any game it adds is built from new objects. |
| `Sudoku.AppendGame` | sudoku.py:187 | `games.append(Game(matrix))` adds a game built from the next group with the cursor at (8, 8). The game and its cells are new objects, so it shares no cell with the earlier games, which stay as they were. |
| `Cursor.Back` | sudoku.py:147-152 | `_prev` lowers the row-major index 9 x + y by exactly one and keeps the column in 0..8. |
| `Cursor.Forth` | sudoku.py:136-145 | `_next` raises the index by exactly one and leaves `_back` alone, except at (8, 8), where it steps back to (8, 7) and sets `_back`. It keeps the column in 0..8. |
| `Cursor.IndexDetermines` | sudoku.py:136-152 | With the column in 0..8, the row-major index determines the cursor. |
| `Cursor.BackUndoesForth` | sudoku.py:136-152 | `_prev` after `_next` is the identity on every cell of the grid except (8, 8). |
| `Cursor.BackFromOrigin` | sudoku.py:147-152 | `_prev` from (0, 0) reaches (-1, 8), the cursor at which the `solve` loop ends. |
| `Cursor.BackIsPredecessor` | sudoku.py:147-152 | `_prev` moves from row-major index n to index n - 1. |
| `Cursor.BackTimesFromIndex` | sudoku.py:147-152 | k calls of `_prev` from index n reach index n - k. |
| `Cursor.BackwardSweep` | sudoku.py:147-152 | Stepping back from (8, 8) visits every cell in reverse row-major order. `cur_x` becomes -1 after exactly 81 steps and not before. |
| `SolveInit.Ascending` | sudoku.py:114-116 | The candidates as the sorted list `extend` then `sort` makes of them on an empty list: exactly the digits of the set, strictly increasing. |
| `SolveInit.AscendingFromSpec` | sudoku.py:114-116 | The digits d..9 of a set, listed upwards, are exactly those digits, strictly increasing. |
| `SolveInit.Sort` | sudoku.py:116 | `list.sort` puts a list in nondecreasing order and keeps its elements with their multiplicities. |
| `SolveInit.InsertSorted` | sudoku.py:116 | Inserting into a sorted list keeps it sorted. |
| `SolveInit.InsertCount` | sudoku.py:116 | Inserting keeps the elements with their multiplicities. |
| `SolveInit.SortIncreasing` | sudoku.py:116 | Sorting a strictly increasing list leaves it as it is. |
| `SolveInit.AscendingSplit` | sudoku.py:115-118 | The first of the ascending candidates is the smallest candidate, and the rest are exactly the other candidates, larger and strictly increasing. |
| `SolveInit.Offered` | sudoku.py:111-116 | A visit changes only the list to try. A fixed cell appends its own value. An empty cell's list becomes sorted and holds what it had plus the candidates, with multiplicities. |
| `SolveInit.Visit` | sudoku.py:111-118 | A visit, the offer and then one `try`, keeps the integer, the flag and the sequence tried, current, then to try of the offer. When something is offered the cell holds the first value offered and has tried its old value; otherwise it is unchanged. |
| `SolveInit.PrepareRow` | sudoku.py:110-118 | The inner loop keeps the board 9x9. |
| `SolveInit.PrepareRows` | sudoku.py:109-118 | The outer loop keeps the board 9x9. |
| `SolveInit.PrepareCell` | sudoku.py:110-118 | One visit changes only cell (i, j) and keeps the board 9x9. |
| `SolveInit.PrepareRowsNext` | sudoku.py:109-110 | After the first i rows, row i is visited next, over its 9 cells. |
| `SolveInit.ValuesOfUpdate` | sudoku.py:118 | Changing one cell's state writes its value into the grid of current values. |
| `SolveInit.SettledEmpty` | sudoku.py:113-118 | A new empty cell offered its candidates in ascending order, then tried once, is exactly the new cell when there is no candidate. Otherwise it is the new cell holding the smallest candidate, having tried its old value, with the larger candidates in ascending order to try next. |
| `SolveInit.VisitSettles` | sudoku.py:111-118 | One visit to a new cell keeps a fixed cell's value and records it as tried. An empty cell is either left unchanged or given one of its candidates. |
| `SolveInit.VisitStep` | sudoku.py:110-118 | Visiting the next cell keeps the invariant: current values consistent, visited cells settled, other cells as constructed. |
| `SolveInit.VisitRowAll` | sudoku.py:110-118 | Visiting the cells of a row keeps the invariant. |
| `SolveInit.VisitRowsAll` | sudoku.py:109-118 | Visiting the first i rows keeps the invariant from the constructed board on. |
| `SolveInit.PrepareKeepsConsistency` | sudoku.py:109-118 | On a digit puzzle that passes `check_position` everywhere, the first phase never creates a conflict. After any number of rows, no nonzero current value repeats in any row, column or box, and every visited cell is settled. |
| `Text.NatStr` | sudoku.py:31 | `str` of a natural number is a non-empty string of digits. |
| `Text.Str` | sudoku.py:31 | `str` of an integer is non-empty, holds no space and neither starts nor ends with whitespace. |
| `Text.ParseNat` | sudoku.py:9 | `int` of a string of decimal digits is a natural number; `Text.ParseNatStr` reads back the decimal form `Text.NatStr` writes. |
| `Text.ParseNatStr` | sudoku.py:9 | `int` reads back the decimal form `str` writes for a natural number. |
| `Text.IsSpace` | sudoku.py:177 | The characters `strip()` removes: space, tab, newline, carriage return, vertical tab and form feed. None of them is a digit or a minus sign, so stripping never cuts into a numeral. |
| `Text.TrimLeftSuffix` | sudoku.py:177 | The left half of `strip()` drops exactly a leading run of whitespace: the result is a suffix, starts with a non-space, and everything dropped is whitespace. |
| `Text.TrimRightPrefix` | sudoku.py:177 | The right half of `strip()` drops exactly a trailing run of whitespace: the result is a prefix, ends with a non-space, and everything dropped is whitespace. |
| `Text.Strip` | sudoku.py:177 | `strip()` is no longer than its input, and is empty or starts and ends with a non-space. |
| `Text.StripBlank` | sudoku.py:177-180 | `strip()` gives the empty string, so the line is skipped, exactly when the line is all whitespace. |
| `Text.Split` | sudoku.py:182 | `split(' ')` gives at least one piece, and no piece holds a space. |
| `Text.JoinSplit` | sudoku.py:182 | Joining the pieces of `split(' ')` with single spaces gives the string back. |
| `Text.SplitJoin` | sudoku.py:182 | `split(' ')` undoes joining with single spaces when no piece holds a space. |
| `Text.SplitToken` | sudoku.py:182 | A piece without spaces before a space splits off as the first piece. |
| `Text.StripLine` | sudoku.py:177 | `strip()` of a newline-terminated line whose text starts and ends with a non-space gives back that text. |
| `Text.Concat` | sudoku.py:161 | `''.join` of a list of pieces. Its property is stated by `Text.ConcatAppend`: the join of two appended lists is the join of the first followed by the join of the second. |
| `Text.ConcatAppend` | sudoku.py:161 | `''.join` of two lists of pieces is the join of the first followed by the join of the second. |
| `Text.RenderRow` | sudoku.py:157-160 | The line of a row is non-empty and ends with a newline. |
| `Text.RenderRowSplit` | sudoku.py:157-160 | Splitting the line of a non-empty row before its newline on ' ' gives back the decimal forms of the row's values. |
| `Text.RenderLines` | sudoku.py:154-161 | The lines of `__str__`: one per row, line i being `Text.RenderRow` of row i. |
| `Text.Render` | sudoku.py:154-161 | The text of `__str__` for a grid: the values of each row as decimal numbers joined by single spaces, each row ended by a newline, the rows concatenated in order. It is stated by `Text.RenderStep`, `Text.RenderEnds` and `Text.RenderParseRoundTrip`. |
| `Text.RenderEnds` | sudoku.py:154-161 | The text of a grid is empty exactly when the grid has no row, and otherwise ends with a newline. |
| `Text.RowPieces` | sudoku.py:157-159 | The pieces `__str__` collects for a row are two per value: `Text.RowPiecesAt` states that piece 2k is `str` of value k and piece 2k + 1 is a space. |
| `Text.RowPiecesAt` | sudoku.py:157-159 | Piece 2k of a row's pieces is `str` of value k, piece 2k + 1 is `' '`. |
| `Text.RowPiecesLine` | sudoku.py:156-160 | A row's pieces are each value followed by a space. Replacing the last space by a newline gives the row's values joined by single spaces and ended by a newline. |
| `Text.CloseRow` | sudoku.py:155-160 | After the pieces of a row, `game_repr[-1] = '\n'` turns the pieces so far into the text so far followed by the row's line. |
| `Text.CloseRowStep` | sudoku.py:155-160 | Closing row i after the text of rows 0 .. i - 1 gives the text of rows 0 .. i. |
| `Text.RenderStep` | sudoku.py:154-161 | The text of the first i + 1 rows is the text of the first i rows followed by the line of row i. |
| `Text.Show` | sudoku.py:154-161 | The loops of `__str__` build the grid's lines joined together: each row's values joined by single spaces, each line ended by a newline. |
| `Text.LineRows` | sudoku.py:177-183 | One pass of `parse_input`'s loop body gives at most one row; `Text.LineRowsBlank` states which. |
| `Text.LineRowsBlank` | sudoku.py:177-183 | A line gives no row exactly when every character is whitespace (`strip()` leaves nothing, so `continue`); any other line gives exactly one row, its stripped text split on `' '`. |
| `Text.Rows` | sudoku.py:176-183 | The lines give no more rows than there are lines. |
| `Text.RowsBlank` | sudoku.py:176-183 | Lines give no row exactly when every one of them is blank after stripping. |
| `Text.Chunks` | sudoku.py:183-189 | Cutting rows into groups gives one group of exactly 9 rows per complete run of 9 rows. |
| `Text.ChunksOne` | sudoku.py:183-189 | Exactly 9 rows make exactly one group. |
| `Text.Groups` | sudoku.py:167-191 | Every puzzle of the input has 9 rows, and there are as many puzzles as complete runs of 9 non-blank rows after the header. |
| `Text.RowsNext` | sudoku.py:176-183 | Reading one more line adds that line's rows: none for a blank line, its tokens otherwise. |
| `Text.ChunksAt` | sudoku.py:184-189 | Puzzle k holds the non-blank rows 9k .. 9k + 8. |
| `Text.ChunksPrefix` | sudoku.py:184-189 | Groups of exactly 9 rows come out of the grouping unchanged, followed by the groups of what comes after them. |
| `Text.FlattenSnoc` | sudoku.py:183-187 | The rows held by the finished groups and one more group are the rows held before, then that group's rows. |
| `Text.RowsAppend` | sudoku.py:176-183 | The rows of two runs of lines are the rows of the first, then the rows of the second. |
| `Text.HeaderIgnored` | sudoku.py:170-171 | The first line is discarded whatever it holds. |
| `Text.BlankLineIgnored` | sudoku.py:177-180 | A line that is blank after stripping can be inserted anywhere after the header without changing the puzzles. |
| `Text.GroupsShape` | sudoku.py:167-191 | There are as many puzzles as complete runs of 9 non-blank rows after the header. Puzzle k holds non-blank rows 9k .. 9k + 8, in order, so a last group of fewer than 9 is dropped. |
| `Text.Feed` | sudoku.py:176-189 | One pass of the loop of `parse_input` keeps the finished groups and adds at most one. A blank line changes nothing. Every finished group stays at 9 rows and the group in progress below 9. |
| `Text.FeedCompletes` | sudoku.py:183-189 | A ninth non-blank row closes the group in progress: it becomes a finished group, and the group in progress is emptied. |
| `Text.FeedRows` | sudoku.py:177-189 | One pass adds exactly the rows of its line to the finished groups and the group in progress taken together. |
| `Text.ReadLines` | sudoku.py:176-189 | After any number of lines, every finished group has 9 rows and the group in progress fewer. |
| `Text.ReadLinesStep` | sudoku.py:176-189 | Reading one more line is one more pass of the loop. |
| `Text.ReadLinesRows` | sudoku.py:176-189 | After any number of lines, the finished groups and the group in progress hold the rows of the lines read, in order. |
| `Text.GroupsAfter` | sudoku.py:176-189 | The puzzles of the input are the groups finished so far, then the groups of the rows in progress and the rows still to read. |
| `Text.ReadLinesGroups` | sudoku.py:176-189 | The groups finished after any number of lines are the first puzzles of the whole input. |
| `Text.GroupCompleted` | sudoku.py:183-189 | When a line completes a group, that group is the next puzzle of the input. |
| `Text.ReadLinesAll` | sudoku.py:167-191 | After the last line, the finished groups are exactly the puzzles of the input; the rows of an unfinished last group are dropped. |
| `Text.ToInts` | sudoku.py:9 | `int()` applied to every token of a puzzle keeps its shape and reads each token as its decimal value. |
| `Text.LineRowsRender` | sudoku.py:154-183 | A line `__str__` writes, read back by `parse_input`, gives the row's tokens. |
| `Text.RowsEach` | sudoku.py:176-183 | Lines that each give one row give those rows, in order. |
| `Text.TokensReadBack` | sudoku.py:9 | Every token `__str__` writes for a non-negative value is a numeral that `int()` reads back as that value. |
| `Text.RenderGroups` | sudoku.py:154-191 | The lines `__str__` writes for a 9-row grid, after a header line, group into exactly one puzzle: the grid's tokens. |
| `Text.RenderParseRoundTrip` | sudoku.py:154-191 | Rendering a 9-row grid of non-negative values with `__str__` and parsing the lines after any header gives back exactly that grid. |
| `Fixtures.SparseCorner` | tests/test_gameposition.py:10-29 | On the test's board, cell (0, 0) has exactly the candidates 1..9 except 7. |
| `Fixtures.SolvedLinesPass` | tests/test_game.py:66-77 | Every row and every column of the test's solved board passes `check_line` and `check_column`. |
| `Fixtures.SolvedBoxesPass` | tests/test_game.py:66-77 | Every box of the test's solved board passes `check_region`. |
| `Fixtures.SolvedConsistent` | tests/test_game.py:66-77 | The test's solved board passes `check_position` at every cell. |
| `Fixtures.BrokenCentreFails` | tests/test_game.py:40-51 | With a 7 at the centre of the solved board, the centre row, column and box each repeat the 7, so `check_position` fails there. |

## Left out

- `sudoku.py` does not parse: `def try(self):` (sudoku.py:18) and `position.try()` (sudoku.py:118) use the reserved word `try`, a syntax error in Python 2 and 3, so no part of the module can be imported or called. The model gives each function the evident meaning of its body, with `try` renamed `TryNext`.
- The main loop of `solve` (sudoku.py:120-133) is not modelled. It reads the undefined locals `cur_x` and `cur_y`, calls `check_position` on a cell and `try` on the board (neither has such a method), and uses a stale loop variable. The model covers the first phase and the cursor moves it relies on.
- Standard input and `__main__`: `parse_input` takes the lines of the input as a parameter, header line included, instead of reading `sys.stdin`. Printing is left out.
- `Sudoku.ParseInput` requires every token of every complete puzzle to be a string of decimal digits. Python's `int()` also accepts signs and surrounding whitespace, and raises on anything else. Tokens in an unfinished last group are never converted, and the model does not require anything of them.
- `SolveInit.PrepareRow`, `SolveInit.PrepareRows`: their own contracts state only that the board stays 9x9. What they do to every cell is stated by `SolveInit.PrepareRowsNext`, `SolveInit.VisitRowAll`, `SolveInit.VisitRowsAll` and `SolveInit.PrepareKeepsConsistency`.
- `Rules.Box`: its own contract states only the length. Which entries the box holds is stated by `Rules.BoxRows` and `Rules.BoxAt`.
- `Sudoku.Game.GetPossibilities` returns a set. The source returns a tuple in the set's iteration order. The only caller sorts the list it builds from that tuple, so the order does not matter.
- `Sudoku.Game.Offer` and the other members that take an index require it to lie in 0..8. Python also accepts negative indices, counted from the end; nothing in the source passes one.
- `Sudoku.Game.VisitCell`, `Sudoku.Game.VisitRow` and `Sudoku.Game.Prepare` require a 9x9 board of distinct cells, which `__init__` builds from a 9x9 matrix. The model covers 9x9 boards only. The source also runs the first phase on some other shapes, such as 9 rows of 3 cells, where every box it reads stays inside the board.
- `Sudoku.Game.ToString` reads the values of all cells once and builds the text from them. The source reads each cell as it goes; nothing changes a cell meanwhile, so the result is the same.
- The `_back` flag is set to false by the constructor. `__init__` in the source does not set it; it is assigned only in `solve` (sudoku.py:120, 131) and in `_next` (sudoku.py:140).
- `zip(*self)[col_num]` is modelled as column extraction. In Python 3, `zip` returns an iterator that cannot be indexed.
- Object identity and the `int` subclassing of `GamePosition` are not modelled beyond the two views of a cell described above. `GamePosition.__str__` is modelled as `str` of the value inside `__str__`.
- `__repr__` of both classes is left out. It delegates to `__str__`.
- The tests target a later revision of the module: `Possibilities`, forward checking, `is_valid`, `parse_input(file_obj=...)`. Only their boards are used, as fixtures. In particular, the test at tests/test_game.py:14-25 expects an all-zero board to be invalid, which `check_position` does not do.
