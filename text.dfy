/// Text handling around the board: the decimal form of an integer (`str`,
/// `int`), `strip()`, `split(' ')`, `' '.join`, the rendering of a grid by
/// `Game.__str__` and the grouping of input lines into puzzles by
/// `parse_input`.
module Text {

  /// Python's `str.strip()` with no argument strips ASCII whitespace.
  /// None of them is a digit or a minus sign, so `strip()` never cuts into a
  /// numeral.
  predicate IsSpace(c: char)
    ensures IsSpace(c) ==> !IsDigitChar(c) && c != '-'
  {
    c == ' ' || c == '\t' || c == '\n' || c == '\r' || c as int == 11 || c as int == 12
  }

  predicate IsDigitChar(c: char) {
    '0' <= c <= '9'
  }

  predicate AllDigits(s: string) {
    forall i :: 0 <= i < |s| ==> IsDigitChar(s[i])
  }

  /// A non-empty string of decimal digits: a token `int()` accepts.
  predicate IsNumeral(s: string) {
    |s| > 0 && AllDigits(s)
  }

  function DigitChar(d: int): (c: char)
    requires 0 <= d <= 9
    ensures IsDigitChar(c) && c as int - '0' as int == d
  {
    ('0' as int + d) as char
  }

  /// The decimal form of a natural number, without leading zeros.
  function NatStr(n: nat): (s: string)
    ensures IsNumeral(s)
  {
    if n < 10 then [DigitChar(n)] else NatStr(n / 10) + [DigitChar(n % 10)]
  }

  /// `str(n)` for an integer.
  function Str(n: int): (s: string)
    ensures |s| > 0 && ' ' !in s && !IsSpace(s[0]) && !IsSpace(s[|s| - 1])
  {
    if n < 0 then "-" + NatStr(-n) else NatStr(n)
  }

  /// `int(s)` for a string of digits.
  function ParseNat(s: string): (n: int)
    requires AllDigits(s)
    ensures 0 <= n
  {
    if s == [] then 0
    else 10 * ParseNat(s[..|s| - 1]) + (s[|s| - 1] as int - '0' as int)
  }

  /// Reading back the decimal form of a natural number gives the number.
  lemma {:induction false} ParseNatStr(n: nat)
    ensures ParseNat(NatStr(n)) == n
  {
    if n >= 10 {
      var s := NatStr(n);
      assert s[..|s| - 1] == NatStr(n / 10);
      ParseNatStr(n / 10);
    }
  }

  function TrimLeft(s: string): string {
    if s != [] && IsSpace(s[0]) then TrimLeft(s[1..]) else s
  }

  function TrimRight(s: string): string {
    if s != [] && IsSpace(s[|s| - 1]) then TrimRight(s[..|s| - 1]) else s
  }

  /// `TrimLeft` drops exactly the leading whitespace: what is left is a
  /// suffix of `s` that is empty or starts with a non-space.
  lemma {:induction false} TrimLeftSuffix(s: string)
    ensures var r := TrimLeft(s);
      && |r| <= |s| && r == s[|s| - |r|..]
      && (r == [] || !IsSpace(r[0]))
      && forall k :: 0 <= k < |s| - |r| ==> IsSpace(s[k])
  {
    if s != [] && IsSpace(s[0]) {
      var tail := s[1..];
      TrimLeftSuffix(tail);
      var r := TrimLeft(tail);
      assert TrimLeft(s) == r;
      assert tail[|tail| - |r|..] == s[|s| - |r|..];
      forall k | 0 < k < |s| - |r|
        ensures IsSpace(s[k])
      {
        assert s[k] == tail[k - 1];
      }
    }
  }

  /// `TrimRight` drops exactly the trailing whitespace: what is left is a
  /// prefix of `s` that is empty or ends with a non-space.
  lemma {:induction false} TrimRightPrefix(s: string)
    ensures var r := TrimRight(s);
      && |r| <= |s| && r == s[..|r|]
      && (r == [] || !IsSpace(r[|r| - 1]))
      && forall k :: |r| <= k < |s| ==> IsSpace(s[k])
  {
    if s != [] && IsSpace(s[|s| - 1]) {
      TrimRightPrefix(s[..|s| - 1]);
    }
  }

  /// `str.strip()`: the result neither starts nor ends with whitespace.
  function Strip(s: string): (r: string)
    ensures |r| <= |s|
    ensures r == [] || (!IsSpace(r[0]) && !IsSpace(r[|r| - 1]))
  {
    var t := TrimLeft(s);
    TrimLeftSuffix(s);
    TrimRightPrefix(t);
    var r := TrimRight(t);
    assert r != [] ==> r[0] == t[0];
    r
  }

  /// A line is blank after `strip()` exactly when it is all whitespace.
  lemma StripBlank(s: string)
    ensures Strip(s) == [] <==> forall k :: 0 <= k < |s| ==> IsSpace(s[k])
  {
    var t := TrimLeft(s);
    TrimLeftSuffix(s);
    TrimRightPrefix(t);
    assert forall k :: |s| - |t| <= k < |s| ==> s[k] == t[k - (|s| - |t|)];
  }

  /// `s.split(' ')`: the pieces between single spaces; two adjacent spaces
  /// give an empty piece, and the result is never empty. No piece holds a
  /// space, and joining the pieces with single spaces gives `s` back.
  function Split(s: string): (r: seq<string>)
    ensures |r| >= 1
    ensures forall k :: 0 <= k < |r| ==> ' ' !in r[k]
  {
    if s == [] then [""]
    else if s[0] == ' ' then
      var rest := Split(s[1..]);
      assert ([""] + rest)[1..] == rest;
      [""] + rest
    else
      var rest := Split(s[1..]);
      var r := [[s[0]] + rest[0]] + rest[1..];
      assert r[1..] == rest[1..];
      assert |rest| > 1 ==> Join(rest) == rest[0] + " " + Join(rest[1..]);
      assert s == [s[0]] + s[1..];
      r
  }

  /// Joining the pieces of `s.split(' ')` with single spaces gives `s` back.
  lemma {:induction false} JoinSplit(s: string)
    ensures Join(Split(s)) == s
  {
    if s != [] {
      var rest := Split(s[1..]);
      JoinSplit(s[1..]);
      var r := Split(s);
      if s[0] == ' ' {
        assert r == [""] + rest && r[1..] == rest;
      } else {
        assert r == [[s[0]] + rest[0]] + rest[1..] && r[1..] == rest[1..];
        assert |rest| > 1 ==> Join(rest) == rest[0] + " " + Join(rest[1..]);
      }
      assert s == [s[0]] + s[1..];
    }
  }

  /// `' '.join(ts)`.
  function Join(ts: seq<string>): string {
    if ts == [] then ""
    else if |ts| == 1 then ts[0]
    else ts[0] + " " + Join(ts[1..])
  }

  /// ''.join(ps).
  function Concat(ps: seq<string>): (s: string)
  {
    if ps == [] then "" else ps[0] + Concat(ps[1..])
  }

  lemma {:induction false} ConcatAppend(a: seq<string>, b: seq<string>)
    ensures Concat(a + b) == Concat(a) + Concat(b)
  {
    if a != [] {
      assert (a + b)[0] == a[0] && (a + b)[1..] == a[1..] + b;
      ConcatAppend(a[1..], b);
      calc {
        Concat(a + b);
        a[0] + Concat(a[1..] + b);
        a[0] + (Concat(a[1..]) + Concat(b));
        (a[0] + Concat(a[1..])) + Concat(b);
        Concat(a) + Concat(b);
      }
    } else {
      assert a + b == b;
    }
  }

  /// A piece without spaces before a space splits off as the first piece.
  lemma {:induction false} SplitToken(t: string, rest: string)
    requires ' ' !in t
    ensures Split(t + " " + rest) == [t] + Split(rest)
    ensures Split(t) == [t]
  {
    if t != [] {
      assert (t + " " + rest)[1..] == t[1..] + " " + rest;
      SplitToken(t[1..], rest);
      assert [t[0]] + t[1..] == t;
    }
  }

  /// Splitting on ' ' undoes joining with ' ' when no piece holds a space.
  lemma {:induction false} SplitJoin(ts: seq<string>)
    requires |ts| >= 1
    requires forall k :: 0 <= k < |ts| ==> ' ' !in ts[k]
    ensures Split(Join(ts)) == ts
  {
    if |ts| == 1 {
      SplitToken(ts[0], "");
    } else {
      SplitToken(ts[0], Join(ts[1..]));
      SplitJoin(ts[1..]);
    }
  }

  /// The joined string starts with the first character of the first piece
  /// and ends with the last character of the last piece.
  lemma {:induction false} JoinEnds(ts: seq<string>)
    requires |ts| >= 1 && forall k :: 0 <= k < |ts| ==> |ts[k]| > 0
    ensures |Join(ts)| > 0
    ensures Join(ts)[0] == ts[0][0]
    ensures Join(ts)[|Join(ts)| - 1] == ts[|ts| - 1][|ts[|ts| - 1]| - 1]
  {
    if |ts| > 1 {
      JoinEnds(ts[1..]);
    }
  }

  lemma {:induction false} TrimRightKeeps(s: string)
    requires s == [] || !IsSpace(s[|s| - 1])
    ensures TrimRight(s + "\n") == s
  {
    assert (s + "\n")[..|s|] == s;
  }

  /// Stripping a newline-terminated line whose text starts and ends with a
  /// non-space character gives back that text.
  lemma StripLine(s: string)
    requires |s| > 0 && !IsSpace(s[0]) && !IsSpace(s[|s| - 1])
    ensures Strip(s + "\n") == s
  {
    assert TrimLeft(s + "\n") == s + "\n";
    TrimRightKeeps(s);
  }

  /// The values of a row, each as `str` renders it.
  function Strs(row: seq<int>): (ts: seq<string>)
    ensures |ts| == |row| && forall k :: 0 <= k < |row| ==> ts[k] == Str(row[k])
  {
    seq(|row|, k requires 0 <= k < |row| => Str(row[k]))
  }

  /// One line of `__str__`: the row's values joined by single spaces and
  /// terminated by a newline.
  function RenderRow(row: seq<int>): (line: string)
    ensures |line| > 0 && line[|line| - 1] == '\n'
  {
    Join(Strs(row)) + "\n"
  }

  /// Splitting a line of `__str__` before its newline on ' ' gives the
  /// values' decimal forms back.
  lemma RenderRowSplit(row: seq<int>)
    requires |row| > 0
    ensures var line := RenderRow(row);
      Split(line[..|line| - 1]) == Strs(row)
  {
    var ts := Strs(row);
    SplitJoin(ts);
    assert (Join(ts) + "\n")[..|Join(ts)|] == Join(ts);
  }

  /// The lines of `__str__`, one per row.
  function RenderLines(g: seq<seq<int>>): (ls: seq<string>)
    ensures |ls| == |g| && forall i :: 0 <= i < |g| ==> ls[i] == RenderRow(g[i])
  {
    seq(|g|, i requires 0 <= i < |g| => RenderRow(g[i]))
  }

  /// `__str__` of a grid: the lines of its rows, joined.
  function Render(g: seq<seq<int>>): (s: string)
    ensures s == "" <==> g == []
  {
    Concat(RenderLines(g))
  }

  /// The text of a grid is empty for no rows, and otherwise ends with the
  /// newline of the last row.
  lemma RenderEnds(g: seq<seq<int>>)
    ensures Render(g) == "" <==> g == []
    ensures g != [] ==> Render(g)[|Render(g)| - 1] == '\n'
  {
    if g != [] {
      var n := |g| - 1;
      RenderStep(g, n);
      assert g[..n + 1] == g;
      LastOfAppend(Render(g[..n]), RenderRow(g[n]));
    }
  }

  /// The last character of `a + b`, for a non-empty `b`, is the last of `b`.
  lemma LastOfAppend(a: string, b: string)
    requires b != []
    ensures (a + b)[|a + b| - 1] == b[|b| - 1]
  {
  }

  /// The pieces `__str__` collects for one row before it replaces the last
  /// space by a newline: each value followed by a space.
  function RowPieces(row: seq<int>): (ps: seq<string>)
    ensures |ps| == 2 * |row|
  {
    if row == [] then [] else [Str(row[0]), " "] + RowPieces(row[1..])
  }

  /// Piece 2k is `str` of value k and piece 2k + 1 the space after it.
  lemma {:induction false} RowPiecesAt(row: seq<int>, k: int)
    requires 0 <= k < |row|
    ensures RowPieces(row)[2 * k] == Str(row[k]) && RowPieces(row)[2 * k + 1] == " "
  {
    if k > 0 {
      RowPiecesAt(row[1..], k - 1);
    }
  }

  lemma {:induction false} RowPiecesSnoc(row: seq<int>, v: int)
    ensures RowPieces(row + [v]) == RowPieces(row) + [Str(v), " "]
  {
    if row != [] {
      assert (row + [v])[1..] == row[1..] + [v];
      RowPiecesSnoc(row[1..], v);
    }
  }

  /// Replacing the last space of a row's pieces by a newline gives its line.
  lemma {:induction false} RowPiecesLine(row: seq<int>)
    requires |row| > 0
    ensures |RowPieces(row)| == 2 * |row|
    ensures RowPieces(row)[2 * |row| - 1] == " "
    ensures Concat(RowPieces(row)[..2 * |row| - 1] + ["\n"]) == RenderRow(row)
  {
    if |row| == 1 {
      RowPiecesLineOne(row);
    } else {
      RowPiecesLine(row[1..]);
      RowPiecesLineStep(row);
    }
  }

  lemma RowPiecesLineOne(row: seq<int>)
    requires |row| == 1
    ensures |RowPieces(row)| == 2
    ensures RowPieces(row)[1] == " "
    ensures Concat(RowPieces(row)[..1] + ["\n"]) == RenderRow(row)
  {
    var ps := RowPieces(row);
    assert row[1..] == [];
    assert RowPieces(row[1..]) == [];
    assert ps == [Str(row[0]), " "] + [];
    assert ps[..1] + ["\n"] == [Str(row[0]), "\n"];
    assert Concat(["\n"]) == "\n" + Concat([]);
    assert [Str(row[0]), "\n"][1..] == ["\n"];
    assert Concat([Str(row[0]), "\n"]) == Str(row[0]) + "\n";
    assert Strs(row) == [Str(row[0])];
  }

  lemma RowPiecesLineStep(row: seq<int>)
    requires |row| > 1
    requires |RowPieces(row[1..])| == 2 * |row| - 2
    requires RowPieces(row[1..])[2 * |row| - 3] == " "
    requires Concat(RowPieces(row[1..])[..2 * |row| - 3] + ["\n"]) == RenderRow(row[1..])
    ensures |RowPieces(row)| == 2 * |row|
    ensures RowPieces(row)[2 * |row| - 1] == " "
    ensures Concat(RowPieces(row)[..2 * |row| - 1] + ["\n"]) == RenderRow(row)
  {
    var ps, qs := RowPieces(row), RowPieces(row[1..]);
    assert ps == [Str(row[0]), " "] + qs;
    RowPiecesLineJoin(row, ps, qs);
  }

  lemma RowPiecesLineJoin(row: seq<int>, ps: seq<string>, qs: seq<string>)
    requires |row| > 1 && |qs| == 2 * |row| - 2 && ps == [Str(row[0]), " "] + qs
    requires Concat(qs[..2 * |row| - 3] + ["\n"]) == RenderRow(row[1..])
    ensures Concat(ps[..2 * |row| - 1] + ["\n"]) == RenderRow(row)
  {
    var a, front := Str(row[0]), qs[..2 * |row| - 3];
    CloseAfterPair(a, " ", qs, 2 * |row| - 3);
    ConcatPairAppend(a, " ", front + ["\n"]);
    RenderRowCons(row);
  }

  /// Closing a list with a fixed pair in front: the pair, then the closed prefix of the rest.
  lemma CloseAfterPair(a: string, b: string, qs: seq<string>, m: int)
    requires 0 <= m <= |qs|
    ensures ([a, b] + qs)[..m + 2] + ["\n"] == [a, b] + (qs[..m] + ["\n"])
  {
    ConsPrefix([a, b], qs, m);
    AppendAssoc([a, b], qs[..m], ["\n"]);
  }

  /// A prefix of a list with a fixed front is the front and a prefix of the rest.
  lemma ConsPrefix<T>(front: seq<T>, qs: seq<T>, m: int)
    requires 0 <= m <= |qs|
    ensures (front + qs)[..|front| + m] == front + qs[..m]
  {
  }

  lemma ConcatPair(a: string, b: string)
    ensures Concat([a, b]) == a + b
  {
    assert [a, b][1..] == [b];
    assert Concat([b]) == b + Concat([]);
  }

  lemma ConcatPairAppend(a: string, b: string, xs: seq<string>)
    ensures Concat([a, b] + xs) == (a + b) + Concat(xs)
  {
    ConcatAppend([a, b], xs);
    ConcatPair(a, b);
  }

  /// The values of a row of two or more values join as the first value, a
  /// space and the rest joined.
  lemma JoinStrs(row: seq<int>)
    requires |row| > 1
    ensures Join(Strs(row)) == (Str(row[0]) + " ") + Join(Strs(row[1..]))
  {
    assert Strs(row)[1..] == Strs(row[1..]);
  }

  /// The line of a row of two or more values: the first value, a space and
  /// the line of the rest.
  lemma RenderRowCons(row: seq<int>)
    requires |row| > 1
    ensures RenderRow(row) == (Str(row[0]) + " ") + RenderRow(row[1..])
  {
    JoinStrs(row);
    AppendAssoc(Str(row[0]) + " ", Join(Strs(row[1..])), "\n");
  }

  lemma RenderLinesSnoc(g: seq<seq<int>>, i: int)
    requires 0 <= i < |g|
    ensures RenderLines(g[..i + 1]) == RenderLines(g[..i]) + [RenderRow(g[i])]
  {
  }

  /// The pieces of one more value of a row.
  lemma RowPiecesStep(row: seq<int>, j: int)
    requires 0 <= j < |row|
    ensures RowPieces(row[..j + 1]) == RowPieces(row[..j]) + [Str(row[j]), " "]
  {
    assert row[..j + 1] == row[..j] + [row[j]];
    RowPiecesSnoc(row[..j], row[j]);
  }

  /// Closing a row: after the row's pieces, the last space becomes a
  /// newline, and the pieces so far join to the text so far and the row's line.
  lemma {:induction false} CloseRow(before: seq<string>, row: seq<int>)
    requires |row| > 0
    ensures var ps := before + RowPieces(row);
      |ps| == |before| + 2 * |row|
      && Concat(ps[|ps| - 1 := "\n"]) == Concat(before) + RenderRow(row)
  {
    RowPiecesLine(row);
    var rs := RowPieces(row);
    var ps := before + rs;
    assert ps[|ps| - 1 := "\n"] == before + (rs[..2 * |row| - 1] + ["\n"]);
    ConcatAppend(before, rs[..2 * |row| - 1] + ["\n"]);
  }

  /// The text of the first i + 1 rows is the text of the first i rows and
  /// the line of row i.
  lemma {:induction false} RenderStep(g: seq<seq<int>>, i: int)
    requires 0 <= i < |g|
    ensures Render(g[..i + 1]) == Render(g[..i]) + RenderRow(g[i])
  {
    RenderLinesSnoc(g, i);
    ConcatAppend(RenderLines(g[..i]), [RenderRow(g[i])]);
  }

  /// Closing row i after the text of rows 0 .. i - 1 gives the text of rows 0 .. i.
  lemma CloseRowStep(g: seq<seq<int>>, i: int, before: seq<string>, pieces: seq<string>)
    requires 0 <= i < |g| && |g[i]| > 0
    requires Concat(before) == Render(g[..i]) && pieces == before + RowPieces(g[i][..|g[i]|])
    ensures |pieces| > 0 && Concat(pieces[|pieces| - 1 := "\n"]) == Render(g[..i + 1])
  {
    assert g[i][..|g[i]|] == g[i];
    CloseRow(before, g[i]);
    RenderStep(g, i);
  }

  /// The loop of `__str__` over the values of a grid: every value followed
  /// by a space, the last space of each row replaced by a newline, all
  /// pieces joined. Every row must be non-empty, or the replacement would hit
  /// the previous row (or no piece at all).
  method Show(g: seq<seq<int>>) returns (s: string)
    requires forall i :: 0 <= i < |g| ==> |g[i]| > 0
    ensures s == Render(g)
  {
    var pieces: seq<string> := [];
    var i := 0;
    while i < |g|
      invariant 0 <= i <= |g|
      invariant Concat(pieces) == Render(g[..i])
    {
      var line := g[i];
      ghost var before := pieces;
      var j := 0;
      while j < |line|
        invariant 0 <= j <= |line|
        invariant pieces == before + RowPieces(line[..j])
      {
        RowPiecesStep(line, j);
        pieces := pieces + [Str(line[j]), " "];
        j := j + 1;
      }
      CloseRowStep(g, i, before, pieces);
      pieces := pieces[|pieces| - 1 := "\n"];
      i := i + 1;
    }
    assert g[..i] == g;
    s := Concat(pieces);
  }

  /// The rows a line contributes to `parse_input`: none if it is blank after
  /// stripping, otherwise its stripped text split on ' '.
  function LineRows(line: string): (rs: seq<seq<string>>)
    ensures |rs| <= 1
  {
    if Strip(line) == "" then [] else [Split(Strip(line))]
  }

  /// A line gives no row exactly when it is all whitespace; otherwise its
  /// row is the stripped text split on ' '.
  lemma LineRowsBlank(line: string)
    ensures LineRows(line) == [] <==> forall k :: 0 <= k < |line| ==> IsSpace(line[k])
    ensures LineRows(line) != [] ==> LineRows(line) == [Split(Strip(line))]
  {
    StripBlank(line);
  }

  /// The non-blank lines, split into tokens, in order: at most one row per
  /// line, and none exactly when every line is blank.
  function Rows(lines: seq<string>): (rs: seq<seq<string>>)
    ensures |rs| <= |lines|
  {
    if lines == [] then []
    else Rows(lines[..|lines| - 1]) + LineRows(lines[|lines| - 1])
  }

  /// No row comes out exactly when every line is blank after stripping.
  lemma {:induction false} RowsBlank(lines: seq<string>)
    ensures Rows(lines) == [] <==> forall k :: 0 <= k < |lines| ==> Strip(lines[k]) == ""
  {
    if lines != [] {
      var front := lines[..|lines| - 1];
      RowsBlank(front);
      assert forall k :: 0 <= k < |front| ==> front[k] == lines[k];
    }
  }

  /// Reading one more line after the header adds the rows of that line.
  lemma RowsNext(input: seq<string>, n: int)
    requires 1 < n <= |input|
    ensures Rows(input[1..n]) == Rows(input[1..n - 1]) + LineRows(input[n - 1])
  {
    var prefix := input[1..n];
    assert prefix[..|prefix| - 1] == input[1..n - 1];
    assert prefix[|prefix| - 1] == input[n - 1];
  }

  /// Consecutive groups of 9 rows; a last group of fewer than 9 is dropped.
  /// Every group has 9 rows.
  function Chunks(rows: seq<seq<string>>): (gs: seq<seq<seq<string>>>)
    ensures |gs| == |rows| / 9
    ensures forall k :: 0 <= k < |gs| ==> |gs[k]| == 9
  {
    if |rows| < 9 then [] else [rows[..9]] + Chunks(rows[9..])
  }

  /// Chunk k holds rows 9k .. 9k + 8.
  lemma {:induction false} ChunksAt(rows: seq<seq<string>>)
    ensures forall k :: 0 <= k < |Chunks(rows)| ==> Chunks(rows)[k] == rows[9 * k .. 9 * k + 9]
  {
    if |rows| >= 9 {
      ChunksAt(rows[9..]);
      var gs, tail := Chunks(rows), rows[9..];
      assert gs == [rows[..9]] + Chunks(tail);
      forall k | 1 <= k < |gs|
        ensures gs[k] == rows[9 * k .. 9 * k + 9]
      {
        var a := 9 * (k - 1);
        assert gs[k] == tail[a .. a + 9];
      }
    }
  }

  /// `parse_input`'s grouping: the first line is discarded, blank lines are
  /// skipped, every 9 remaining lines make one puzzle. Every puzzle has 9
  /// rows, and there are as many as complete runs of 9 non-blank lines.
  function Groups(input: seq<string>): (gs: seq<seq<seq<string>>>)
    ensures forall k :: 0 <= k < |gs| ==> |gs[k]| == 9
    ensures input != [] ==> |gs| == |Rows(input[1..])| / 9
  {
    if input == [] then [] else Chunks(Rows(input[1..]))
  }

  function Flatten(ms: seq<seq<seq<string>>>): seq<seq<string>> {
    if ms == [] then [] else ms[0] + Flatten(ms[1..])
  }

  lemma {:induction false} FlattenSnoc(ms: seq<seq<seq<string>>>, m: seq<seq<string>>)
    ensures Flatten(ms + [m]) == Flatten(ms) + m
  {
    if ms != [] {
      assert (ms + [m])[1..] == ms[1..] + [m];
      FlattenSnoc(ms[1..], m);
    }
  }

  /// Groups of exactly 9 rows come back out of `Chunks` unchanged, followed
  /// by the groups of what comes after them.
  lemma {:induction false} ChunksPrefix(ms: seq<seq<seq<string>>>, rest: seq<seq<string>>)
    requires forall k :: 0 <= k < |ms| ==> |ms[k]| == 9
    ensures Chunks(Flatten(ms) + rest) == ms + Chunks(rest)
  {
    if ms != [] {
      ChunksPrefix(ms[1..], rest);
      ChunksFront(ms[0], Flatten(ms[1..]) + rest);
      AppendAssoc(ms[0], Flatten(ms[1..]), rest);
      assert ms == [ms[0]] + ms[1..];
    } else {
      assert Flatten(ms) + rest == rest;
    }
  }

  /// A group of exactly 9 rows in front comes out of `Chunks` as the first group.
  lemma ChunksFront(m: seq<seq<string>>, more: seq<seq<string>>)
    requires |m| == 9
    ensures Chunks(m + more) == [m] + Chunks(more)
  {
    assert (m + more)[..9] == m && (m + more)[9..] == more;
  }

  lemma {:induction false} RowsAppend(a: seq<string>, b: seq<string>)
    ensures Rows(a + b) == Rows(a) + Rows(b)
  {
    if b != [] {
      var last := b[|b| - 1];
      assert (a + b)[..|a + b| - 1] == a + b[..|b| - 1];
      RowsAppend(a, b[..|b| - 1]);
    } else {
      assert a + b == a;
    }
  }

  /// The header line is discarded whatever it holds.
  lemma HeaderIgnored(h1: string, h2: string, rest: seq<string>)
    ensures Groups([h1] + rest) == Groups([h2] + rest)
  {
    assert ([h1] + rest)[1..] == rest == ([h2] + rest)[1..];
  }

  /// A line that is blank after stripping can be inserted anywhere after the
  /// header without changing the puzzles.
  lemma BlankLineIgnored(input: seq<string>, i: int, blank: string)
    requires 1 <= i <= |input| && Strip(blank) == ""
    ensures Groups(input[..i] + [blank] + input[i..]) == Groups(input)
  {
    var a, b := input[1..i], input[i..];
    var longer := input[..i] + [blank] + input[i..];
    assert longer[1..] == (a + [blank]) + b;
    assert input[1..] == a + b;
    RowsSkipBlank(a, blank, b);
  }

  /// A blank line contributes no rows wherever it stands.
  lemma RowsSkipBlank(a: seq<string>, blank: string, b: seq<string>)
    requires Strip(blank) == ""
    ensures Rows((a + [blank]) + b) == Rows(a + b)
  {
    assert Rows([blank]) == [] by {
      assert [blank][..0] == [];
    }
    RowsAppend(a + [blank], b);
    RowsAppend(a, [blank]);
    RowsAppend(a, b);
    assert Rows(a) + [] == Rows(a);
  }

  /// Every group has 9 rows, and group k holds the non-blank lines
  /// 9k .. 9k + 8 after the header, in order; there are as many groups as
  /// complete runs of 9 such lines.
  lemma GroupsShape(input: seq<string>)
    requires input != []
    ensures |Groups(input)| == |Rows(input[1..])| / 9
    ensures forall k :: 0 <= k < |Groups(input)| ==>
      Groups(input)[k] == Rows(input[1..])[9 * k .. 9 * k + 9]
  {
    ChunksAt(Rows(input[1..]));
  }

  /// Where `parse_input` stands: the groups completed so far and the rows of
  /// the group in progress.
  datatype Reading = Reading(done: seq<seq<seq<string>>>, matrix: seq<seq<string>>)

  /// One pass of the loop of `parse_input`: a line blank after stripping is
  /// skipped; any other line is split into a row, and the ninth row
  /// completes a group.
  /// The finished groups are never changed and at most one is added; a
  /// blank line changes nothing; the shape of `WellFormed` is kept.
  function Feed(r: Reading, line: string): (next: Reading)
    ensures |r.done| <= |next.done| <= |r.done| + 1 && next.done[..|r.done|] == r.done
    ensures Strip(line) == "" ==> next == r
    ensures WellFormed(r) ==> WellFormed(next)
  {
    var text := Strip(line);
    if text == "" then r
    else if |r.matrix| + 1 == 9 then Reading(r.done + [r.matrix + [Split(text)]], [])
    else Reading(r.done, r.matrix + [Split(text)])
  }

  lemma AppendAssoc<T>(a: seq<T>, b: seq<T>, c: seq<T>)
    ensures (a + b) + c == a + (b + c)
  {
  }

  /// The state of `parse_input` after the header and lines 1 .. n - 1.
  function ReadLines(input: seq<string>, n: int): (r: Reading)
    requires 1 <= n <= |input|
    decreases n
    ensures WellFormed(r)
  {
    if n == 1 then Reading([], []) else Feed(ReadLines(input, n - 1), input[n - 1])
  }

  /// The completed groups have 9 rows each, the group in progress fewer.
  predicate WellFormed(r: Reading) {
    |r.matrix| < 9 && forall k :: 0 <= k < |r.done| ==> |r.done[k]| == 9
  }

  /// One pass adds the rows of the line.
  lemma FeedRows(r: Reading, line: string)
    ensures Flatten(Feed(r, line).done) + Feed(r, line).matrix == (Flatten(r.done) + r.matrix) + LineRows(line)
  {
    var text := Strip(line);
    if text == "" {
      assert (Flatten(r.done) + r.matrix) + [] == Flatten(r.done) + r.matrix;
    } else {
      var row := Split(text);
      if |r.matrix| + 1 == 9 {
        FlattenSnoc(r.done, r.matrix + [row]);
        AppendAssoc(Flatten(r.done), r.matrix, [row]);
        assert Flatten(r.done + [r.matrix + [row]]) + [] == Flatten(r.done + [r.matrix + [row]]);
      } else {
        AppendAssoc(Flatten(r.done), r.matrix, [row]);
      }
    }
  }

  /// Together the completed groups and the group in progress hold the rows of
  /// the lines read, in order.
  lemma {:induction false} ReadLinesRows(input: seq<string>, n: int)
    requires 1 <= n <= |input|
    decreases n
    ensures Rows(input[1..n]) == Flatten(ReadLines(input, n).done) + ReadLines(input, n).matrix
  {
    RowsReadAll(input, n);
  }

  /// The equation of `ReadLinesRows` after line n.
  predicate RowsRead(input: seq<string>, n: int)
    requires 1 <= n <= |input|
  {
    Rows(input[1..n]) == Flatten(ReadLines(input, n).done) + ReadLines(input, n).matrix
  }

  lemma {:induction false} RowsReadAll(input: seq<string>, n: int)
    requires 1 <= n <= |input|
    decreases n
    ensures RowsRead(input, n)
  {
    if n == 1 {
      ReadLinesRowsStart(input);
    } else {
      RowsReadAll(input, n - 1);
      ReadLinesRowsStep(input, n);
    }
  }

  lemma ReadLinesRowsStart(input: seq<string>)
    requires 1 <= |input|
    ensures Rows(input[1..1]) == Flatten(ReadLines(input, 1).done) + ReadLines(input, 1).matrix
  {
    assert input[1..1] == [];
  }

  lemma ReadLinesRowsStep(input: seq<string>, n: int)
    requires 1 < n <= |input|
    requires Rows(input[1..n - 1]) == Flatten(ReadLines(input, n - 1).done) + ReadLines(input, n - 1).matrix
    ensures Rows(input[1..n]) == Flatten(ReadLines(input, n).done) + ReadLines(input, n).matrix
  {
    RowsNext(input, n);
    FeedRows(ReadLines(input, n - 1), input[n - 1]);
  }

  /// The groups completed after any number of lines are the first groups of
  /// the whole input.
  lemma ReadLinesGroups(input: seq<string>, n: int)
    requires 1 <= n <= |input|
    ensures var done := ReadLines(input, n).done;
      |done| <= |Groups(input)| && done == Groups(input)[..|done|]
  {
    GroupsAfter(input, n);
    var r := ReadLines(input, n);
    var all := Groups(input);
    assert all[..|r.done|] == r.done;
  }

  /// The groups of the input are the groups completed after line n - 1,
  /// then the groups of the rows in progress and the rows still to read.
  lemma GroupsAfter(input: seq<string>, n: int)
    requires 1 <= n <= |input|
    ensures var r := ReadLines(input, n);
      Groups(input) == r.done + Chunks(r.matrix + Rows(input[n..]))
  {
    var r := ReadLines(input, n);
    var rest := Rows(input[n..]);
    ReadLinesRows(input, n);
    RowsSplit(input, n);
    calc {
      Groups(input);
      Chunks(Rows(input[1..]));
      Chunks(Rows(input[1..n]) + rest);
      Chunks((Flatten(r.done) + r.matrix) + rest);
      { AppendAssoc(Flatten(r.done), r.matrix, rest); }
      Chunks(Flatten(r.done) + (r.matrix + rest));
      { ChunksPrefix(r.done, r.matrix + rest); }
      r.done + Chunks(r.matrix + rest);
    }
  }

  /// The rows after the header are the rows of lines 1 .. n - 1, then the
  /// rows of the lines from n on.
  lemma RowsSplit(input: seq<string>, n: int)
    requires 1 <= n <= |input|
    ensures Rows(input[1..]) == Rows(input[1..n]) + Rows(input[n..])
  {
    assert input[1..] == input[1..n] + input[n..];
    RowsAppend(input[1..n], input[n..]);
  }

  /// Reading line n is one pass of `Feed`.
  lemma ReadLinesStep(input: seq<string>, n: int)
    requires 1 <= n < |input|
    ensures ReadLines(input, n + 1) == Feed(ReadLines(input, n), input[n])
  {
  }

  /// A ninth row completes the group in progress.
  lemma FeedCompletes(r: Reading, line: string)
    requires Strip(line) != "" && |r.matrix| + 1 == 9
    ensures Feed(r, line) == Reading(r.done + [r.matrix + [Split(Strip(line))]], [])
  {
  }

  /// A ninth row read at line n completes the next group of the input:
  /// the group it completes is the next of `Groups`.
  lemma GroupCompleted(input: seq<string>, n: int, done: seq<seq<seq<string>>>, m: seq<seq<string>>)
    requires 1 <= n < |input|
    requires ReadLines(input, n + 1) == Reading(done + [m], [])
    ensures |done| < |Groups(input)| && Groups(input)[|done|] == m
  {
    ReadLinesGroups(input, n + 1);
    PrefixLast(Groups(input), done, m);
  }

  /// A sequence that starts with `done + [m]` holds `m` just after `done`.
  lemma PrefixLast<T>(gs: seq<T>, done: seq<T>, m: T)
    requires |done| < |gs| && gs[..|done| + 1] == done + [m]
    ensures gs[|done|] == m
  {
    assert gs[|done|] == gs[..|done| + 1][|done|];
  }

  /// After the last line, the completed groups are exactly the groups of the
  /// input: the rows of an incomplete last group are dropped.
  lemma ReadLinesAll(input: seq<string>)
    requires input != []
    ensures ReadLines(input, |input|).done == Groups(input)
  {
    var r := ReadLines(input, |input|);
    ReadLinesRows(input, |input|);
    assert input[1..|input|] == input[1..];
    ChunksPrefix(r.done, r.matrix);
    calc {
      Groups(input);
      Chunks(Rows(input[1..]));
      Chunks(Flatten(r.done) + r.matrix);
      r.done + Chunks(r.matrix);
      { assert Chunks(r.matrix) == []; }
      r.done;
    }
  }

  /// Every token of a puzzle is a numeral.
  predicate Numerals(m: seq<seq<string>>) {
    forall i, j :: 0 <= i < |m| && 0 <= j < |m[i]| ==> IsNumeral(m[i][j])
  }

  /// Every token of every complete puzzle is a numeral.
  predicate Parsable(input: seq<string>) {
    forall k :: 0 <= k < |Groups(input)| ==> Numerals(Groups(input)[k])
  }

  /// `int()` applied to every token of a puzzle.
  function ToInts(m: seq<seq<string>>): (g: seq<seq<int>>)
    requires Numerals(m)
    ensures |g| == |m| && forall i :: 0 <= i < |m| ==> |g[i]| == |m[i]|
    ensures forall i, j :: 0 <= i < |m| && 0 <= j < |m[i]| ==> IsNumeral(m[i][j]) && g[i][j] == ParseNat(m[i][j])
  {
    seq(|m|, i requires 0 <= i < |m| =>
      seq(|m[i]|, j requires 0 <= j < |m[i]| => assert IsNumeral(m[i][j]); ParseNat(m[i][j])))
  }

  /// The tokens `__str__` writes for a grid.
  function Tokens(g: seq<seq<int>>): (m: seq<seq<string>>)
    ensures |m| == |g| && forall i :: 0 <= i < |g| ==> m[i] == Strs(g[i])
  {
    seq(|g|, i requires 0 <= i < |g| => Strs(g[i]))
  }

  /// A rendered row, read back as one input line, gives the row's tokens.
  lemma {:induction false} LineRowsRender(row: seq<int>)
    requires |row| > 0
    ensures LineRows(RenderRow(row)) == [Strs(row)]
  {
    var ts := Strs(row);
    JoinEnds(ts);
    StripLine(Join(ts));
    SplitJoin(ts);
  }

  /// Lines that each contribute one given row contribute those rows, in order.
  lemma {:induction false} RowsEach(ls: seq<string>, ts: seq<seq<string>>)
    requires |ls| == |ts|
    requires forall i :: 0 <= i < |ls| ==> LineRows(ls[i]) == [ts[i]]
    ensures Rows(ls) == ts
  {
    if ls != [] {
      var n := |ls|;
      RowsEach(ls[..n - 1], ts[..n - 1]);
      RowsEachStep(ls, ts);
    }
  }

  lemma RowsEachStep(ls: seq<string>, ts: seq<seq<string>>)
    requires |ls| == |ts| > 0
    requires LineRows(ls[|ls| - 1]) == [ts[|ts| - 1]]
    requires Rows(ls[..|ls| - 1]) == ts[..|ts| - 1]
    ensures Rows(ls) == ts
  {
    var n := |ts|;
    assert ts == ts[..n - 1] + [ts[n - 1]];
  }

  /// Every token `__str__` writes for a non-negative value is a numeral that
  /// `int()` reads back as that value.
  lemma {:induction false} TokensReadBack(g: seq<seq<int>>)
    requires forall i, j :: 0 <= i < |g| && 0 <= j < |g[i]| ==> g[i][j] >= 0
    ensures Numerals(Tokens(g))
    ensures ToInts(Tokens(g)) == g
  {
    var m := Tokens(g);
    forall i, j | 0 <= i < |g| && 0 <= j < |g[i]|
      ensures IsNumeral(m[i][j]) && ParseNat(m[i][j]) == g[i][j]
    {
      assert m[i][j] == Str(g[i][j]) == NatStr(g[i][j]);
      ParseNatStr(g[i][j]);
    }
    var h := ToInts(m);
    assert |h| == |g|;
    forall i | 0 <= i < |g|
      ensures h[i] == g[i]
    {
      assert |h[i]| == |g[i]|;
    }
  }

  /// The lines `__str__` renders for a 9-row grid, after a header line,
  /// group into exactly one puzzle: the grid's tokens.
  lemma RenderGroups(header: string, g: seq<seq<int>>)
    requires |g| == 9
    requires forall i :: 0 <= i < 9 ==> |g[i]| > 0
    ensures Groups([header] + RenderLines(g)) == [Tokens(g)]
  {
    var input := [header] + RenderLines(g);
    var ts := Tokens(g);
    assert Rows(input[1..]) == ts by {
      assert input[1..] == RenderLines(g);
      forall i | 0 <= i < 9
        ensures LineRows(RenderLines(g)[i]) == [ts[i]]
      {
        LineRowsRender(g[i]);
      }
      RowsEach(RenderLines(g), ts);
    }
    ChunksOne(ts);
  }

  /// Nine rows make one group.
  lemma ChunksOne(rows: seq<seq<string>>)
    requires |rows| == 9
    ensures Chunks(rows) == [rows]
  {
    assert rows[..9] == rows;
  }

  /// Rendering a 9-row grid of non-negative values with `__str__` and
  /// feeding the lines, after any header line, to `parse_input` gives back
  /// exactly that one puzzle.
  lemma {:induction false} RenderParseRoundTrip(header: string, g: seq<seq<int>>)
    requires |g| == 9
    requires forall i :: 0 <= i < 9 ==> |g[i]| > 0
    requires forall i, j :: 0 <= i < 9 && 0 <= j < |g[i]| ==> g[i][j] >= 0
    ensures Groups([header] + RenderLines(g)) == [Tokens(g)]
    ensures Parsable([header] + RenderLines(g))
    ensures ToInts(Tokens(g)) == g
  {
    RenderGroups(header, g);
    TokensReadBack(g);
  }
}
