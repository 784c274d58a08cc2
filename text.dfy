/** The text form of a board: one line per row, "[a b c d]", the values in
    decimal with a leading '-' when negative, the lines separated by a newline
    and the whole followed by one more newline. The reader below takes that
    text back to the sixteen values. */
module Text {
  import opened Grid

  datatype Option<T> = None | Some(value: T)

  predicate IsDigit(c: char)
  {
    '0' <= c <= '9'
  }

  predicate AllDigits(s: string)
  {
    forall k :: 0 <= k < |s| ==> IsDigit(s[k])
  }

  function Digit(d: nat): (c: char)
    requires d < 10
    ensures IsDigit(c)
  {
    ('0' as int + d) as char
  }

  function DigitValue(c: char): (d: nat)
    requires IsDigit(c)
    ensures d < 10 && Digit(d) == c
  {
    c as int - '0' as int
  }

  /** The decimal digits of n, most significant first, without leading zeros. */
  function NatText(n: nat): (s: string)
    ensures |s| >= 1 && AllDigits(s)
    ensures |s| > 1 ==> s[0] != '0'
  {
    if n < 10 then [Digit(n)] else NatText(n / 10) + [Digit(n % 10)]
  }

  /** A value as Rust's `to_string` writes an integer. */
  function IntText(v: int): (s: string)
    ensures |s| >= 1 && (s[0] == '-' || IsDigit(s[0]))
  {
    if v < 0 then "-" + NatText(-v) else NatText(v)
  }

  /** The number a string of digits spells. */
  function DigitsValue(s: string): nat
    requires AllDigits(s)
  {
    if s == [] then 0 else DigitsValue(s[..|s| - 1]) * 10 + DigitValue(s[|s| - 1])
  }

  lemma {:induction false} NatTextValue(n: nat)
    ensures DigitsValue(NatText(n)) == n
  {
    if n >= 10 {
      var s := NatText(n);
      assert s[..|s| - 1] == NatText(n / 10);
      NatTextValue(n / 10);
    }
  }

  /** How many digits s starts with. */
  function DigitRun(s: string): (k: nat)
    ensures k <= |s| && AllDigits(s[..k])
    ensures k < |s| ==> !IsDigit(s[k])
  {
    if s == [] || !IsDigit(s[0]) then 0 else 1 + DigitRun(s[1..])
  }

  /** A run of digits stops where the digits stop. */
  lemma {:induction false} DigitRunOf(d: string, rest: string)
    requires AllDigits(d) && (rest == [] || !IsDigit(rest[0]))
    ensures DigitRun(d + rest) == |d|
    decreases |d|
  {
    if d != [] {
      assert (d + rest)[1..] == d[1..] + rest;
      DigitRunOf(d[1..], rest);
    }
  }

  /** Reads an optional minus sign and at least one digit off the front of s,
      and returns the number and what follows it. */
  function ReadInt(s: string): Option<(int, string)>
  {
    var negative := |s| > 0 && s[0] == '-';
    var body := if negative then s[1..] else s;
    var k := DigitRun(body);
    if k == 0 then None
    else
      var n: int := DigitsValue(body[..k]);
      Some((if negative then -n else n, body[k..]))
  }

  /** Reading the text of a value gives the value back. */
  lemma ReadIntText(v: int, rest: string)
    requires rest == [] || !IsDigit(rest[0])
    ensures ReadInt(IntText(v) + rest) == Some((v, rest))
  {
    var m: nat := if v < 0 then -v else v;
    var digits := NatText(m);
    var body := digits + rest;
    DigitRunOf(digits, rest);
    NatTextValue(m);
    assert body[..|digits|] == digits;
    assert body[|digits|..] == rest;
    assert IsDigit(body[0]);
    if v < 0 {
      var s := IntText(v) + rest;
      assert s == "-" + body;
      assert s[0] == '-' && s[1..] == body;
    } else {
      assert IntText(v) + rest == body;
    }
  }

  /** The cells of a row from column j on, as the row's loop writes them: each
      value, then a space unless it is in the last column. */
  function CellsFrom(row: seq<int>, j: nat): string
    requires j <= |row|
    decreases |row| - j
  {
    if j == |row| then ""
    else IntText(row[j]) + ((if j < |row| - 1 then " " else "") + CellsFrom(row, j + 1))
  }

  /** A row in brackets. */
  function RowText(row: seq<int>): string
  {
    "[" + CellsFrom(row, 0) + "]"
  }

  /** The rows from row i on, each followed by a newline unless it is the last. */
  function RowsFrom(rows: seq<seq<int>>, i: nat): string
    requires i <= |rows|
    decreases |rows| - i
  {
    if i == |rows| then ""
    else RowText(rows[i]) + ((if i < |rows| - 1 then "\n" else "") + RowsFrom(rows, i + 1))
  }

  /** The board cut into its rows, top to bottom. */
  function RowsOf(g: seq<int>): (rows: seq<seq<int>>)
    requires |g| == LENGTH
    ensures |rows| == ROWS && forall i :: 0 <= i < ROWS ==> |rows[i]| == COLUMNS
  {
    seq(ROWS, i requires 0 <= i < ROWS => seq(COLUMNS, j requires 0 <= j < COLUMNS => g[Index(i, j)]))
  }

  /** The text of the whole board, with the final newline `writeln` adds. */
  function Render(g: seq<int>): (text: string)
    requires |g| == LENGTH
    ensures |text| > 2 && text[0] == '[' && text[|text| - 1] == '\n'
  {
    RowsFrom(RowsOf(g), 0) + "\n"
  }

  /** The rows laid end to end. */
  function Flatten(rows: seq<seq<int>>): seq<int>
  {
    if rows == [] then [] else rows[0] + Flatten(rows[1..])
  }

  /** Laying a board's rows end to end gives the board. */
  lemma FlattenRows(g: seq<int>)
    requires |g| == LENGTH
    ensures Flatten(RowsOf(g)) == g
  {
    var rows := RowsOf(g);
    assert rows[0] == g[0..4] && rows[1] == g[4..8] && rows[2] == g[8..12] && rows[3] == g[12..16];
    assert Flatten(rows[4..]) == [];
    assert Flatten(rows[3..]) == rows[3] + Flatten(rows[4..]);
    assert Flatten(rows[2..]) == rows[2] + Flatten(rows[3..]);
    assert Flatten(rows[1..]) == rows[1] + Flatten(rows[2..]);
    assert Flatten(rows[0..]) == rows[0] + Flatten(rows[1..]);
    assert rows[0..] == rows;
    assert g == g[0..4] + (g[4..8] + (g[8..12] + (g[12..16] + [])));
  }

  /** Reads n values separated by single spaces. */
  function ReadCells(s: string, n: nat): Option<(seq<int>, string)>
    requires n >= 1
    decreases n
  {
    var first := ReadInt(s);
    if first.None? then None
    else
      var v, rest := first.value.0, first.value.1;
      if n == 1 then Some(([v], rest))
      else if |rest| == 0 || rest[0] != ' ' then None
      else
        var others := ReadCells(rest[1..], n - 1);
        if others.None? then None else Some(([v] + others.value.0, others.value.1))
  }

  /** The step of ReadCells after a value and a space. */
  lemma ReadCellsStep(s: string, n: nat, v: int, rest: string)
    requires n >= 2 && ReadInt(s) == Some((v, rest)) && |rest| > 0 && rest[0] == ' '
    ensures ReadCells(s, n) ==
      var others := ReadCells(rest[1..], n - 1);
      if others.None? then None else Some(([v] + others.value.0, others.value.1))
  {
  }

  /** Reads n bracketed rows of COLUMNS values, separated by newlines. */
  function ReadRows(s: string, n: nat): Option<(seq<int>, string)>
    requires n >= 1
    decreases n
  {
    if |s| == 0 || s[0] != '[' then None
    else
      var first := ReadCells(s[1..], COLUMNS);
      if first.None? then None
      else
        var cells, rest := first.value.0, first.value.1;
        if |rest| == 0 || rest[0] != ']' then None
        else if n == 1 then Some((cells, rest[1..]))
        else if |rest| < 2 || rest[1] != '\n' then None
        else
          var others := ReadRows(rest[2..], n - 1);
          if others.None? then None else Some((cells + others.value.0, others.value.1))
  }

  /** The step of ReadRows after a row and its closing bracket. */
  lemma ReadRowsStep(s: string, n: nat, cells: seq<int>, rest: string)
    requires n >= 1 && |s| > 0 && s[0] == '['
    requires ReadCells(s[1..], COLUMNS) == Some((cells, rest)) && |rest| > 0 && rest[0] == ']'
    ensures ReadRows(s, n) ==
      if n == 1 then Some((cells, rest[1..]))
      else if |rest| < 2 || rest[1] != '\n' then None
      else
        var others := ReadRows(rest[2..], n - 1);
        if others.None? then None else Some((cells + others.value.0, others.value.1))
  {
  }

  /** The values of a board's text, or None when the text is not one. */
  function Parse(s: string): Option<seq<int>>
  {
    var read := ReadRows(s, ROWS);
    if read.Some? && read.value.1 == "\n" then Some(read.value.0) else None
  }

  /** Reading the cells of a row from column j on gives them back. */
  lemma {:induction false} ReadCellsFrom(row: seq<int>, j: nat, rest: string)
    requires j < |row| && |rest| > 0 && rest[0] == ']'
    ensures ReadCells(CellsFrom(row, j) + rest, |row| - j) == Some((row[j..], rest))
    decreases |row| - j, 1
  {
    if j < |row| - 1 {
      ReadCellsAt(row, j, rest);
    } else {
      ReadLastCellAt(row, j, rest);
    }
  }

  /** The step of ReadCellsFrom at a column before the last. */
  lemma {:induction false} ReadCellsAt(row: seq<int>, j: nat, rest: string)
    requires j < |row| - 1 && |rest| > 0 && rest[0] == ']'
    ensures ReadCells(CellsFrom(row, j) + rest, |row| - j) == Some((row[j..], rest))
    decreases |row| - j, 0
  {
    assert |row| - j - 1 == |row| - (j + 1);
    ReadCellsFrom(row, j + 1, rest);
    CellsFromText(row, j, rest);
    ReadNextCell(row[j], CellsFrom(row, j + 1) + rest, |row| - j, row[j + 1..], rest);
    Prepend(row, j);
  }

  /** ReadCellsFrom at the last column. */
  lemma ReadLastCellAt(row: seq<int>, j: nat, rest: string)
    requires j == |row| - 1 && |rest| > 0 && rest[0] == ']'
    ensures ReadCells(CellsFrom(row, j) + rest, |row| - j) == Some((row[j..], rest))
  {
    assert |row| - j == 1;
    calc {
      ReadCells(CellsFrom(row, j) + rest, |row| - j);
      == { CellsFromText(row, j, rest); }
      ReadCells(IntText(row[j]) + rest, 1);
      == { ReadLastCell(row[j], rest); }
      Some(([row[j]], rest));
      == { assert row[j..] == [row[j]]; }
      Some((row[j..], rest));
    }
  }

  /** The cells from column j on: the value, then a space and the later cells
      unless column j is the last. */
  lemma CellsFromText(row: seq<int>, j: nat, rest: string)
    requires j < |row|
    ensures CellsFrom(row, j) + rest ==
            if j < |row| - 1 then IntText(row[j]) + (" " + (CellsFrom(row, j + 1) + rest))
            else IntText(row[j]) + rest
  {
    if j < |row| - 1 {
      Associate(IntText(row[j]), " " + CellsFrom(row, j + 1), rest);
      Associate(" ", CellsFrom(row, j + 1), rest);
    } else {
      assert CellsFrom(row, j + 1) == "";
    }
  }

  /** Reading a value, a space and n - 1 more values. */
  lemma ReadNextCell(v: int, tail: string, n: nat, cells: seq<int>, rest: string)
    requires n >= 2 && ReadCells(tail, n - 1) == Some((cells, rest))
    ensures ReadCells(IntText(v) + (" " + tail), n) == Some(([v] + cells, rest))
  {
    var r := " " + tail;
    ReadIntText(v, r);
    assert r[1..] == tail;
    ReadCellsStep(IntText(v) + r, n, v, r);
  }

  /** Reading the last value of a row. */
  lemma ReadLastCell(v: int, rest: string)
    requires |rest| > 0 && rest[0] == ']'
    ensures ReadCells(IntText(v) + rest, 1) == Some(([v], rest))
  {
    ReadIntText(v, rest);
  }

  /** Reading the rows from row i on gives back their cells. */
  lemma {:induction false} ReadRowsFrom(rows: seq<seq<int>>, i: nat, n: nat)
    requires i < |rows| && n == |rows| - i
    requires forall k :: 0 <= k < |rows| ==> |rows[k]| == COLUMNS
    ensures ReadRows(RowsFrom(rows, i) + "\n", n) == Some((Flatten(rows[i..]), "\n"))
    decreases n
  {
    var later := RowsFrom(rows, i + 1);
    var after := ((if i < |rows| - 1 then "\n" else "") + later) + "\n";
    RowsFromText(rows, i);
    ReadRowText(rows[i], after, n);
    FlattenFrom(rows, i);
    if n == 1 {
      assert after == "\n";
      assert Flatten(rows[i + 1..]) == [];
      assert rows[i] + [] == rows[i];
    } else {
      Associate("\n", later, "\n");
      assert after[1..] == later + "\n";
      ReadRowsFrom(rows, i + 1, n - 1);
    }
  }

  /** The text from row i on is the row in brackets followed by the rest. */
  lemma RowsFromText(rows: seq<seq<int>>, i: nat)
    requires i < |rows|
    ensures RowsFrom(rows, i) + "\n" ==
            "[" + (CellsFrom(rows[i], 0) + ("]" + (((if i < |rows| - 1 then "\n" else "") + RowsFrom(rows, i + 1)) + "\n")))
  {
    var sep := if i < |rows| - 1 then "\n" else "";
    Associate(("[" + CellsFrom(rows[i], 0)) + "]", sep + RowsFrom(rows, i + 1), "\n");
    Associate3("[", CellsFrom(rows[i], 0), "]", (sep + RowsFrom(rows, i + 1)) + "\n");
  }

  /** Reading a row in brackets followed by a newline. */
  lemma ReadRowText(row: seq<int>, after: string, n: nat)
    requires |row| == COLUMNS && |after| > 0 && after[0] == '\n' && n >= 1
    ensures ReadRows("[" + (CellsFrom(row, 0) + ("]" + after)), n) ==
      if n == 1 then Some((row, after))
      else
        var others := ReadRows(after[1..], n - 1);
        if others.None? then None else Some((row + others.value.0, others.value.1))
  {
    var s := "[" + (CellsFrom(row, 0) + ("]" + after));
    assert s[1..] == CellsFrom(row, 0) + ("]" + after);
    ReadCellsFrom(row, 0, "]" + after);
    Whole(row);
    ReadRowsStep(s, n, row, "]" + after);
    assert ("]" + after)[1..] == after;
    assert ("]" + after)[2..] == after[1..];
  }

  /** Writing the next cell of a row moves it from the text still to come to
      the text written. */
  lemma WriteCell(written: string, row: seq<int>, j: nat)
    requires j < |row|
    ensures written + CellsFrom(row, j) ==
            ((written + IntText(row[j])) + (if j < |row| - 1 then " " else "")) + CellsFrom(row, j + 1)
  {
    var gap := if j < |row| - 1 then " " else "";
    Associate(written, IntText(row[j]), gap + CellsFrom(row, j + 1));
    Associate(written + IntText(row[j]), gap, CellsFrom(row, j + 1));
  }

  /** Writing row i, bracket by bracket, moves it from the text still to come
      to the text written. */
  lemma WriteRow(written: string, rows: seq<seq<int>>, i: nat)
    requires i < |rows|
    ensures written + RowsFrom(rows, i) ==
            ((((written + "[") + CellsFrom(rows[i], 0)) + "]") + (if i < |rows| - 1 then "\n" else "")) + RowsFrom(rows, i + 1)
  {
    var sep := if i < |rows| - 1 then "\n" else "";
    var cells := CellsFrom(rows[i], 0);
    Associate3(written + "[", cells, "]", sep + RowsFrom(rows, i + 1));
    Associate("[", cells, "]");
    Associate(written, "[", cells + ("]" + (sep + RowsFrom(rows, i + 1))));
    Associate("[", cells, "]" + (sep + RowsFrom(rows, i + 1)));
    Associate3(written, "[", cells, "]");
    Associate((((written + "[") + cells) + "]"), sep, RowsFrom(rows, i + 1));
  }

  lemma Associate<T>(a: seq<T>, b: seq<T>, c: seq<T>)
    ensures (a + b) + c == a + (b + c)
  {
  }

  lemma Associate3<T>(a: seq<T>, b: seq<T>, c: seq<T>, d: seq<T>)
    ensures ((a + b) + c) + d == a + (b + (c + d))
  {
  }

  lemma AppendEmpty<T>(s: seq<T>)
    ensures s + [] == s && [] + s == s
  {
  }

  lemma Prepend<T>(s: seq<T>, i: nat)
    requires i < |s|
    ensures [s[i]] + s[i + 1..] == s[i..]
  {
  }

  lemma Whole<T>(s: seq<T>)
    ensures s[0..] == s
  {
  }

  lemma DropOne<T>(s: seq<T>, i: nat)
    requires i < |s|
    ensures s[i..][1..] == s[i + 1..]
  {
  }

  /** Flattening the rows from i on starts with row i. */
  lemma FlattenFrom(rows: seq<seq<int>>, i: nat)
    requires i < |rows|
    ensures Flatten(rows[i..]) == rows[i] + Flatten(rows[i + 1..])
  {
    DropOne(rows, i);
  }

  /** Reading the text of ROWS rows gives back their cells. */
  lemma ParseRows(rows: seq<seq<int>>)
    requires |rows| == ROWS && forall k :: 0 <= k < |rows| ==> |rows[k]| == COLUMNS
    ensures Parse(RowsFrom(rows, 0) + "\n") == Some(Flatten(rows))
  {
    ReadRowsFrom(rows, 0, ROWS);
    Whole(rows);
  }

  /** Reading the text of a board gives the board back. */
  lemma RenderRoundTrip(g: seq<int>)
    requires |g| == LENGTH
    ensures Parse(Render(g)) == Some(g)
  {
    ParseRows(RowsOf(g));
    FlattenRows(g);
  }

  /** Different boards have different texts. */
  lemma RenderInjective(g: seq<int>, h: seq<int>)
    requires |g| == LENGTH && |h| == LENGTH && Render(g) == Render(h)
    ensures g == h
  {
    RenderRoundTrip(g);
    RenderRoundTrip(h);
  }
}
