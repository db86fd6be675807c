/** What text and control characters do on the console, cell by cell. */
module ConsoleText {
  import opened Machine
  import opened Numerals
  import opened Console

  predicate Printable(s: seq<schar>) {
    forall i :: 0 <= i < |s| ==> s[i] >= 0x20
  }

  lemma {:induction false} PutAppended(t: Terminal, s: seq<schar>, u: seq<schar>)
    ensures PutAll(t, s + u) == PutAll(PutAll(t, s), u)
    decreases |u|
  {
    if u == [] {
      assert s + u == s;
    } else {
      var n := |u| - 1;
      assert s + u == s + u[..n] + [u[n]];
      PutLast(t, s + u[..n], u[n]);
      PutAppended(t, s, u[..n]);
    }
  }

  // ---------------------------------------------------------------- text

  /** Printed characters follow each other to the right and go on in column 0 of the next row; other cells stay. */
  lemma {:induction false} PrintRun(t: Terminal, s: seq<schar>)
    requires 0 <= t.x < 80 && Printable(s)
    ensures var u := PutAll(t, s);
      && u.x == (t.x + |s|) % 80 && u.y == t.y + (t.x + |s|) / 80
      && forall row, column :: 0 <= column < 80 ==>
           CellOf(u, row, column) ==
           var k := 80 * (row - t.y) + column - t.x;
           if 0 <= k < |s| then 0x0F00 + s[k] as int else CellOf(t, row, column)
    decreases |s|
  {
    if s != [] {
      var n := |s| - 1;
      PrintRun(t, s[..n]);
      PrintOne(PutAll(t, s[..n]), s[n]);
      NextPlace(t.x + n);
    }
  }

  lemma PrintOne(t: Terminal, c: schar)
    requires 0 <= t.x < 80 && c >= 0x20
    ensures var u := Put(t, c);
      && (if t.x == 79 then u.x == 0 && u.y == t.y + 1 else u.x == t.x + 1 && u.y == t.y)
      && forall row, column :: 0 <= column < 80 ==>
           CellOf(u, row, column) == if row == t.y && column == t.x then 0x0F00 + c as int else CellOf(t, row, column)
  {
  }

  lemma NextPlace(k: int)
    ensures if k % 80 == 79 then (k + 1) % 80 == 0 && (k + 1) / 80 == k / 80 + 1
            else (k + 1) % 80 == k % 80 + 1 && (k + 1) / 80 == k / 80
  {
  }

  /** Lines with a newline between them. */
  function Joined(lines: seq<seq<schar>>): seq<schar>
    requires |lines| >= 1
  {
    var n := |lines| - 1;
    if n == 0 then lines[0] else Joined(lines[..n]) + [0x0A] + lines[n]
  }

  predicate LinesFit(lines: seq<seq<schar>>) {
    |lines| >= 1 && forall i :: 0 <= i < |lines| ==> |lines[i]| <= 79 && Printable(lines[i])
  }

  /** Row i holds line i from column 0 on and is blank behind it; all further rows are blank. */
  ghost predicate RowsHold(t: Terminal, lines: seq<seq<schar>>) {
    forall row, column :: 0 <= row && 0 <= column < 80 ==>
      CellOf(t, row, column) ==
      if row < |lines| && column < |lines[row]| then 0x0F00 + lines[row][column] as int else 0x0F20
  }

  /** Lines written after monitor_clear stand in the rows, one each, and the cursor is behind the last one. */
  lemma {:induction false} LinesInRows(lines: seq<seq<schar>>)
    requires LinesFit(lines)
    ensures var u := PutAll(EMPTY, Joined(lines)); var n := |lines| - 1;
      u.x == |lines[n]| && u.y == n && RowsHold(u, lines)
    decreases |lines|
  {
    hide RowsHold, PutAll;
    var n := |lines| - 1;
    NothingPut(EMPTY);
    EmptyRows();
    if n == 0 {
      LineAdded(EMPTY, EMPTY, lines);
    } else {
      var front := Joined(lines[..n]);
      var t, v := PutAll(EMPTY, front), PutAll(EMPTY, front + [0x0A]);
      LinesInRows(lines[..n]);
      PutLast(EMPTY, front, 0x0A);
      Newline(t);
      LineAdded(t, v, lines);
      PutAppended(EMPTY, front + [0x0A], lines[n]);
    }
  }

  lemma NothingPut(t: Terminal)
    ensures PutAll(t, []) == t
  {
  }

  lemma EmptyRows()
    ensures RowsHold(EMPTY, [])
  {
  }

  /** One more line, written from column 0 of the next row on. */
  lemma LineAdded(t: Terminal, v: Terminal, lines: seq<seq<schar>>)
    requires LinesFit(lines) && v.cells == t.cells && v.x == 0 && v.y == |lines| - 1
    requires RowsHold(t, lines[..|lines| - 1])
    ensures var u := PutAll(v, lines[|lines| - 1]); u.x == |lines[|lines| - 1]| && u.y == v.y && RowsHold(u, lines)
  {
    hide PutAll;
    var n := |lines| - 1;
    PrintRun(v, lines[n]);
    var u := PutAll(v, lines[n]);
    forall row, column | 0 <= row && 0 <= column < 80
      ensures CellOf(u, row, column) ==
        if row <= n && column < |lines[row]| then 0x0F00 + lines[row][column] as int else 0x0F20
    {
      assert CellOf(v, row, column) == CellOf(t, row, column);
      if row < n {
        assert lines[..n][row] == lines[row];
      }
    }
  }

  lemma Newline(t: Terminal)
    requires 0 <= t.x < 80
    ensures var u := Put(t, 0x0A); u.x == 0 && u.y == t.y + 1 && u.cells == t.cells
  {
  }

  // ---------------------------------------------------------------- control characters

  lemma PutSingle(t: Terminal, c: schar)
    ensures PutAll(t, [c]) == Put(t, c)
  {
    assert [c][..0] == [];
    assert PutAll(t, []) == t;
  }

  /** A newline goes to column 0 of the next row, a carriage return to column 0 of the same row. */
  lemma NewlineAndReturn(t: Terminal)
    requires 0 <= t.x < 80
    ensures var u := PutAll(t, [0x0A]); u.x == 0 && u.y == t.y + 1 && u.cells == t.cells
    ensures var u := PutAll(t, [0x0D]); u.x == 0 && u.y == t.y && u.cells == t.cells
  {
    PutSingle(t, 0x0A);
    PutSingle(t, 0x0D);
  }

  /** A tab goes to the least multiple of 8 to the right, or to column 0 of the next row if that is 80. */
  lemma TabStops(t: Terminal, stop: int)
    requires 0 <= t.x < 80 && stop % 8 == 0 && t.x < stop <= t.x + 8
    ensures var u := PutAll(t, [0x09]);
      u.x == (if stop == 80 then 0 else stop) && u.y == (if stop == 80 then t.y + 1 else t.y) && u.cells == t.cells
  {
    PutSingle(t, 0x09);
    assert (t.x + 8) / 8 * 8 == stop;
  }

  /** A backspace goes one column to the left, if there is one, and erases nothing; the next character overwrites. */
  lemma Backspaces(t: Terminal, c: schar, d: schar)
    requires 0 <= t.x < 80 && c >= 0x20 && d >= 0x20
    ensures var u := PutAll(t, [0x08]); u.x == (if t.x == 0 then 0 else t.x - 1) && u.y == t.y && u.cells == t.cells
    ensures t.x < 79 ==>
      forall row, column :: 0 <= column < 80 ==>
        CellOf(PutAll(t, [c, 0x08, d]), row, column) == CellOf(PutAll(t, [d]), row, column)
  {
    PutSingle(t, 0x08);
    PutSingle(t, d);
    PutSingle(t, c);
    PutLast(t, [c], 0x08);
    PutLast(t, [c, 0x08], d);
    assert [c] + [0x08] == [c, 0x08] && [c, 0x08] + [d] == [c, 0x08, d];
  }

  /** No other character below the space does anything, nor one that is negative as a signed character. */
  lemma OthersIgnored(t: Terminal, c: schar)
    requires 0 <= t.x < 80 && c < 0x20 && c !in {0x08, 0x09, 0x0A, 0x0D}
    ensures PutAll(t, [c]) == t
  {
    PutSingle(t, c);
  }

  // ---------------------------------------------------------------- on the screen

  /** The screen has the last 25 rows up to the cursor's, row by row. */
  lemma ScreenCells(m: Monitor)
    requires m.Valid()
    ensures var t := m.terminal; var top := if t.y < 25 then 0 else t.y - 24;
      && m.cursorX == t.x && m.cursorY == t.y - top && 0 <= t.x < 80 && 0 <= m.cursorY < 25
        && m.videoMemory.Length == 2000
      && forall i :: 0 <= i < 2000 ==> m.videoMemory[i] == CellOf(t, top + i / 80, i % 80)
  {
    assert m.videoMemory[..] == m.videoMemory[..m.videoMemory.Length];
  }

  /** After monitor_clear and lines of at most 79 characters, the last 25 of these stand on the screen. */
  lemma LinesOnScreen(m: Monitor, lines: seq<seq<schar>>)
    requires m.Valid() && LinesFit(lines) && m.terminal == PutAll(EMPTY, Joined(lines))
    ensures var n := |lines| - 1; var top := if n < 25 then 0 else n - 24;
      && m.cursorX == |lines[n]| && m.cursorY == n - top && m.videoMemory.Length == 2000
      && forall i :: 0 <= i < 2000 ==>
           m.videoMemory[i] ==
           var line, column := top + i / 80, i % 80;
           if line <= n && column < |lines[line]| then 0x0F00 + lines[line][column] as int else 0x0F20
  {
    hide PutAll;
    LinesInRows(lines);
    ScreenCells(m);
  }

}
