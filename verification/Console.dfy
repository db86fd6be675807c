/** The scrolling text console of monitor.c, proved against a terminal that never scrolls. */
module Console {
  import opened Machine
  import opened Numerals

  const COLUMNS: int := 80
  const ROWS: int := 25
  const BLANK: u16 := 0x0F20       // a white space on black

  // ---------------------------------------------------------------- the terminal

  /** cells has what was written, by row and column; there is no last row. */
  datatype Terminal = Terminal(cells: map<(int, int), u16>, x: int, y: int)

  const EMPTY: Terminal := Terminal(map[], 0, 0)

  function CellOf(t: Terminal, row: int, column: int): u16 {
    if (row, column) in t.cells then t.cells[(row, column)] else BLANK
  }

  /** The cursor goes to the next row when it has passed the last column. */
  function Wrapped(t: Terminal): Terminal {
    if t.x >= COLUMNS then t.(x := 0, y := t.y + 1) else t
  }

  function Put(t: Terminal, c: schar): Terminal {
    Wrapped(
      if c == 0x08 && t.x != 0 then t.(x := t.x - 1)
      else if c == 0x09 then t.(x := (t.x + 8) / 8 * 8)
      else if c == 0x0D then t.(x := 0)
      else if c == 0x0A then t.(x := 0, y := t.y + 1)
      else if c >= 0x20 then t.(cells := t.cells[(t.y, t.x) := 0x0F00 + c as int], x := t.x + 1)
      else t)
  }

  function PutAll(t: Terminal, s: seq<schar>): Terminal {
    if s == [] then t else Put(PutAll(t, s[..|s| - 1]), s[|s| - 1])
  }

  lemma PutLast(t: Terminal, s: seq<schar>, c: schar)
    ensures PutAll(t, s + [c]) == Put(PutAll(t, s), c)
  {
    assert (s + [c])[..|s|] == s;
  }

  // ---------------------------------------------------------------- the window

  /** The terminal row at the top of the screen. */
  function Top(t: Terminal): int {
    if t.y < ROWS then 0 else t.y - (ROWS - 1)
  }

  /** The cursor is on the terminal's grid and nothing is written below its row. */
  ghost predicate Bounded(t: Terminal) {
    0 <= t.x < COLUMNS && 0 <= t.y && forall p :: p in t.cells ==> p.0 <= t.y
  }

  /** The screen is the window of 25 rows from the top row on, with the cursor at the same place. */
  ghost predicate Shows(video: seq<u16>, x: int, y: int, t: Terminal) {
    && |video| == COLUMNS * ROWS && Bounded(t)
    && x == t.x && y == t.y - Top(t)
    && forall i :: 0 <= i < COLUMNS * ROWS ==> video[i] == CellOf(t, Top(t) + i / COLUMNS, i % COLUMNS)
  }

  lemma PutBounded(t: Terminal, c: schar)
    requires Bounded(t)
    ensures Bounded(Put(t, c)) && t.y <= Put(t, c).y <= t.y + 1
    ensures forall p :: p in Put(t, c).cells ==> p.0 <= t.y
  {
  }

  /** Before the scrolling, the window still starts at the old top row, and the cursor may be one row below it. */
  ghost predicate Unscrolled(video: seq<u16>, x: int, y: int, t: Terminal, top: int) {
    && |video| == COLUMNS * ROWS && Bounded(t)
    && x == t.x && y == t.y - top && 0 <= y <= ROWS && top >= 0 && (y < ROWS ==> top == Top(t))
    && (y == ROWS ==> forall p :: p in t.cells ==> p.0 < t.y)
    && forall i :: 0 <= i < COLUMNS * ROWS ==> video[i] == CellOf(t, top + i / COLUMNS, i % COLUMNS)
  }

  /** Writing a character at the cursor changes one cell of the window. */
  lemma CellWritten(video: seq<u16>, t: Terminal, c: schar)
    requires Shows(video, t.x, t.y - Top(t), t) && c >= 0x20
    ensures var at := (t.y - Top(t)) * COLUMNS + t.x;
      && 0 <= at < COLUMNS * ROWS
      && forall i :: 0 <= i < COLUMNS * ROWS ==>
           video[at := 0x0F00 + c as int][i] == CellOf(Put(t, c), Top(t) + i / COLUMNS, i % COLUMNS)
  {
    var at := (t.y - Top(t)) * COLUMNS + t.x;
    forall i | 0 <= i < COLUMNS * ROWS
      ensures video[at := 0x0F00 + c as int][i] == CellOf(Put(t, c), Top(t) + i / COLUMNS, i % COLUMNS)
    {
      assert i == at <==> Top(t) + i / COLUMNS == t.y && i % COLUMNS == t.x;
    }
  }

  /** Other characters leave the cells. */
  lemma CellsKept(t: Terminal, c: schar)
    requires c < 0x20
    ensures Put(t, c).cells == t.cells
  {
  }

  lemma ScreenBounds(video: seq<u16>, x: int, y: int, t: Terminal)
    requires Shows(video, x, y, t)
    ensures |video| == COLUMNS * ROWS && 0 <= x < COLUMNS && 0 <= y < ROWS && 0 <= y * COLUMNS + x < COLUMNS * ROWS
  {
  }

  /** What monitor_put has done to the screen before it scrolls. */
  lemma BeforeScroll(was: seq<u16>, x: int, y: int, t: Terminal, c: schar, video: seq<u16>, x2: int, y2: int)
    requires Shows(was, x, y, t) && 0 <= y * COLUMNS + x < |was|
    requires video == if c >= 0x20 then was[y * COLUMNS + x := 0x0F00 + c as int] else was
    requires var x' := if c == 0x08 && x != 0 then x - 1 else if c == 0x09 then (x + 8) / 8 * 8
                       else if c == 0x0D || c == 0x0A then 0 else if c >= 0x20 then x + 1 else x;
      var y' := if c == 0x0A then y + 1 else y;
      if x' >= COLUMNS then x2 == 0 && y2 == y' + 1 else x2 == x' && y2 == y'
    ensures Unscrolled(video, x2, y2, Put(t, c), Top(t))
  {
    if c >= 0x20 {
      CellWritten(was, t, c);
    } else {
      CellsKept(t, c);
    }
    PutBounded(t, c);
  }

  /** One character, seen on the screen: where the cursor goes, the one cell that changes, and the scrolling. */
  ghost predicate CharSeen(was: seq<u16>, x: int, y: int, video: seq<u16>, x2: int, y2: int, c: schar) {
    var x' := if c == 0x08 && x > 0 then x - 1 else if c == 0x09 then x - x % 8 + 8
              else if c == 0x0D || c == 0x0A then 0 else if c >= 0x20 then x + 1 else x;
    var y' := if c == 0x0A || x' == 80 then y + 1 else y;
    && |was| == |video| == 2000
    && x2 == (if x' == 80 then 0 else x') && y2 == (if y' == 25 then 24 else y')
    && forall i :: 0 <= i < 2000 ==>
         var j := if y' == 25 then i + 80 else i;
         video[i] == if c >= 0x20 && j == 80 * y + x then 0x0F00 + c as int else if j >= 2000 then 0x0F20 else was[j]
  }

  lemma PutOnScreen(was: seq<u16>, x: int, y: int, t: Terminal, video: seq<u16>, x2: int, y2: int, c: schar)
    requires Shows(was, x, y, t) && Shows(video, x2, y2, Put(t, c))
    ensures CharSeen(was, x, y, video, x2, y2, c)
  {
    CursorAfter(t, c);
    hide Put;
    var u := Put(t, c);
    forall i | 0 <= i < 2000
      ensures var j := i + 80 * (Top(u) - Top(t));
        video[i] == if c >= 0x20 && j == 80 * y + x then 0x0F00 + c as int else if j >= 2000 then 0x0F20 else was[j]
    {
      CellSeen(was, x, y, t, c, Top(u) - Top(t), i);
    }
  }

  lemma CursorAfter(t: Terminal, c: schar)
    requires Bounded(t)
    ensures var x' := if c == 0x08 && t.x > 0 then t.x - 1 else if c == 0x09 then t.x - t.x % 8 + 8
                      else if c == 0x0D || c == 0x0A then 0 else if c >= 0x20 then t.x + 1 else t.x;
      var y' := if c == 0x0A || x' == 80 then t.y + 1 else t.y;
      && Put(t, c).x == (if x' == 80 then 0 else x') && Put(t, c).y == y' && 0 <= x' <= 80
  {
    assert (t.x + 8) / 8 * 8 == t.x - t.x % 8 + 8;
  }

  lemma CellSeen(was: seq<u16>, x: int, y: int, t: Terminal, c: schar, moved: int, i: int)
    requires Shows(was, x, y, t) && 0 <= i < 2000 && 0 <= moved <= 1
    ensures var j := i + 80 * moved;
      CellOf(Put(t, c), Top(t) + moved + i / 80, i % 80) ==
      if c >= 0x20 && j == 80 * y + x then 0x0F00 + c as int else if j >= 2000 then 0x0F20 else was[j]
  {
    var j := i + 80 * moved;
    RowBelow(i);
    assert j / 80 == i / 80 + moved && j % 80 == i % 80;
    CellAfter(t, c, Top(t) + j / 80, j % 80);
    PlaceOf(j, y, x);
  }

  lemma PlaceOf(j: int, row: int, column: int)
    requires 0 <= column < 80
    ensures j == 80 * row + column <==> j / 80 == row && j % 80 == column
  {
  }

  lemma RowBelow(i: int)
    ensures (i + 80) / 80 == i / 80 + 1 && (i + 80) % 80 == i % 80
  {
  }

  lemma CellAfter(t: Terminal, c: schar, row: int, column: int)
    requires Bounded(t)
    ensures CellOf(Put(t, c), row, column) ==
      if c >= 0x20 && row == t.y && column == t.x then 0x0F00 + c as int else CellOf(t, row, column)
    ensures row > t.y ==> CellOf(t, row, column) == 0x0F20
  {
  }

  class Monitor {
    const videoMemory: array<u16>
    var cursorX: int
    var cursorY: int
    ghost var terminal: Terminal

    ghost predicate Valid()
      reads this, videoMemory
    {
      Shows(videoMemory[..], cursorX, cursorY, terminal)
    }

    /** The video memory before monitor_clear, with anything in it. */
    constructor (memory: array<u16>)
      requires memory.Length == COLUMNS * ROWS
      ensures videoMemory == memory
    {
      videoMemory := memory;
      cursorX, cursorY := 0, 0;
      terminal := EMPTY;
    }

    method Clear()
      requires videoMemory.Length == COLUMNS * ROWS
      modifies this, videoMemory
      ensures Valid() && terminal == EMPTY
      ensures cursorX == 0 && cursorY == 0 && forall i :: 0 <= i < 2000 ==> videoMemory[i] == 0x0F20
    {
      var i := 0;
      while i < COLUMNS * ROWS
        invariant 0 <= i <= COLUMNS * ROWS && forall j :: 0 <= j < i ==> videoMemory[j] == BLANK
      {
        videoMemory[i] := BLANK;
        i := i + 1;
      }
      cursorX, cursorY := 0, 0;
      terminal := EMPTY;
    }

    /** scroll, whose loops move the rows up and blank the last one. */
    method Scroll(ghost t: Terminal, ghost top: int)
      requires Unscrolled(videoMemory[..], cursorX, cursorY, t, top)
      modifies videoMemory, this`cursorY
      ensures Shows(videoMemory[..], cursorX, cursorY, t)
    {
      if cursorY >= ROWS {
        ghost var was := videoMemory[..];
        var i := 0;
        while i < (ROWS - 1) * COLUMNS
          invariant 0 <= i <= (ROWS - 1) * COLUMNS
          invariant forall j :: 0 <= j < i ==> videoMemory[j] == was[j + COLUMNS]
          invariant forall j :: i <= j < ROWS * COLUMNS ==> videoMemory[j] == was[j]
        {
          videoMemory[i] := videoMemory[i + COLUMNS];
          i := i + 1;
        }
        while i < ROWS * COLUMNS
          invariant (ROWS - 1) * COLUMNS <= i <= ROWS * COLUMNS
          invariant forall j :: 0 <= j < (ROWS - 1) * COLUMNS ==> videoMemory[j] == was[j + COLUMNS]
          invariant forall j :: (ROWS - 1) * COLUMNS <= j < i ==> videoMemory[j] == BLANK
        {
          videoMemory[i] := BLANK;
          i := i + 1;
        }
        cursorY := ROWS - 1;
        ScrolledWindow(was, videoMemory[..], t, top);
      }
    }

    /** monitor_put. */
    method PutChar(c: schar)
      requires Valid()
      modifies this, videoMemory
      ensures Valid() && terminal == Put(old(terminal), c)
      ensures CharSeen(old(videoMemory[..]), old(cursorX), old(cursorY), videoMemory[..], cursorX, cursorY, c)
    {
      hide CharSeen, Shows, Unscrolled, Put;
      ghost var t := terminal;
      ghost var was, x, y := videoMemory[..], cursorX, cursorY;
      ScreenBounds(was, x, y, t);
      if c == 0x08 && cursorX != 0 {
        cursorX := cursorX - 1;
      } else if c == 0x09 {
        cursorX := (cursorX + 8) / 8 * 8;
      } else if c == 0x0D {
        cursorX := 0;
      } else if c == 0x0A {
        cursorX := 0;
        cursorY := cursorY + 1;
      } else if c >= 0x20 {
        videoMemory[cursorY * COLUMNS + cursorX] := 0x0F00 + c as int;
        cursorX := cursorX + 1;
      }
      if cursorX >= COLUMNS {
        cursorX := 0;
        cursorY := cursorY + 1;
      }
      BeforeScroll(was, x, y, t, c, videoMemory[..], cursorX, cursorY);
      Scroll(Put(t, c), Top(t));
      terminal := Put(t, c);
      PutOnScreen(was, x, y, t, videoMemory[..], cursorX, cursorY, c);
    }

    /** monitor_write: puts the characters up to the terminating zero. */
    method Write(s: seq<schar>, ghost length: nat)
      requires Valid() && length < |s| && s[length] == 0 && forall i :: 0 <= i < length ==> s[i] != 0
      modifies this, videoMemory
      ensures Valid() && terminal == PutAll(old(terminal), s[..length])
    {
      var i := 0;
      while s[i] != 0
        invariant 0 <= i <= length && Valid() && terminal == PutAll(old(terminal), s[..i])
        decreases length - i
      {
        PutLast(old(terminal), s[..i], s[i]);
        assert s[..i] + [s[i]] == s[..i + 1];
        PutChar(s[i]);
        i := i + 1;
      }
    }

    /** monitor_write_dec; its buffers have 32 characters. */
    method WriteDec(n: u32)
      requires Valid()
      modifies this, videoMemory
      ensures Valid() && terminal == PutAll(old(terminal), DecimalText(n))
    {
      if n == 0 {
        PutChar(0x30);
        PutLast(old(terminal), [], 0x30);
        return;
      }
      var text, length := DecimalDigits(n);
      DecimalNonZero(n);
      assert text[..][..length] == text[..length];
      Write(text[..], length);
    }

    /** monitor_write_hex. */
    method WriteHex(n: u32)
      requires Valid()
      modifies this, videoMemory
      ensures Valid() && terminal == PutAll(old(terminal), HexText(n))
    {
      hide Valid, PutAll, Put, DigitChar, HexRest, HexText, Numeral;
      ghost var t := terminal;
      Write([0x30, 0x78, 0], 2);
      assert [0x30, 0x78, 0][..2] == PREFIX;
      EightDigits(n);
      var noZeroes := true;
      var i := 7;
      HexNone();
      while i > 0
        invariant 0 <= i <= 7 && Valid()
        invariant terminal == PutAll(t, PREFIX + HexRest(Shifted(n, i + 1)))
        invariant noZeroes <==> Shifted(n, i + 1) == 0
      {
        var tmp := Shifted(n, i) % 16;
        HexStep(t, Shifted(n, i));
        if !(tmp == 0 && noZeroes) {
          noZeroes := false;
          PutChar(DigitChar(tmp));
        }
        i := i - 1;
      }
      HexLast(t, n);
      PutChar(DigitChar(n % 16));
    }
  }

  const PREFIX: seq<schar> := [0x30, 0x78]

  /** n shifted right by k hexadecimal digits. */
  function Shifted(n: u32, k: nat): u32 {
    if k == 0 then n else Shifted(n, k - 1) / 16
  }

  lemma EightDigits(n: u32)
    ensures Shifted(n, 8) == 0
  {
    assert Shifted(n, 2) < 0x100_0000;
    assert Shifted(n, 4) < 0x1_0000;
    assert Shifted(n, 6) < 0x100;
  }

  /** The digits printed once the part m of the number is. */
  function HexRest(m: u32): seq<schar> {
    if m == 0 then [] else Numeral(Hexadecimal, m)
  }

  function HexText(n: u32): seq<schar> {
    PREFIX + Numeral(Hexadecimal, n)
  }

  lemma HexStep(t: Terminal, m: u32)
    ensures m / 16 != 0 || m % 16 != 0 ==>
      PutAll(t, PREFIX + HexRest(m)) == Put(PutAll(t, PREFIX + HexRest(m / 16)), DigitChar(m % 16))
    ensures m / 16 == 0 && m % 16 == 0 ==> HexRest(m) == HexRest(m / 16)
  {
    var c := DigitChar(m % 16);
    if m / 16 != 0 || m % 16 != 0 {
      assert PREFIX + HexRest(m) == (PREFIX + HexRest(m / 16)) + [c];
      PutLast(t, PREFIX + HexRest(m / 16), c);
    }
  }

  lemma HexNone()
    ensures PREFIX + HexRest(0) == PREFIX
  {
  }

  /** The last digit, which is printed also if it is the only one. */
  lemma HexLast(t: Terminal, n: u32)
    ensures PutAll(t, HexText(n)) == Put(PutAll(t, PREFIX + HexRest(n / 16)), DigitChar(n % 16))
  {
    hide PutAll, Put, DigitChar;
    PutLast(t, PREFIX + HexRest(n / 16), DigitChar(n % 16));
    assert HexText(n) == PREFIX + HexRest(n / 16) + [DigitChar(n % 16)];
  }

  /** monitor_write_hex prints the canonical numeral of every 32-bit number, in at most eight digits. */
  lemma HexRoundTrip(n: u32)
    ensures HexText(n)[..2] == [0x30, 0x78] && HexText(n)[2..] == Numeral(Hexadecimal, n)
    ensures var s := HexText(n)[2..];
      Value(Hexadecimal, s) == n && Digits(Hexadecimal, s) && Canonical(s) && |s| <= 8
  {
    assert HexText(n)[2..] == Numeral(Hexadecimal, n);
    NumeralValue(Hexadecimal, n);
    assert Power(Hexadecimal, 4) == 0x1_0000;
    assert Power(Hexadecimal, 8) == 0x1_0000_0000 by {
      assert Power(Hexadecimal, 6) == 0x100_0000;
    }
    NumeralLength(Hexadecimal, n, 8);
  }

  /** The two buffers of monitor_write_dec: the digits from the last one on, then turned round, with a final zero. */
  method DecimalDigits(n: u32) returns (c2: array<schar>, length: nat)
    requires n > 0
    ensures fresh(c2) && length <= 10 && c2.Length == 32
    ensures c2[..length] == DecimalText(n) && c2[length] == 0
  {
    hide Power, Numeral, Reversed, Rest, DecimalText, Signed;
    var acc := Signed(n);
    DecimalStart(n);
    var c := new schar[32];
    var i := 0;
    while acc > 0
      invariant 0 <= i <= 10 && acc < Power(Decimal, 10 - i)
      invariant DecimalText(n) == Rest(acc) + Reversed(c[..i])
      invariant acc <= 0 ==> Rest(acc) == []
    {
      DecimalStep(acc, i, c[..i]);
      c[i] := 0x30 + acc % 10;
      assert c[..i + 1] == c[..i] + [0x30 + acc % 10];
      acc := acc / 10;
      i := i + 1;
    }
    c[i] := 0;
    length := i;
    ghost var digits := c[..i];
    c2 := new schar[32];
    c2[i] := 0;
    i := i - 1;
    var j := 0;
    while i >= 0
      invariant -1 <= i < length && j == length - 1 - i
      invariant c2[length] == 0 && c[..length] == digits
      invariant forall k :: i < k < length ==> c2[k] == digits[length - 1 - k]
    {
      c2[i] := c[j];
      i, j := i - 1, j + 1;
    }
    ReversedAt(digits);
    assert c2[..length] == Reversed(digits);
  }

  function Reversed(s: seq<schar>): (r: seq<schar>)
    ensures |r| == |s|
  {
    if s == [] then [] else [s[|s| - 1]] + Reversed(s[..|s| - 1])
  }

  lemma {:induction false} ReversedAt(s: seq<schar>)
    ensures forall k :: 0 <= k < |s| ==> Reversed(s)[k] == s[|s| - 1 - k]
  {
    if s != [] {
      ReversedAt(s[..|s| - 1]);
    }
  }

  /** The numeral of the part of the number that is not printed yet. */
  function Rest(acc: int): seq<schar> {
    if acc <= 0 then [] else Numeral(Decimal, acc)
  }

  /** Before the first digit; a number that is negative as a signed one has none. */
  lemma DecimalStart(n: u32)
    requires n > 0
    ensures Signed(n) < Power(Decimal, 10)
    ensures DecimalText(n) == Rest(Signed(n)) + Reversed([]) && (Signed(n) <= 0 ==> Rest(Signed(n)) == [])
  {
    TenDigits();
  }

  /** One more digit, while fewer than ten are printed. */
  lemma DecimalStep(acc: int, i: nat, s: seq<schar>)
    requires 0 < acc && i <= 10 && acc < Power(Decimal, 10 - i)
    ensures i < 10 && (acc / 10 <= 0 ==> Rest(acc / 10) == []) && acc / 10 < Power(Decimal, 10 - (i + 1))
    ensures Rest(acc) + Reversed(s) == Rest(acc / 10) + Reversed(s + [0x30 + acc % 10])
  {
    hide Power, Numeral;
    PowerNext(10 - i);
    var c: schar := 0x30 + acc % 10;
    assert (s + [c])[..|s|] == s;
    RestNext(acc);
  }

  lemma PowerNext(k: nat)
    ensures Power(Decimal, k) == if k == 0 then 1 else 10 * Power(Decimal, k - 1)
  {
  }

  /** The last digit of a number follows the numeral of the rest. */
  lemma RestNext(acc: int)
    requires acc > 0
    ensures Rest(acc) == Rest(acc / 10) + [0x30 + acc % 10]
  {
  }

  lemma TenDigits()
    ensures Power(Decimal, 10) == 10_000_000_000
  {
    assert Power(Decimal, 3) == 1000;
    assert Power(Decimal, 6) == 1_000_000;
    assert Power(Decimal, 9) == 1_000_000_000;
  }

  /** The text that monitor_write_dec emits: nothing if the number is negative as a signed one. */
  function DecimalText(n: u32): seq<schar> {
    if n < 0x8000_0000 then Numeral(Decimal, n) else []
  }

  lemma DecimalNonZero(n: u32)
    ensures forall i :: 0 <= i < |DecimalText(n)| ==> DecimalText(n)[i] != 0
  {
    if n < 0x8000_0000 {
      NumeralValue(Decimal, n);
      forall i | 0 <= i < |DecimalText(n)| ensures DecimalText(n)[i] != 0 {
        assert IsDigit(Decimal, DecimalText(n)[i]);
      }
    }
  }

  /** monitor_write_dec prints a number exactly if it is below 2 to the 31: then the text is the canonical one and
      has at most ten digits. */
  lemma DecimalRoundTrip(n: u32)
    ensures DecimalText(n) != [] && Value(Decimal, DecimalText(n)) == n <==> n < 0x8000_0000
    ensures n < 0x8000_0000 ==> Digits(Decimal, DecimalText(n)) && Canonical(DecimalText(n)) && |DecimalText(n)| <= 10
    ensures DecimalText(n) == if n < 0x8000_0000 then Numeral(Decimal, n) else []
  {
    if n < 0x8000_0000 {
      NumeralValue(Decimal, n);
      TenDigits();
      NumeralLength(Decimal, n, 10);
    }
  }

  lemma ScrolledWindow(was: seq<u16>, video: seq<u16>, t: Terminal, top: int)
    requires Unscrolled(was, t.x, ROWS, t, top) && |video| == COLUMNS * ROWS
    requires forall j :: 0 <= j < (ROWS - 1) * COLUMNS ==> video[j] == was[j + COLUMNS]
    requires forall j :: (ROWS - 1) * COLUMNS <= j < ROWS * COLUMNS ==> video[j] == BLANK
    ensures Top(t) == top + 1 && Shows(video, t.x, ROWS - 1, t)
  {
    forall i | 0 <= i < COLUMNS * ROWS ensures video[i] == CellOf(t, Top(t) + i / COLUMNS, i % COLUMNS) {
      if i < (ROWS - 1) * COLUMNS {
        assert (i + COLUMNS) / COLUMNS == i / COLUMNS + 1 && (i + COLUMNS) % COLUMNS == i % COLUMNS;
      }
    }
  }
}
