/** The text screen: what a program prints against what the 80 by 25 buffer shows. */
module ConsoleSpec {
  import opened Words

  const WIDTH: nat := 80
  const HEIGHT: nat := 25
  const CELLS: nat := 2000
  const NEWLINE: Byte := 10
  const BACKSPACE: Byte := 8
  const BLANK: nat := 3872      // VGA_ATTR << 8 | ' '

  /** The buffer cell of a character. */
  function Cell(c: Byte): nat { 3840 + c as nat }

  function Blanks(n: nat): (r: seq<nat>)
    ensures |r| == n
  {
    seq(n, _ => BLANK)
  }

  datatype Screen = Screen(cells: seq<nat>, x: nat, y: nat)

  predicate OnScreen(s: Screen) {
    |s.cells| == CELLS && s.x < WIDTH && s.y < HEIGHT
  }

  const CLEAR: Screen := Screen(Blanks(CELLS), 0, 0)

  /** console_scroll: moves the rows up when the cursor has left the last one. */
  function Scroll(s: Screen): Screen
    requires |s.cells| == CELLS
  {
    if s.y < HEIGHT then s else Screen(s.cells[WIDTH..] + Blanks(WIDTH), s.x, HEIGHT - 1)
  }

  function NewLine(s: Screen): Screen
    requires OnScreen(s)
  {
    Scroll(Screen(s.cells, 0, s.y + 1))
  }

  function Write(s: Screen, c: Byte): Screen
    requires OnScreen(s)
  {
    var t := s.(cells := s.cells[WIDTH * s.y + s.x := Cell(c)]);
    if s.x + 1 < WIDTH then t.(x := s.x + 1) else NewLine(t)
  }

  function Erase(s: Screen): Screen
    requires OnScreen(s)
  {
    var (x, y) := if s.x > 0 then (s.x - 1, s.y) else if s.y > 0 then (WIDTH - 1, s.y - 1) else (0, 0);
    Screen(s.cells[WIDTH * y + x := BLANK], x, y)
  }

  /** console_putc. */
  function Put(s: Screen, c: Byte): (r: Screen)
    requires OnScreen(s)
    ensures OnScreen(r)
  {
    if c == 0 then s
    else if c == NEWLINE then NewLine(s)
    else if c == BACKSPACE then Erase(s)
    else Write(s, c)
  }

  /** Whatever is printed, the cursor stays on the screen. */
  function Print(s: Screen, text: seq<Byte>): (r: Screen)
    requires OnScreen(s)
    ensures OnScreen(r)
  {
    if text == [] then s else Put(Print(s, text[..|text| - 1]), text[|text| - 1])
  }

  // ----- text as rows

  /** Position of the first newline, or the length. */
  function LineLength(t: seq<Byte>): (n: nat)
    ensures n <= |t|
  {
    if t == [] || t[0] == NEWLINE then 0 else 1 + LineLength(t[1..])
  }

  /** Length of the first row of a text: up to a newline, or 80 characters. */
  function RowLength(t: seq<Byte>): (n: nat)
    ensures n <= WIDTH && n <= |t|
  {
    if LineLength(t) < WIDTH then LineLength(t) else WIDTH
  }

  /** The rest of a text after its first row; a newline that ends the row is dropped. */
  function AfterRow(t: seq<Byte>): (r: seq<Byte>)
    requires RowLength(t) < |t| || RowLength(t) == WIDTH
    ensures |r| < |t|
  {
    if RowLength(t) < WIDTH then t[RowLength(t) + 1..] else t[WIDTH..]
  }

  /** A text wrapped at 80 columns; a full row is always followed by another one. */
  function Rows(t: seq<Byte>): (r: seq<seq<Byte>>)
    ensures |r| > 0
    decreases |t|
  {
    if RowLength(t) == |t| < WIDTH then [t] else [t[..RowLength(t)]] + Rows(AfterRow(t))
  }

  function Visible(t: seq<Byte>): seq<Byte> {
    if t == [] then []
    else
      var init, c := Visible(t[..|t| - 1]), t[|t| - 1];
      if c == 0 then init else init + [c]
  }

  /** A row of the text as a row of cells. */
  function Pad(row: seq<Byte>): (r: seq<nat>)
    requires |row| <= WIDTH
    ensures |r| == WIDTH
  {
    seq(|row|, i requires 0 <= i < |row| => Cell(row[i])) + Blanks(WIDTH - |row|)
  }

  predicate Narrow(rows: seq<seq<Byte>>) {
    forall i :: 0 <= i < |rows| ==> |rows[i]| <= WIDTH
  }

  function Flatten(rows: seq<seq<Byte>>): (r: seq<nat>)
    requires Narrow(rows)
    ensures |r| == WIDTH * |rows|
  {
    if rows == [] then [] else Flatten(rows[..|rows| - 1]) + Pad(rows[|rows| - 1])
  }

  /** The last 25 rows. */
  function Window(rows: seq<seq<Byte>>): (r: seq<seq<Byte>>)
    ensures |r| <= HEIGHT && (Narrow(rows) ==> Narrow(r))
  {
    if |rows| <= HEIGHT then rows else rows[|rows| - HEIGHT..]
  }

  /** The screen that shows the end of a text, with the cursor behind its last character. */
  function Showing(rows: seq<seq<Byte>>): (r: Screen)
    requires Narrow(rows) && rows != []
    ensures |r.cells| == CELLS && r.y < HEIGHT
  {
    var w := Window(rows);
    Screen(Flatten(w) + Blanks(CELLS - WIDTH * |w|), |rows[|rows| - 1]|, |w| - 1)
  }

  // ----- printing shows the rows

  /** What one more character does to the rows of a text. */
  function Extend(rows: seq<seq<Byte>>, c: Byte): (r: seq<seq<Byte>>)
    requires rows != []
    ensures r != []
  {
    if c == NEWLINE then rows + [[]]
    else if |rows[|rows| - 1]| + 1 == WIDTH then Longer(rows, c) + [[]]
    else Longer(rows, c)
  }

  /** One more character leaves the first line alone, ends it or makes it longer. */
  lemma {:induction false} LineExtend(t: seq<Byte>, c: Byte)
    ensures LineLength(t + [c]) == if LineLength(t) < |t| || c == NEWLINE then LineLength(t) else |t| + 1
    decreases |t|
  {
    if t != [] && t[0] != NEWLINE {
      assert (t + [c])[1..] == t[1..] + [c];
      LineExtend(t[1..], c);
    }
  }

  lemma RowsStep(t: seq<Byte>, row: seq<Byte>, rest: seq<Byte>)
    requires RowLength(t) < |t| || RowLength(t) == WIDTH
    requires row == t[..RowLength(t)] && rest == AfterRow(t)
    ensures Rows(t) == [row] + Rows(rest)
  {
  }

  lemma OneRowExtend(t: seq<Byte>, c: Byte)
    requires LineLength(t) == |t| < WIDTH
    ensures Rows(t + [c]) == Extend([t], c)
  {
    var u := t + [c];
    LineExtend(t, c);
    if c == NEWLINE {
      RowsStep(u, t, []);
    } else if |u| == WIDTH {
      RowsStep(u, u, []);
      assert Longer([t], c) == [u];
    } else {
      assert Longer([t], c) == [u];
    }
  }

  lemma {:induction false} RowsExtend(t: seq<Byte>, c: Byte)
    ensures Rows(t + [c]) == Extend(Rows(t), c)
    decreases |t|
  {
    LineExtend(t, c);
    if RowLength(t) == |t| < WIDTH {
      OneRowExtend(t, c);
    } else {
      var row, rest := t[..RowLength(t)], AfterRow(t);
      RowsExtend(rest, c);
      RowsStep(t + [c], row, rest + [c]);
      ExtendTail(row, Rows(rest), c);
    }
  }

  lemma ExtendTail(row: seq<Byte>, rows: seq<seq<Byte>>, c: Byte)
    requires rows != []
    ensures Extend([row] + rows, c) == [row] + Extend(rows, c)
  {
  }

  /** The rows of a text are narrow and its last row is never full. */
  predicate Wrapped(rows: seq<seq<Byte>>) {
    rows != [] && Narrow(rows) && |rows[|rows| - 1]| < WIDTH
  }

  lemma {:induction false} FlattenTail(rows: seq<seq<Byte>>)
    requires Narrow(rows) && rows != []
    ensures Flatten(rows[1..]) == Flatten(rows)[WIDTH..]
    decreases |rows|
  {
    var last := |rows| - 1;
    if last > 0 {
      var tail := rows[1..];
      FlattenTail(rows[..last]);
      assert tail[..last - 1] == rows[..last][1..] && tail[last - 1] == rows[last];
      DropFront(Flatten(rows[..last]), Pad(rows[last]));
    }
  }

  lemma DropFront(a: seq<nat>, b: seq<nat>)
    requires |a| >= WIDTH
    ensures (a + b)[WIDTH..] == a[WIDTH..] + b
  {
  }

  /** Starting a row below the text. */
  lemma NewRowShows(rows: seq<seq<Byte>>)
    requires Narrow(rows) && rows != []
    ensures Narrow(rows + [[]])
    ensures NewLine(Showing(rows).(x := 0)) == Showing(rows + [[]])
  {
    var w, longer := Window(rows), rows + [[]];
    assert Pad([]) == Blanks(WIDTH);
    if |rows| < HEIGHT {
      assert longer[..|rows|] == rows;
      assert Blanks(WIDTH) + Blanks(CELLS - WIDTH * |longer|) == Blanks(CELLS - WIDTH * |rows|);
    } else {
      var v := Window(longer);
      assert v[..24] == w[1..] && v[24] == [];
      FlattenTail(w);
      assert Flatten(v) == Flatten(w)[WIDTH..] + Blanks(WIDTH);
      assert Flatten(w) + Blanks(0) == Flatten(w) && Flatten(v) + Blanks(0) == Flatten(v);
    }
  }

  lemma PadMore(row: seq<Byte>, c: Byte)
    requires |row| < WIDTH
    ensures Pad(row + [c]) == Pad(row)[|row| := Cell(c)]
  {
  }

  function Longer(rows: seq<seq<Byte>>, c: Byte): (r: seq<seq<Byte>>)
    requires rows != []
    ensures |r| == |rows|
  {
    rows[|rows| - 1 := rows[|rows| - 1] + [c]]
  }

  lemma FlattenMore(rows: seq<seq<Byte>>, c: Byte)
    requires Wrapped(rows)
    ensures var last := rows[|rows| - 1];
            && Narrow(Longer(rows, c))
            && Flatten(Longer(rows, c)) == Flatten(rows)[WIDTH * (|rows| - 1) + |last| := Cell(c)]
  {
    var k := |rows| - 1;
    PadMore(rows[k], c);
    assert Longer(rows, c)[..k] == rows[..k];
  }

  lemma WindowMore(rows: seq<seq<Byte>>, c: Byte)
    requires rows != []
    ensures Window(rows) != [] && Window(Longer(rows, c)) == Longer(Window(rows), c)
  {
  }

  lemma UpdateFront(a: seq<nat>, b: seq<nat>, i: nat, v: nat)
    requires i < |a|
    ensures (a + b)[i := v] == a[i := v] + b
  {
  }

  /** Writing the next character of the last row. */
  lemma CharShows(rows: seq<seq<Byte>>, c: Byte)
    requires Wrapped(rows)
    ensures var s := Showing(rows);
            && Narrow(Longer(rows, c))
            && s.cells[WIDTH * s.y + s.x := Cell(c)] == Showing(Longer(rows, c)).cells
  {
    var w, s := Window(rows), Showing(rows);
    WindowMore(rows, c);
    assert Wrapped(w);
    FlattenMore(w, c);
    UpdateFront(Flatten(w), Blanks(CELLS - WIDTH * |w|), WIDTH * s.y + s.x, Cell(c));
  }

  /** One printed character. */
  lemma PutShows(rows: seq<seq<Byte>>, c: Byte)
    requires Wrapped(rows) && c != 0 && c != BACKSPACE
    ensures Wrapped(Extend(rows, c)) && Put(Showing(rows), c) == Showing(Extend(rows, c))
  {
    if c == NEWLINE {
      NewRowShows(rows);
    } else {
      LongerShows(rows, c);
      if |rows[|rows| - 1]| + 1 == WIDTH {
        NewRowShows(Longer(rows, c));
        WriteWraps(Showing(rows), Showing(Longer(rows, c)), c);
      }
    }
  }

  /** The screen with the character and the cursor behind it. */
  lemma LongerShows(rows: seq<seq<Byte>>, c: Byte)
    requires Wrapped(rows)
    ensures Narrow(Longer(rows, c))
    ensures var s := Showing(rows);
            Showing(Longer(rows, c)) == Screen(s.cells[WIDTH * s.y + s.x := Cell(c)], s.x + 1, s.y)
  {
    CharShows(rows, c);
    WindowMore(rows, c);
  }

  lemma WriteWraps(s: Screen, t: Screen, c: Byte)
    requires OnScreen(s) && s.x + 1 == WIDTH && t == Screen(s.cells[WIDTH * s.y + s.x := Cell(c)], WIDTH, s.y)
    ensures OnScreen(t.(x := 0)) && Write(s, c) == NewLine(t.(x := 0))
  {
  }

  lemma ClearShowsNothing()
    ensures Wrapped(Rows([])) && CLEAR == Showing(Rows([]))
  {
    var rows: seq<seq<Byte>> := [[]];
    assert Rows([]) == rows;
    assert rows[..0] == [] && Flatten(rows) == Pad([]);
    assert Pad([]) == Blanks(WIDTH);
    assert CLEAR.cells == Blanks(WIDTH) + Blanks(CELLS - WIDTH);
  }

  /** From a clear screen, any text without backspaces leaves the buffer showing its last 25 rows and the
      cursor behind its last character. */
  lemma {:induction false} PrintShowsRows(t: seq<Byte>)
    requires BACKSPACE !in t
    ensures Wrapped(Rows(Visible(t))) && Print(CLEAR, t) == Showing(Rows(Visible(t)))
    decreases |t|
  {
    if t == [] {
      ClearShowsNothing();
    } else {
      var init, c := t[..|t| - 1], t[|t| - 1];
      PrintShowsRows(init);
      if c != 0 {
        RowsExtend(Visible(init), c);
        PutShows(Rows(Visible(init)), c);
      }
    }
  }

  /** A backspace goes one cell back, over the end of the row above, and blanks it; at the top left it stays. */
  lemma BackspaceMoves(s: Screen)
    requires OnScreen(s)
    ensures var r, at := Put(s, BACKSPACE), 80 * s.y + s.x;
            && 80 * r.y + r.x == (if at == 0 then 0 else at - 1)
            && r.cells == s.cells[(if at == 0 then 0 else at - 1) := Cell(32)]
  {
  }

  // ----- reading the screen

  lemma CellByte(c: Byte)
    ensures Cell(c) % 256 == c as nat && Cell(c) / 256 == 0x0f && BLANK == Cell(32)
  {
  }

  lemma {:induction false} FlattenCell(rows: seq<seq<Byte>>, i: nat, j: nat)
    requires Narrow(rows) && i < |rows| && j < 80
    ensures Flatten(rows)[80 * i + j] == if j < |rows[i]| then Cell(rows[i][j]) else BLANK
    decreases |rows|
  {
    if i < |rows| - 1 {
      FlattenCell(rows[..|rows| - 1], i, j);
    }
  }

  /** Cell j of screen row i, when the last 25 of the rows are shown: the character there, or a space. */
  function CharAt(rows: seq<seq<Byte>>, i: nat, j: nat): nat {
    var k := if |rows| <= 25 then i else |rows| - 25 + i;
    if k < |rows| && j < |rows[k]| then rows[k][j] as nat else 32
  }

  predicate ReadsAt(cells: seq<nat>, rows: seq<seq<Byte>>, i: nat, j: nat)
    requires |cells| == 2000 && i < 25 && j < 80
  {
    cells[80 * i + j] / 256 == 0x0f && cells[80 * i + j] % 256 == CharAt(rows, i, j)
  }

  /** After printing a text, the characters in the buffer are those of its last 25 rows, white on black, with spaces
      around them. */
  lemma ScreenReads(t: seq<Byte>, i: nat, j: nat)
    requires BACKSPACE !in t && i < 25 && j < 80
    ensures ReadsAt(Print(CLEAR, t).cells, Rows(Visible(t)), i, j)
  {
    PrintShowsRows(t);
    ShowingCell(Rows(Visible(t)), i, j);
  }

  lemma ShowingCell(rows: seq<seq<Byte>>, i: nat, j: nat)
    requires Narrow(rows) && rows != [] && i < 25 && j < 80
    ensures ReadsAt(Showing(rows).cells, rows, i, j)
  {
    var w := Window(rows);
    CellByte(32);
    if i < |w| {
      FlattenCell(w, i, j);
      if j < |w[i]| { CellByte(w[i][j]); }
    }
  }

  /** The text behind wrapped rows: a row of 80 goes on in the next one, any other ends in a newline. */
  function Unwrap(rows: seq<seq<Byte>>): seq<Byte>
    requires rows != []
  {
    if |rows| == 1 then rows[0]
    else rows[0] + (if |rows[0]| == 80 then [] else [NEWLINE]) + Unwrap(rows[1..])
  }

  /** Wrapping loses nothing of the text. */
  lemma {:induction false} UnwrapRows(t: seq<Byte>)
    ensures Unwrap(Rows(t)) == t
    decreases |t|
  {
    if !(RowLength(t) == |t| < WIDTH) {
      UnwrapRows(AfterRow(t));
      assert Rows(t) == [t[..RowLength(t)]] + Rows(AfterRow(t));
      UnwrapFirst(t[..RowLength(t)], Rows(AfterRow(t)));
      FirstRowBack(t);
    }
  }

  lemma UnwrapFirst(row: seq<Byte>, rows: seq<seq<Byte>>)
    requires rows != []
    ensures Unwrap([row] + rows) == row + (if |row| == 80 then [] else [NEWLINE]) + Unwrap(rows)
  {
    assert ([row] + rows)[1..] == rows;
  }

  /** The first row, its newline if it has one, and the rest. */
  lemma FirstRowBack(t: seq<Byte>)
    requires !(RowLength(t) == |t| < WIDTH)
    ensures t[..RowLength(t)] + (if RowLength(t) == 80 then [] else [NEWLINE]) + AfterRow(t) == t
  {
    LineEnd(t);
  }

  lemma {:induction false} LineEnd(t: seq<Byte>)
    ensures LineLength(t) < |t| ==> t[LineLength(t)] == NEWLINE
    decreases |t|
  {
    if t != [] && t[0] != NEWLINE { LineEnd(t[1..]); }
  }

  /** A backspace takes back the character before it: the screen is as before, moved up if the character
      filled the last row. */
  lemma BackspaceErases(s: Screen, c: Byte)
    requires OnScreen(s) && c != 0 && c != NEWLINE && c != BACKSPACE
    requires s.cells[WIDTH * s.y + s.x] == BLANK
    ensures var r := Put(Put(s, c), BACKSPACE);
            if s.x == WIDTH - 1 && s.y == HEIGHT - 1 then
              r == Screen(s.cells[WIDTH..] + Blanks(WIDTH), s.x, s.y - 1)
            else
              r == s
  {
    var at := WIDTH * s.y + s.x;
    var written := s.cells[at := Cell(c)];
    assert written[at := BLANK] == s.cells;
    if s.x == WIDTH - 1 && s.y == HEIGHT - 1 {
      assert (written[WIDTH..] + Blanks(WIDTH))[at - WIDTH := BLANK] == s.cells[WIDTH..] + Blanks(WIDTH);
    }
  }

  // ----- decimal numbers

  const ZERO: nat := 48

  function Digits(v: nat): (r: seq<Byte>)
    ensures |r| > 0
  {
    if v < 10 then [ZERO + v] else Digits(v / 10) + [ZERO + v % 10]
  }

  /** The number that a string of digits writes. */
  function Parse(s: seq<Byte>): int {
    if s == [] then 0 else 10 * Parse(s[..|s| - 1]) + s[|s| - 1] as int - ZERO
  }

  function Power10(n: nat): (r: nat)
    ensures r > 0
  {
    if n == 0 then 1 else 10 * Power10(n - 1)
  }

  predicate AllDigits(s: seq<Byte>) {
    forall i :: 0 <= i < |s| ==> ZERO <= s[i] <= ZERO + 9
  }

  /** The digits parse back to the number, without leading zeros. */
  lemma {:induction false} DigitsParse(v: nat)
    ensures Parse(Digits(v)) == v && AllDigits(Digits(v))
    ensures v > 0 ==> Digits(v)[0] != ZERO
  {
    if v < 10 {
      assert [ZERO + v][..0] == [];
    } else {
      DigitsParse(v / 10);
      var s: seq<Byte> := Digits(v / 10) + [ZERO + v % 10];
      assert s[..|s| - 1] == Digits(v / 10);
    }
  }

  lemma {:induction false} DigitsShort(v: nat, n: nat)
    requires v < Power10(n) && n > 0
    ensures |Digits(v)| <= n
    decreases n
  {
    if v >= 10 {
      DigitsShort(v / 10, n - 1);
    }
  }

  lemma TenDigits(v: nat)
    requires v < WORD
    ensures |Digits(v)| <= 10
  {
    var e5 := 10 * (10 * (10 * (10 * (10 * Power10(0)))));
    assert Power10(5) == e5 == 100000;
    assert Power10(10) == 10 * (10 * (10 * (10 * (10 * Power10(5))))) == 10000000000;
    DigitsShort(v, 10);
  }
}

/** The console driver. */
module ConsoleDriver {
  import opened Words
  import opened ConsoleSpec

  lemma CountWraps(i: nat)
    ensures (i % 256 + 1) % 256 == (i + 1) % 256
  {
  }

  class Console {
    const vga: array<nat>
    var cursorX: nat
    var cursorY: nat

    ghost function State(): Screen
      reads this, vga
    {
      Screen(vga[..], cursorX, cursorY)
    }

    ghost predicate Valid()
      reads this, vga
    {
      OnScreen(State())
    }

    /** Takes over the video memory and clears it. */
    constructor (vga: array<nat>)
      requires vga.Length == CELLS
      modifies vga
      ensures this.vga == vga && Valid() && State() == CLEAR
    {
      this.vga, cursorX, cursorY := vga, 0, 0;
      new;
      Reset();
    }

    /** console_reset. */
    method Reset()
      requires vga.Length == CELLS
      modifies this, vga
      ensures Valid() && State() == CLEAR
    {
      var y := 0;
      while y < HEIGHT
        invariant y <= HEIGHT && forall i :: 0 <= i < 80 * y ==> vga[i] == BLANK
      {
        BlankRow(y);
        y := y + 1;
      }
      cursorX, cursorY := 0, 0;
      assert vga[..] == Blanks(CELLS);
    }

    /** The loop that blanks one row. */
    method BlankRow(y: nat)
      requires vga.Length == CELLS && y < HEIGHT
      modifies vga
      ensures forall i :: 80 * y <= i < 80 * y + 80 ==> vga[i] == BLANK
      ensures forall i :: 0 <= i < 80 * y || 80 * y + 80 <= i < CELLS ==> vga[i] == old(vga[i])
    {
      var x := 0;
      while x < WIDTH
        invariant x <= WIDTH
        invariant forall i :: 80 * y <= i < 80 * y + x ==> vga[i] == BLANK
        invariant forall i :: 0 <= i < 80 * y || 80 * y + 80 <= i < CELLS ==> vga[i] == old(vga[i])
      {
        vga[80 * y + x] := BLANK;
        x := x + 1;
      }
    }

    /** The loop that moves row y up by one. */
    method MoveRow(y: nat)
      requires vga.Length == CELLS && 0 < y < HEIGHT
      modifies vga
      ensures forall i :: 80 * y - 80 <= i < 80 * y ==> vga[i] == old(vga[i + 80])
      ensures forall i :: 0 <= i < 80 * y - 80 || 80 * y <= i < CELLS ==> vga[i] == old(vga[i])
    {
      var x := 0;
      while x < WIDTH
        invariant x <= WIDTH
        invariant forall i :: 80 * y - 80 <= i < 80 * y - 80 + x ==> vga[i] == old(vga[i + 80])
        invariant forall i :: 0 <= i < 80 * y - 80 || 80 * y <= i < CELLS ==> vga[i] == old(vga[i])
      {
        vga[80 * (y - 1) + x] := vga[80 * y + x];
        x := x + 1;
      }
    }

    /** console_scroll. */
    method ScrollUp()
      requires vga.Length == CELLS && cursorY <= HEIGHT
      modifies this, vga
      ensures State() == Scroll(old(State()))
    {
      if cursorY < HEIGHT {
        return;
      }
      var y := 1;
      while y < HEIGHT
        invariant 1 <= y <= HEIGHT && cursorX == old(cursorX)
        invariant forall i :: 0 <= i < 80 * y - 80 ==> vga[i] == old(vga[i + 80])
        invariant forall i :: 80 * y - 80 <= i < CELLS ==> vga[i] == old(vga[i])
      {
        MoveRow(y);
        y := y + 1;
      }
      BlankRow(HEIGHT - 1);
      cursorY := HEIGHT - 1;
      assert vga[..] == old(vga[..])[WIDTH..] + Blanks(WIDTH);
    }

    /** console_putc. */
    method Putc(c: Byte) returns (written: nat)
      requires Valid()
      modifies this, vga
      ensures Valid() && State() == Put(old(State()), c) && written == if c == 0 then 0 else 1
    {
      if c == 0 {
        return 0;
      }
      if c == NEWLINE {
        cursorX, cursorY := 0, cursorY + 1;
      } else if c == BACKSPACE {
        if cursorX > 0 {
          cursorX := cursorX - 1;
        } else if cursorY > 0 {
          cursorY := cursorY - 1;
          cursorX := WIDTH - 1;
        }
        vga[80 * cursorY + cursorX] := BLANK;
      } else {
        vga[80 * cursorY + cursorX] := Cell(c);
        cursorX := cursorX + 1;
      }
      if cursorX >= WIDTH {
        cursorX, cursorY := 0, cursorY + 1;
      }
      ScrollUp();
      return 1;
    }

    /** console_puts, on the characters before the NUL. The count wraps in its 8 bits. */
    method Puts(s: seq<Byte>) returns (written: nat)
      requires Valid() && forall i :: 0 <= i < |s| ==> s[i] != 0
      modifies this, vga
      ensures Valid() && State() == Print(old(State()), s) && written == |s| % 256
    {
      written := 0;
      var i := 0;
      ghost var start := State();
      while i < |s|
        invariant i <= |s| && Valid() && State() == Print(start, s[..i]) && written == i % 256
      {
        PrintNext(start, s, i);
        var n := Putc(s[i]);
        CountWraps(i);
        written := (written + n) % 256;
        i := i + 1;
      }
      assert s[..i] == s;
    }

    /** console_put_dec32: collects the digits from the last one, then prints them from the first. */
    method PutDec32(val: nat) returns (count: nat)
      requires Valid() && val < WORD
      modifies this, vga
      ensures Valid() && State() == Print(old(State()), Digits(val))
      ensures count == |Digits(val)| <= 10
    {
      var digits := new Byte[10];
      TenDigits(val);
      ghost var text, start := Digits(val), State();
      var v := val;
      count := 0;
      while true
        invariant Valid() && State() == start && count + |Digits(v)| == |text|
        invariant Digits(v) == text[..|text| - count]
        invariant forall j :: 0 <= j < count ==> digits[j] == text[|text| - 1 - j]
        decreases v
      {
        LastDigit(v);
        digits[count] := ZERO + v % 10;
        count := count + 1;
        if v < 10 {
          break;
        }
        v := v / 10;
      }
      var i := count;
      while i > 0
        invariant i <= count == |text| && Valid() && State() == Print(start, text[..count - i])
        invariant forall j :: 0 <= j < count ==> digits[j] == text[|text| - 1 - j]
      {
        PrintNext(start, text, count - i);
        var n := Putc(digits[i - 1]);
        i := i - 1;
      }
      assert text[..count] == text;
    }
  }

  lemma PrintNext(s: Screen, text: seq<Byte>, i: nat)
    requires OnScreen(s) && i < |text|
    ensures Print(s, text[..i + 1]) == Put(Print(s, text[..i]), text[i])
  {
    assert text[..i + 1][..i] == text[..i];
  }

  lemma LastDigit(v: nat)
    ensures var s := Digits(v);
            && s[|s| - 1] == ZERO + v % 10
            && (v < 10 ==> |s| == 1) && (v >= 10 ==> s[..|s| - 1] == Digits(v / 10))
  {
  }
}
