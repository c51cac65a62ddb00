/** The text terminal: an 80 by 25 screen that scrolls in place, and the endless log it is a window on. */
module Terminals {

  const VGA_WIDTH := 80
  const VGA_HEIGHT := 25
  const CELLS := VGA_WIDTH * VGA_HEIGHT

  type Byte = c: char | c as int < 256 witness ' '
  type Color = c: nat | c < 256

  /** A cell of the screen: the character in the low byte, the colour in the high one.  A character from 0x80 on
      is negative and fills the high byte with ones. */
  function MakeEntry(c: Byte, color: Color): nat {
    if c as int < 0x80 then c as int + color * 256 else 0xFF00 + c as int
  }

  /** make_color: the background in the high nibble. */
  function MakeColor(fg: nat, bg: nat): Color
    requires fg < 16 && bg < 16
  {
    fg + bg * 16
  }

  const COLOR_BLACK := 0
  const COLOR_WHITE := 15

  /** char is signed on this machine: bytes from 0x80 on are below the blank. */
  predicate Printable(c: Byte) {
    ' ' <= c && c as int < 0x80
  }

  // ----- The log -----

  /** A byte written, with the colour in force. */
  datatype Event = Event(c: Byte, color: Color)

  /** Column and row of the cursor; rows are counted from the first line ever. */
  datatype Cursor = Cursor(x: nat, row: nat)

  /** The cursor after one byte, if lines never scrolled away. */
  function Advance(at: Cursor, c: Byte): Cursor {
    if c == '\n' then Cursor(0, at.row + 1)
    else if c == '\r' then Cursor(0, at.row)
    else if Printable(c) then (if at.x + 1 == VGA_WIDTH then Cursor(0, at.row + 1) else Cursor(at.x + 1, at.row))
    else at
  }

  function CursorAfter(log: seq<Event>): (at: Cursor)
    ensures at.x < VGA_WIDTH
  {
    if log == [] then Cursor(0, 0) else Advance(CursorAfter(log[..|log| - 1]), log[|log| - 1].c)
  }

  function Max(a: nat, b: nat): nat {
    if a < b then b else a
  }

  /** Rows that exist: the first 25, and each further one from when the cursor reaches it. */
  function Rows(log: seq<Event>): nat {
    Max(VGA_HEIGHT, CursorAfter(log).row + 1)
  }

  /** What stands in a cell of the log: the last character written there, and before that a blank in the
      colour in force when the row came into being. */
  function CellAfter(log: seq<Event>, row: nat, x: nat): nat {
    if log == [] then MakeEntry(' ', MakeColor(COLOR_WHITE, COLOR_BLACK))
    else
      var before, e := log[..|log| - 1], log[|log| - 1];
      if CursorAfter(before) == Cursor(x, row) && Printable(e.c) then MakeEntry(e.c, e.color)
      else if Rows(before) <= row < Rows(log) then MakeEntry(' ', e.color)
      else CellAfter(before, row, x)
  }

  /** The first row of the log still on the screen. */
  function Top(log: seq<Event>): nat {
    Rows(log) - VGA_HEIGHT
  }

  lemma CursorStep(log: seq<Event>, e: Event)
    ensures CursorAfter(log + [e]) == Advance(CursorAfter(log), e.c)
    ensures Rows(log) <= Rows(log + [e]) <= Rows(log) + 1
    ensures Rows(log + [e]) > Rows(log) ==> CursorAfter(log + [e]).x == 0
  {
    assert (log + [e])[..|log|] == log;
  }

  /** A row that exists changes in the cell under the cursor only; a new row is blank. */
  lemma CellStep(log: seq<Event>, e: Event, row: nat, x: nat)
    requires row < Rows(log + [e])
    ensures CellAfter(log + [e], row, x) ==
              if CursorAfter(log) == Cursor(x, row) && Printable(e.c) then MakeEntry(e.c, e.color)
              else if row < Rows(log) then CellAfter(log, row, x)
              else MakeEntry(' ', e.color)
  {
    assert (log + [e])[..|log|] == log;
  }

  function Events(data: seq<Byte>, color: Color): (es: seq<Event>)
    ensures |es| == |data|
  {
    seq(|data|, i requires 0 <= i < |data| => Event(data[i], color))
  }

  lemma EventsLast(data: seq<Byte>, color: Color)
    requires data != []
    ensures var es, n := Events(data, color), |data| - 1;
            es[..n] == Events(data[..n], color) && es[n] == Event(data[n], color)
  {
  }

  // ----- What each byte does to the log -----

  /** The low byte of an entry is the character and the high byte, below 0x80, the colour; the low half of a colour
      is that of the character and the high half that of the background. */
  lemma EntryParts(c: Byte, color: Color, fg: nat, bg: nat)
    requires fg < 16 && bg < 16
    ensures MakeEntry(c, color) % 256 == c as int
    ensures MakeEntry(c, color) / 256 == if c as int < 128 then color else 255
    ensures MakeColor(fg, bg) % 16 == fg && MakeColor(fg, bg) / 16 == bg
  {
  }

  /** Cells of rows that exist are the same after further bytes. */
  ghost predicate CellsKept(log: seq<Event>, longer: seq<Event>) {
    forall row: nat, x: nat :: row < Rows(log) ==> CellAfter(longer, row, x) == CellAfter(log, row, x)
  }

  /** A newline goes to the beginning of the next row, which is blank if it is new. */
  lemma NewlineWritten(log: seq<Event>, color: Color)
    ensures var longer := log + [Event('\n', color)];
            && CursorAfter(longer) == Cursor(0, CursorAfter(log).row + 1) && CellsKept(log, longer)
            && forall row: nat, x: nat :: Rows(log) <= row < Rows(longer) ==> CellAfter(longer, row, x) == 32 + 256 * color
  {
    var e := Event('\n', color);
    CursorStep(log, e);
    forall row: nat, x: nat | row < Rows(log + [e])
      ensures CellAfter(log + [e], row, x) == if row < Rows(log) then CellAfter(log, row, x) else 32 + 256 * color
    {
      CellStep(log, e, row, x);
    }
  }

  /** A carriage return goes to the beginning of its row, and changes no cell. */
  lemma ReturnWritten(log: seq<Event>, color: Color)
    ensures var longer := log + [Event('\r', color)];
            && CursorAfter(longer) == Cursor(0, CursorAfter(log).row) && Rows(longer) == Rows(log) && CellsKept(log, longer)
  {
    var e := Event('\r', color);
    CursorStep(log, e);
    forall row: nat, x: nat | row < Rows(log)
      ensures CellAfter(log + [e], row, x) == CellAfter(log, row, x)
    {
      CellStep(log, e, row, x);
    }
  }

  /** Other bytes below the blank, and those from 0x80 on, change neither the cursor nor a cell. */
  lemma OthersIgnored(log: seq<Event>, c: Byte, color: Color)
    requires c != '\n' && c != '\r' && (c as int < 32 || c as int >= 128)
    ensures var longer := log + [Event(c, color)];
            && CursorAfter(longer) == CursorAfter(log) && Rows(longer) == Rows(log) && CellsKept(log, longer)
  {
    var e := Event(c, color);
    CursorStep(log, e);
    forall row: nat, x: nat | row < Rows(log)
      ensures CellAfter(log + [e], row, x) == CellAfter(log, row, x)
    {
      CellStep(log, e, row, x);
    }
  }

  /** A row that comes into being is blank, in the colour in force. */
  lemma NewRowBlank(log: seq<Event>, c: Byte, color: Color, row: nat, x: nat)
    requires Rows(log) <= row < Rows(log + [Event(c, color)])
    ensures CellAfter(log + [Event(c, color)], row, x) == 32 + 256 * color
  {
    CursorStep(log, Event(c, color));
    CellStep(log, Event(c, color), row, x);
  }

  // ----- Printable lines -----

  ghost predicate PrintableText(s: seq<Byte>) {
    forall i :: 0 <= i < |s| ==> 32 <= s[i] as int < 128
  }

  /** From the n-th place of a line that begins in the given row, the next character goes to the n-th place. */
  lemma CharacterWritten(log: seq<Event>, e: Event, row: nat, n: nat)
    requires 32 <= e.c as int < 128 && CursorAfter(log) == Cursor(n % 80, row + n / 80)
    ensures CursorAfter(log + [e]) == Cursor((n + 1) % 80, row + (n + 1) / 80)
    ensures CellAfter(log + [e], row + n / 80, n % 80) == e.c as int + 256 * e.color
  {
    CursorStep(log, e);
    CellStep(log, e, row + n / 80, n % 80);
  }

  lemma PlacesDiffer(i: nat, n: nat)
    requires i < n
    ensures i / 80 <= n / 80 && (i / 80 == n / 80 ==> i % 80 != n % 80)
  {
  }

  /** It leaves the places before and the rows above as they are. */
  lemma EarlierKept(log: seq<Event>, e: Event, row: nat, n: nat, i: nat)
    requires 32 <= e.c as int < 128 && CursorAfter(log) == Cursor(n % 80, row + n / 80) && i < n
    ensures CellAfter(log + [e], row + i / 80, i % 80) == CellAfter(log, row + i / 80, i % 80)
  {
    CursorStep(log, e);
    PlacesDiffer(i, n);
    CellStep(log, e, row + i / 80, i % 80);
  }

  lemma AboveKept(log: seq<Event>, e: Event, longer: seq<Event>, row: nat, n: nat, r: nat, x: nat)
    requires 32 <= e.c as int < 128 && CursorAfter(log) == Cursor(n % 80, row + n / 80) && r < row && longer == log + [e]
    ensures CellAfter(longer, r, x) == CellAfter(log, r, x)
  {
    CursorStep(log, e);
    CellStep(log, e, r, x);
  }

  lemma LineLast(log: seq<Event>, line: seq<Byte>, color: Color)
    requires line != []
    ensures var n := |line| - 1;
            log + Events(line, color) == log + Events(line[..n], color) + [Event(line[n], color)]
  {
    EventsLast(line, color);
  }

  /** A line written from the beginning of a row fills the rows from there, 80 characters to a row. */
  lemma {:induction false} LineCursor(log: seq<Event>, line: seq<Byte>, color: Color, row: nat)
    requires PrintableText(line) && CursorAfter(log) == Cursor(0, row)
    ensures CursorAfter(log + Events(line, color)) == Cursor(|line| % 80, row + |line| / 80)
    decreases |line|
  {
    if line == [] {
      assert log + Events(line, color) == log;
    } else {
      var n := |line| - 1;
      LineCursor(log, line[..n], color, row);
      LineLast(log, line, color);
      CharacterWritten(log + Events(line[..n], color), Event(line[n], color), row, n);
    }
  }

  lemma {:induction false} LineCell(log: seq<Event>, line: seq<Byte>, color: Color, row: nat, i: nat)
    requires PrintableText(line) && CursorAfter(log) == Cursor(0, row) && i < |line|
    ensures CellAfter(log + Events(line, color), row + i / 80, i % 80) == line[i] as int + 256 * color
    decreases |line|
  {
    var n := |line| - 1;
    var before, e := log + Events(line[..n], color), Event(line[n], color);
    LineCursor(log, line[..n], color, row);
    LineLast(log, line, color);
    if i == n {
      CharacterWritten(before, e, row, n);
    } else {
      LineCell(log, line[..n], color, row, i);
      EarlierKept(before, e, row, n, i);
    }
  }

  lemma LineCellAt(log: seq<Event>, line: seq<Byte>, color: Color, row: nat, i: nat, longer: seq<Event>, r: nat, x: nat)
    requires PrintableText(line) && CursorAfter(log) == Cursor(0, row) && i < |line|
    requires longer == log + Events(line, color) && r == row + i / 80 && x == i % 80
    ensures CellAfter(longer, r, x) == line[i] as int + 256 * color
  {
    LineCell(log, line, color, row, i);
  }

  /** The rows above stay as they are. */
  lemma {:induction false} LineBelow(log: seq<Event>, line: seq<Byte>, color: Color, row: nat, r: nat, x: nat)
    requires PrintableText(line) && CursorAfter(log) == Cursor(0, row) && r < row
    ensures CellAfter(log + Events(line, color), r, x) == CellAfter(log, r, x)
    decreases |line|
  {
    if line == [] {
      assert log + Events(line, color) == log;
    } else {
      var n := |line| - 1;
      var before, e, longer := log + Events(line[..n], color), Event(line[n], color), log + Events(line, color);
      LineBelow(log, line[..n], color, row, r, x);
      LineCursor(log, line[..n], color, row);
      LineLast(log, line, color);
      AboveKept(before, e, longer, row, n, r, x);
    }
  }

  /** Text without control characters fills the rows from the top. */
  lemma TextWraps(data: seq<Byte>, color: Color)
    requires PrintableText(data)
    ensures CursorAfter(Events(data, color)) == Cursor(|data| % 80, |data| / 80)
    ensures forall i :: 0 <= i < |data| ==> CellAfter(Events(data, color), i / 80, i % 80) == data[i] as int + 256 * color
  {
    var es := Events(data, color);
    assert [] + es == es;
    LineCursor([], data, color, 0);
    forall i | 0 <= i < |data|
      ensures CellAfter(es, i / 80, i % 80) == data[i] as int + 256 * color
    {
      LineCellAt([], data, color, 0, i, es, i / 80, i % 80);
    }
  }

  /** Lines with newlines between them. */
  function Joined(lines: seq<seq<Byte>>): seq<Byte>
    requires lines != []
  {
    var n := |lines| - 1;
    if n == 0 then lines[0] else Joined(lines[..n]) + "\n" + lines[n]
  }

  /** The row that line k begins in: the one below the row that the line before it ends in. */
  function LineRow(lines: seq<seq<Byte>>, k: nat): nat
    requires k < |lines|
  {
    if k == 0 then 0 else LineRow(lines, k - 1) + |lines[k - 1]| / 80 + 1
  }

  lemma {:induction false} LineRowSame(lines: seq<seq<Byte>>, n: nat, k: nat)
    requires k < n <= |lines|
    ensures LineRow(lines[..n], k) == LineRow(lines, k)
  {
    if k > 0 {
      LineRowSame(lines, n, k - 1);
    }
  }

  /** Character j of line k is in its place. */
  ghost predicate InItsPlace(log: seq<Event>, lines: seq<seq<Byte>>, color: Color, k: nat, j: nat)
    requires k < |lines| && j < |lines[k]|
  {
    CellAfter(log, LineRow(lines, k) + j / 80, j % 80) == lines[k][j] as int + 256 * color
  }

  lemma PlaceAt(log: seq<Event>, lines: seq<seq<Byte>>, color: Color, k: nat, j: nat, r: nat, x: nat)
    requires k < |lines| && j < |lines[k]| && r == LineRow(lines, k) + j / 80 && x == j % 80
    ensures InItsPlace(log, lines, color, k, j) <==> CellAfter(log, r, x) == lines[k][j] as int + 256 * color
  {
  }

  lemma {:induction false} LineRowGrows(lines: seq<seq<Byte>>, k: nat, n: nat)
    requires k < n < |lines|
    ensures LineRow(lines, k) + |lines[k]| / 80 < LineRow(lines, n)
  {
    if k < n - 1 {
      LineRowGrows(lines, k, n - 1);
    }
  }

  lemma EventsJoin(s: seq<Byte>, c: Byte, r: seq<Byte>, color: Color)
    ensures Events(s + [c] + r, color) == Events(s, color) + [Event(c, color)] + Events(r, color)
  {
  }

  ghost predicate PrintableLines(lines: seq<seq<Byte>>) {
    forall k :: 0 <= k < |lines| ==> PrintableText(lines[k])
  }

  /** The log of all lines but the last, of the newline too, and of all. */
  lemma LastLine(lines: seq<seq<Byte>>, color: Color) returns (first: seq<Event>, broken: seq<Event>)
    requires |lines| > 1
    ensures var n := |lines| - 1;
            && first == Events(Joined(lines[..n]), color) && broken == first + [Event('\n', color)]
            && Events(Joined(lines), color) == broken + Events(lines[n], color)
  {
    var n := |lines| - 1;
    first := Events(Joined(lines[..n]), color);
    broken := first + [Event('\n', color)];
    EventsJoin(Joined(lines[..n]), '\n', lines[n], color);
  }

  lemma {:induction false} LinesCursor(lines: seq<seq<Byte>>, color: Color)
    requires lines != [] && PrintableLines(lines)
    ensures var n := |lines| - 1;
            CursorAfter(Events(Joined(lines), color)) == Cursor(|lines[n]| % 80, LineRow(lines, n) + |lines[n]| / 80)
    decreases |lines|
  {
    var n := |lines| - 1;
    if n == 0 {
      TextWraps(lines[0], color);
    } else {
      var first, broken := LastLine(lines, color);
      LinesCursor(lines[..n], color);
      LineRowSame(lines, n, n - 1);
      NewlineWritten(first, color);
      LineCursor(broken, lines[n], color, LineRow(lines, n));
    }
  }

  /** Where the last line begins. */
  lemma LastLineBegins(lines: seq<seq<Byte>>, color: Color) returns (first: seq<Event>, broken: seq<Event>)
    requires |lines| > 1 && PrintableLines(lines)
    ensures var n := |lines| - 1;
            && first == Events(Joined(lines[..n]), color) && CellsKept(first, broken)
            && Events(Joined(lines), color) == broken + Events(lines[n], color)
            && Rows(first) >= LineRow(lines, n) && CursorAfter(broken) == Cursor(0, LineRow(lines, n))
  {
    var n := |lines| - 1;
    first, broken := LastLine(lines, color);
    LinesCursor(lines[..n], color);
    LineRowSame(lines, n, n - 1);
    NewlineWritten(first, color);
  }

  lemma {:induction false} LineInItsPlace(lines: seq<seq<Byte>>, color: Color, k: nat, j: nat)
    requires PrintableLines(lines) && k < |lines| && j < |lines[k]|
    ensures InItsPlace(Events(Joined(lines), color), lines, color, k, j)
    decreases |lines|
  {
    var n := |lines| - 1;
    var log, r, x := Events(Joined(lines), color), LineRow(lines, k) + j / 80, j % 80;
    PlaceAt(log, lines, color, k, j, r, x);
    if n == 0 {
      assert log == [] + Events(lines[0], color);
      LineCellAt([], lines[0], color, 0, j, log, r, x);
    } else {
      var first, broken := LastLineBegins(lines, color);
      if k == n {
        LineCellAt(broken, lines[n], color, LineRow(lines, n), j, log, r, x);
      } else {
        LineInItsPlace(lines[..n], color, k, j);
        EarlierRow(lines, n, k, j);
        LineBelow(broken, lines[n], color, LineRow(lines, n), r, x);
        EarlierLineKept(first, broken, log, lines, color, n, k, j, r, x);
      }
    }
  }

  lemma EarlierRow(lines: seq<seq<Byte>>, n: nat, k: nat, j: nat)
    requires k < n < |lines| && j < |lines[k]|
    ensures LineRow(lines, k) + j / 80 < LineRow(lines, n)
  {
    LineRowGrows(lines, k, n);
    assert j / 80 <= |lines[k]| / 80;
  }

  lemma EarlierLineKept(first: seq<Event>, broken: seq<Event>, log: seq<Event>, lines: seq<seq<Byte>>, color: Color,
                        n: nat, k: nat, j: nat, r: nat, x: nat)
    requires k < n < |lines| && j < |lines[k]| && InItsPlace(first, lines[..n], color, k, j)
    requires r == LineRow(lines, k) + j / 80 && x == j % 80
    requires CellsKept(first, broken) && r < Rows(first) && CellAfter(log, r, x) == CellAfter(broken, r, x)
    ensures InItsPlace(log, lines, color, k, j)
  {
    LineRowSame(lines, n, k);
    PlaceAt(first, lines[..n], color, k, j, r, x);
    PlaceAt(log, lines, color, k, j, r, x);
  }

  /** Printable lines joined by newlines: each line begins at the left of the row below the one where the line
      before it ended, and each of its characters is in its place. */
  lemma LinesLaidOut(lines: seq<seq<Byte>>, color: Color)
    requires lines != [] && PrintableLines(lines)
    ensures var log, n := Events(Joined(lines), color), |lines| - 1;
            && CursorAfter(log) == Cursor(|lines[n]| % 80, LineRow(lines, n) + |lines[n]| / 80)
            && forall k: nat, j: nat :: k < |lines| && j < |lines[k]| ==> InItsPlace(log, lines, color, k, j)
  {
    LinesCursor(lines, color);
    forall k: nat, j: nat | k < |lines| && j < |lines[k]|
      ensures InItsPlace(Events(Joined(lines), color), lines, color, k, j)
    {
      LineInItsPlace(lines, color, k, j);
    }
  }

  // ----- Screens as sequences of cells -----

  ghost predicate ShownBy(screen: seq<nat>, log: seq<Event>, top: nat) {
    |screen| == CELLS && forall i :: 0 <= i < CELLS ==> screen[i] == CellAfter(log, top + i / VGA_WIDTH, i % VGA_WIDTH)
  }

  /** With the cell under the cursor replaced, where the byte is printable, the rows show the longer log. */
  lemma Written(log: seq<Event>, e: Event, before: seq<nat>, after: seq<nat>, x: nat, y: nat)
    requires ShownBy(before, log, Top(log)) && |after| == CELLS && CursorAfter(log) == Cursor(x, Top(log) + y)
    requires forall i :: 0 <= i < CELLS ==>
               after[i] == if Printable(e.c) && i / VGA_WIDTH == y && i % VGA_WIDTH == x then MakeEntry(e.c, e.color) else before[i]
    ensures ShownBy(after, log + [e], Top(log))
  {
    CursorStep(log, e);
    forall i | 0 <= i < CELLS
      ensures after[i] == CellAfter(log + [e], Top(log) + i / VGA_WIDTH, i % VGA_WIDTH)
    {
      CellStep(log, e, Top(log) + i / VGA_WIDTH, i % VGA_WIDTH);
    }
  }

  /** With the rows moved up and a blank one below, the screen shows the log from one row further down. */
  lemma Scrolled(log: seq<Event>, e: Event, longer: seq<Event>, before: seq<nat>, after: seq<nat>, top: nat)
    requires longer == log + [e] && Rows(longer) == Rows(log) + 1 && top == Top(longer)
    requires ShownBy(before, longer, Top(log)) && |after| == CELLS
    requires forall i :: 0 <= i < CELLS - VGA_WIDTH ==> after[i] == before[i + VGA_WIDTH]
    requires forall i :: CELLS - VGA_WIDTH <= i < CELLS ==> after[i] == MakeEntry(' ', e.color)
    ensures ShownBy(after, longer, top)
  {
    forall i | 0 <= i < CELLS
      ensures after[i] == CellAfter(longer, top + i / VGA_WIDTH, i % VGA_WIDTH)
    {
      if i < CELLS - VGA_WIDTH {
        assert (i + VGA_WIDTH) / VGA_WIDTH == i / VGA_WIDTH + 1 && (i + VGA_WIDTH) % VGA_WIDTH == i % VGA_WIDTH;
        assert after[i] == before[i + VGA_WIDTH];
      } else {
        CellStep(log, e, top + i / VGA_WIDTH, i % VGA_WIDTH);
      }
    }
  }

  // ----- The screen -----

  class Terminal {
    const buf: array<nat>
    var x: nat
    var y: nat
    var color: Color
    ghost var log: seq<Event>

    /** The screen is the last 25 rows of the log, with the cursor in its place. */
    ghost predicate Valid()
      reads this, buf
    {
      && buf.Length == CELLS
      && x < VGA_WIDTH && y < VGA_HEIGHT
      && CursorAfter(log) == Cursor(x, Top(log) + y)
      && ShownBy(buf[..], log, Top(log))
    }

    /** term_init */
    constructor (buf: array<nat>)
      requires buf.Length == CELLS
      modifies buf
      ensures this.buf == buf && Valid() && log == [] && color == 0x0F
      ensures buf.Length == 2000 && forall i :: 0 <= i < 2000 ==> buf[i] == 0x0F20
    {
      this.buf, x, y, log := buf, 0, 0, [];
      color := MakeColor(COLOR_WHITE, COLOR_WHITE);
      new;
      Fill();
      color := MakeColor(COLOR_WHITE, COLOR_BLACK);
      Fill();
    }

    method Fill()
      requires buf.Length == CELLS
      modifies buf
      ensures forall i :: 0 <= i < CELLS ==> buf[i] == MakeEntry(' ', color)
    {
      var row := 0;
      while row < VGA_HEIGHT
        invariant row <= VGA_HEIGHT
        invariant forall i :: 0 <= i < row * VGA_WIDTH ==> buf[i] == MakeEntry(' ', color)
      {
        var column := 0;
        while column < VGA_WIDTH
          invariant column <= VGA_WIDTH
          invariant forall i :: 0 <= i < row * VGA_WIDTH + column ==> buf[i] == MakeEntry(' ', color)
        {
          buf[row * VGA_WIDTH + column] := MakeEntry(' ', color);
          column := column + 1;
        }
        row := row + 1;
      }
    }

    method SetColor(color: Color)
      requires Valid()
      modifies this`color
      ensures Valid() && this.color == color
    {
      this.color := color;
    }

    /** term_scroll */
    method Scroll()
      requires buf.Length == CELLS
      modifies buf, this`x, this`y
      ensures old(y) < VGA_HEIGHT ==> x == old(x) && y == old(y) && buf[..] == old(buf[..])
      ensures old(y) >= VGA_HEIGHT ==> x == 0 && y == VGA_HEIGHT - 1
      ensures old(y) >= VGA_HEIGHT ==>
                && (forall i :: 0 <= i < CELLS - VGA_WIDTH ==> buf[i] == old(buf[i + VGA_WIDTH]))
                && (forall i :: CELLS - VGA_WIDTH <= i < CELLS ==> buf[i] == MakeEntry(' ', color))
    {
      if y >= VGA_HEIGHT {
        var i := 0;
        while i < CELLS - VGA_WIDTH
          invariant i <= CELLS - VGA_WIDTH
          invariant forall j :: 0 <= j < i ==> buf[j] == old(buf[j + VGA_WIDTH])
          invariant forall j :: i <= j < CELLS ==> buf[j] == old(buf[j])
        {
          buf[i] := buf[i + VGA_WIDTH];
          i := i + 1;
        }
        while i < CELLS
          invariant CELLS - VGA_WIDTH <= i <= CELLS
          invariant forall j :: 0 <= j < CELLS - VGA_WIDTH ==> buf[j] == old(buf[j + VGA_WIDTH])
          invariant forall j :: CELLS - VGA_WIDTH <= j < i ==> buf[j] == MakeEntry(' ', color)
        {
          buf[i] := MakeEntry(' ', color);
          i := i + 1;
        }
        x := 0;
        y := VGA_HEIGHT - 1;
      }
    }

    /** term_putentry */
    method PutEntry(c: Byte, color: Color, x: nat, y: nat)
      requires buf.Length == CELLS && x < VGA_WIDTH && y < VGA_HEIGHT
      modifies buf
      ensures forall i :: 0 <= i < CELLS ==>
                buf[i] == if i / VGA_WIDTH == y && i % VGA_WIDTH == x then MakeEntry(c, color) else old(buf[i])
    {
      buf[y * VGA_WIDTH + x] := MakeEntry(c, color);
    }

    /** term_putchar */
    method PutChar(c: Byte)
      requires Valid()
      modifies this, buf
      ensures Valid() && log == old(log) + [Event(c, color)] && color == old(color)
    {
      ghost var e, top := Event(c, color), Top(log);
      CursorStep(log, e);
      Place(c);
      ghost var mid := buf[..];
      log := log + [e];
      Scroll();
      if Top(log) > top {
        assert Top(log) == top + 1;
        Scrolled(old(log), e, log, mid, buf[..], Top(log));
      } else {
        assert buf[..] == mid && Top(log) == top;
      }
    }

    /** The character is put on the screen and the cursor moved, possibly to just below the last row. */
    method Place(c: Byte)
      requires Valid()
      modifies buf, this`x, this`y
      ensures x < VGA_WIDTH && y <= VGA_HEIGHT
      ensures Cursor(x, Top(log) + y) == Advance(CursorAfter(log), c)
      ensures ShownBy(buf[..], log + [Event(c, color)], Top(log))
    {
      if c == '\n' {
        y := y + 1;
        x := 0;
      } else if c == '\r' {
        x := 0;
      } else if c >= ' ' && (c as int) < 0x80 {
        PutEntry(c, color, x, y);
        x := x + 1;
        if x == VGA_WIDTH {
          x := 0;
          y := y + 1;
        }
      }
      Written(log, Event(c, color), old(buf[..]), buf[..], old(x), old(y));
    }

    /** What is left on the screen of printable lines written in one colour to a fresh terminal: the last 25 of
        the rows that they take, if these are more. */
    lemma LinesShown(lines: seq<seq<Byte>>, color: Color)
      requires Valid() && lines != [] && PrintableLines(lines) && log == Events(Joined(lines), color)
      ensures var last := |lines| - 1;
              var end := LineRow(lines, last) + |lines[last]| / 80;
              var top := if end < 25 then 0 else end - 24;
              && buf.Length == 2000 && x == |lines[last]| % 80 && y == end - top
              && forall k: nat, j: nat :: k < |lines| && j < |lines[k]| ==> Displays(lines, color, k, j, top)
    {
      LinesCursor(lines, color);
      TopIs(lines, color);
      forall k: nat, j: nat | k < |lines| && j < |lines[k]|
        ensures Displays(lines, color, k, j, Top(log))
      {
        CharacterShown(lines, color, k, j, LineRow(lines, k) + j / 80, j % 80);
      }
    }

    lemma TopIs(lines: seq<seq<Byte>>, color: Color)
      requires lines != [] && PrintableLines(lines) && log == Events(Joined(lines), color)
      ensures var last := |lines| - 1;
              var end := LineRow(lines, last) + |lines[last]| / 80;
              Top(log) == if end < 25 then 0 else end - 24
    {
      LinesCursor(lines, color);
    }

    /** Character j of line k is there, if its row is on the screen, whose first row is top. */
    ghost predicate Displays(lines: seq<seq<Byte>>, color: Color, k: nat, j: nat, top: nat)
      requires buf.Length == 2000 && k < |lines| && j < |lines[k]|
      reads buf
    {
      var row, column := LineRow(lines, k) + j / 80, j % 80;
      top <= row < top + 25 ==> buf[(row - top) * 80 + column] == lines[k][j] as int + 256 * color
    }

    lemma CharacterShown(lines: seq<seq<Byte>>, color: Color, k: nat, j: nat, row: nat, column: nat)
      requires Valid() && lines != [] && PrintableLines(lines) && log == Events(Joined(lines), color)
      requires k < |lines| && j < |lines[k]| && row == LineRow(lines, k) + j / 80 && column == j % 80
      ensures Displays(lines, color, k, j, Top(log))
    {
      LineInItsPlace(lines, color, k, j);
      PlaceAt(log, lines, color, k, j, row, column);
      CellShown(row, column);
    }

    lemma CellShown(row: nat, column: nat)
      requires Valid() && column < 80
      ensures Top(log) <= row < Top(log) + 25 ==> buf[(row - Top(log)) * 80 + column] == CellAfter(log, row, column)
    {
      if Top(log) <= row < Top(log) + 25 {
        var i := (row - Top(log)) * 80 + column;
        assert i / 80 == row - Top(log) && i % 80 == column;
        assert buf[..][i] == buf[i];
      }
    }

    /** term_write */
    method Write(data: seq<Byte>)
      requires Valid()
      modifies this, buf
      ensures Valid() && log == old(log) + Events(data, color) && color == old(color)
    {
      var i := 0;
      while i < |data|
        invariant i <= |data| && Valid() && color == old(color)
        invariant log == old(log) + Events(data, color)[..i]
      {
        PutChar(data[i]);
        i := i + 1;
      }
    }
  }
}
