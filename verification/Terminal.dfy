/** The text terminal: an 80x25 buffer that scrolls in place, as a window on an unbounded log. */
module Terminals {

  type u8 = x: int | 0 <= x < 0x100
  type u16 = x: int | 0 <= x < 0x1_0000

  const VGA_WIDTH: nat := 80
  const VGA_HEIGHT: nat := 25
  const NEWLINE: u8 := 10
  const SPACE: u8 := 32
  const LIGHT_GREY: u8 := 7
  const BLACK: u8 := 0

  function VgaEntryColor(fg: u8, bg: u8): u8
    requires fg < 16 && bg < 16
  {
    fg + 16 * bg
  }

  function VgaEntry(uc: u8, color: u8): u16 {
    uc + 256 * color
  }

  const DEFAULT_COLOR: u8 := VgaEntryColor(LIGHT_GREY, BLACK)

  /** The low byte of a cell is its character and the high byte its color. */
  predicate Displays(cell: u16, c: u8, color: u8) {
    cell % 256 == c && cell / 256 == color
  }

  lemma EntryParts(c: u8, color: u8)
    ensures Displays(VgaEntry(c, color), c, color)
  {
  }

  /** What one character does to an 80x25 screen with its cursor. The cell under the cursor shows
      it, unless it is a newline. The line ends there or after 80 cells; on the last row this
      moves everything one row up and clears that row. */
  ghost predicate PutLaw(screen: seq<u16>, row: nat, column: nat, color: u8, c: u8,
                         screen': seq<u16>, row': nat, column': nat)
  {
    var ends := c == 10 || column == 79;
    var up := ends && row == 24;
    && |screen| == |screen'| == 2000
    && column' == (if ends then 0 else column + 1) && row' == (if ends && row < 24 then row + 1 else row)
    && forall i :: 0 <= i < 2000 ==>
         var j := if up then i + 80 else i;
         if j >= 2000 then Displays(screen'[i], 32, color)
         else if j == row * 80 + column && c != 10 then Displays(screen'[i], c, color)
         else screen'[i] == screen[j]
  }

  // ----- the log

  datatype Op = PutChar(c: u8) | SetColor(color: u8)

  /** Why a line ended: it has not yet, it was full, or a newline came. */
  datatype End = Open | Full | Newline

  /** A line of the log: what was written on it, what the rest of it was cleared with, and why it
      ended. */
  datatype Line = Line(cells: seq<u16>, blank: u16, end: End)

  /** All the lines ever written, the open one last, and the current color. */
  datatype Log = Log(lines: seq<Line>, color: u8)

  const EMPTY_LOG: Log := Log([Line([], VgaEntry(SPACE, DEFAULT_COLOR), Open)], DEFAULT_COLOR)

  /** Ends the open line and opens a new one. The lines of the first screen were cleared at
      start-up, the later ones are cleared, in the color of the moment, when they come up. */
  function NewLine(log: Log, end: End): Log
    requires log.lines != []
  {
    var n := |log.lines| - 1;
    var blank := VgaEntry(SPACE, if |log.lines| < VGA_HEIGHT then DEFAULT_COLOR else log.color);
    log.(lines := log.lines[n := log.lines[n].(end := end)] + [Line([], blank, Open)])
  }

  function Append(log: Log, c: u8): Log
    requires log.lines != []
  {
    var n := |log.lines| - 1;
    var line := log.lines[n];
    log.(lines := log.lines[n := line.(cells := line.cells + [VgaEntry(c, log.color)])])
  }

  /** Writes one character: lines end at a newline or when they are full. */
  function Write(log: Log, op: Op): Log
    requires log.lines != []
  {
    match op
    case SetColor(color) => log.(color := color)
    case PutChar(c) =>
      if c == NEWLINE then NewLine(log, Newline)
      else
        var l := Append(log, c);
        if |l.lines[|l.lines| - 1].cells| >= VGA_WIDTH then NewLine(l, Full) else l
  }

  /** The log of a whole session. */
  function LogOf(ops: seq<Op>): (log: Log)
    ensures log.lines != []
  {
    if ops == [] then EMPTY_LOG else Write(LogOf(ops[..|ops| - 1]), ops[|ops| - 1])
  }

  /** A line that has ended is full, or shorter and ended by a newline. */
  ghost predicate Ended(line: Line) {
    (line.end == Full && |line.cells| == VGA_WIDTH) || (line.end == Newline && |line.cells| < VGA_WIDTH)
  }

  /** All lines but the last have ended, and the last one is open and has room for a character. */
  ghost predicate Fits(log: Log) {
    && log.lines != []
    && (forall i :: 0 <= i < |log.lines| - 1 ==> Ended(log.lines[i]))
    && log.lines[|log.lines| - 1].end == Open && |log.lines[|log.lines| - 1].cells| < VGA_WIDTH
    && (forall i :: 0 <= i < |log.lines| ==> IsBlank(log.lines[i].blank))
  }

  /** A space, in whatever color. */
  predicate IsBlank(cell: u16) {
    cell % 256 == SPACE
  }

  lemma WriteFits(log: Log, op: Op)
    requires Fits(log)
    ensures Fits(Write(log, op))
  {
    if op.PutChar? {
      if op.c == NEWLINE {
        NewLineFits(log, Newline);
      } else {
        var l := Append(log, op.c);
        if |l.lines[|l.lines| - 1].cells| >= VGA_WIDTH {
          NewLineFits(l, Full);
        }
      }
    }
  }

  /** Ending the open line in the way its length demands. */
  lemma NewLineFits(log: Log, end: End)
    requires log.lines != [] && Ended(log.lines[|log.lines| - 1].(end := end))
    requires forall i :: 0 <= i < |log.lines| - 1 ==> Ended(log.lines[i])
    requires forall i :: 0 <= i < |log.lines| ==> IsBlank(log.lines[i].blank)
    ensures Fits(NewLine(log, end))
  {
  }

  /** The cell at row `r` and column `x` of the log, which is blank below the last line. */
  function CellAt(log: Log, r: nat, x: nat): u16
  {
    if r >= |log.lines| then VgaEntry(SPACE, DEFAULT_COLOR)
    else if x < |log.lines[r].cells| then log.lines[r].cells[x]
    else log.lines[r].blank
  }

  /** The first row of the log that is on the screen. */
  function Base(log: Log): nat {
    if |log.lines| <= VGA_HEIGHT then 0 else |log.lines| - VGA_HEIGHT
  }

  /** What the cell at index `i` of the screen shows when the screen starts at row `base`. */
  function Shown(log: Log, base: nat, i: nat): u16 {
    CellAt(log, base + i / VGA_WIDTH, i % VGA_WIDTH)
  }

  // ----- the screen as a value

  /** The rows moved up by one, and a cleared last row. */
  ghost predicate Scrolled(screen: seq<u16>, color: u8, screen': seq<u16>) {
    && |screen| == |screen'| == VGA_WIDTH * VGA_HEIGHT
    && forall i :: 0 <= i < |screen| ==>
         screen'[i] == if i + VGA_WIDTH < |screen| then screen[i + VGA_WIDTH] else VgaEntry(SPACE, color)
  }

  /** The cursor has moved to the next row, or has stayed on the last one with everything else
      moved up. */
  ghost predicate RowOpened(screen: seq<u16>, row: nat, color: u8, screen': seq<u16>, row': nat) {
    if row + 1 < VGA_HEIGHT then row' == row + 1 && screen' == screen
    else row' == VGA_HEIGHT - 1 && Scrolled(screen, color, screen')
  }

  lemma PutPlain(screen: seq<u16>, row: nat, column: nat, color: u8, c: u8)
    requires |screen| == 2000 && row < 25 && column < 79 && c != 10
    ensures PutLaw(screen, row, column, color, c, screen[row * 80 + column := VgaEntry(c, color)], row, column + 1)
  {
    EntryParts(c, color);
  }

  lemma PutBreak(screen: seq<u16>, row: nat, column: nat, color: u8, screen': seq<u16>, row': nat)
    requires |screen| == 2000 && row < 25 && column < 80 && RowOpened(screen, row, color, screen', row')
    ensures PutLaw(screen, row, column, color, 10, screen', row', 0)
  {
    EntryParts(SPACE, color);
  }

  lemma PutFull(screen: seq<u16>, row: nat, color: u8, c: u8, screen': seq<u16>, row': nat)
    requires |screen| == 2000 && row < 25 && c != 10
    requires RowOpened(screen[row * 80 + 79 := VgaEntry(c, color)], row, color, screen', row')
    ensures PutLaw(screen, row, 79, color, c, screen', row', 0)
  {
    EntryParts(c, color);
    EntryParts(SPACE, color);
  }

  // ----- the terminal

  class Terminal {
    var row: nat
    var column: nat
    var color: u8
    const buffer: array<u16>
    ghost var ops: seq<Op>

    /** The buffer shows the given window of the log. */
    ghost predicate Shows(l: Log, base: nat)
      reads buffer
    {
      && buffer.Length == VGA_WIDTH * VGA_HEIGHT
      && forall i :: 0 <= i < buffer.Length ==> buffer[i] == Shown(l, base, i)
    }

    /** The buffer is the last 25 rows of the log, and the cursor is on its last line. */
    ghost predicate Window(l: Log)
      reads this, buffer
    {
      && l.lines != [] && color == l.color && row == |l.lines| - 1 - Base(l)
      && Shows(l, Base(l))
    }

    /** What is on the screen is what the session has written, and the cursor is at its end. */
    ghost predicate Valid()
      reads this, buffer
    {
      && Window(LogOf(ops)) && Fits(LogOf(ops))
      && column == var lines := LogOf(ops).lines; |lines[|lines| - 1].cells|
    }

    constructor (buffer: array<u16>)
      requires buffer.Length == VGA_WIDTH * VGA_HEIGHT
      modifies buffer
      ensures Valid() && ops == [] && this.buffer == buffer
      ensures row == column == 0 && color == 7
      ensures forall i :: 0 <= i < buffer.Length ==> Displays(buffer[i], 32, 7)
    {
      this.buffer := buffer;
      row, column, color, ops := 0, 0, DEFAULT_COLOR, [];
      new;
      Fill();
      EntryParts(SPACE, color);
    }

    method Fill()
      requires buffer.Length == VGA_WIDTH * VGA_HEIGHT
      modifies buffer
      ensures forall i :: 0 <= i < buffer.Length ==> buffer[i] == VgaEntry(SPACE, color)
    {
      for y := 0 to VGA_HEIGHT
        invariant forall i :: 0 <= i < y * VGA_WIDTH ==> buffer[i] == VgaEntry(SPACE, color)
      {
        for x := 0 to VGA_WIDTH
          invariant forall i :: 0 <= i < y * VGA_WIDTH + x ==> buffer[i] == VgaEntry(SPACE, color)
        {
          buffer[y * VGA_WIDTH + x] := VgaEntry(SPACE, color);
        }
      }
    }

    method ChangeColor(c: u8)
      requires Valid()
      modifies this
      ensures Valid() && ops == old(ops) + [SetColor(c)]
      ensures color == c && row == old(row) && column == old(column)
    {
      ghost var l, m := LogOf(ops), LogOf(ops + [SetColor(c)]);
      assert m == l.(color := c) by {
        LogExtend(ops, SetColor(c));
      }
      assert forall i :: 0 <= i < buffer.Length ==> Shown(m, Base(l), i) == Shown(l, Base(l), i);
      color := c;
      ops := ops + [SetColor(c)];
      assert Window(m);
    }

    /** Writes one cell; an index outside the buffer is refused. */
    method PutEntryAt(c: u8, color: u8, x: nat, y: nat) returns (ok: bool)
      requires buffer.Length == VGA_WIDTH * VGA_HEIGHT
      modifies buffer
      ensures ok <==> y * VGA_WIDTH + x < buffer.Length
      ensures ok ==> Displays(buffer[y * VGA_WIDTH + x], c, color)
      ensures forall i :: 0 <= i < buffer.Length ==>
                buffer[i] == if i == y * VGA_WIDTH + x then VgaEntry(c, color) else old(buffer[i])
    {
      var index := y * VGA_WIDTH + x;
      ok := index <= VGA_WIDTH * VGA_HEIGHT - 1;
      if ok {
        EntryParts(c, color);
        buffer[index] := VgaEntry(c, color);
      }
    }

    /** Copies every row one up, and clears the last one. */
    method Scroll()
      requires buffer.Length == VGA_WIDTH * VGA_HEIGHT
      modifies buffer
      ensures Scrolled(old(buffer[..]), color, buffer[..])
    {
      var last := (VGA_HEIGHT - 1) * VGA_WIDTH;
      for i := 0 to last
        invariant forall j :: 0 <= j < i ==> buffer[j] == old(buffer[j + VGA_WIDTH])
        invariant forall j :: i <= j < buffer.Length ==> buffer[j] == old(buffer[j])
      {
        var j := i + VGA_WIDTH;
        buffer[i] := buffer[j];
      }
      for i := last to VGA_HEIGHT * VGA_WIDTH
        invariant forall j :: 0 <= j < last ==> buffer[j] == old(buffer[j + VGA_WIDTH])
        invariant forall j :: last <= j < i ==> buffer[j] == VgaEntry(SPACE, color)
      {
        buffer[i] := VgaEntry(SPACE, color);
      }
    }

    /** Moves the cursor to the start of the next row, scrolling at the end of the screen. */
    method OpenRow()
      requires buffer.Length == VGA_WIDTH * VGA_HEIGHT && row < VGA_HEIGHT
      modifies this`row, this`column, buffer
      ensures column == 0 && RowOpened(old(buffer[..]), old(row), color, buffer[..], row)
    {
      column := 0;
      row := row + 1;
      if row >= VGA_HEIGHT {
        Scroll();
        row := VGA_HEIGHT - 1;
      }
    }

    method OpenLine(ghost l: Log, ghost end: End)
      requires Window(l)
      modifies this`row, this`column, buffer
      ensures Window(NewLine(l, end)) && column == 0
      ensures RowOpened(old(buffer[..]), old(row), color, buffer[..], row)
    {
      ghost var screen := buffer[..];
      OpenRow();
      forall i | 0 <= i < buffer.Length
        ensures buffer[i] == Shown(NewLine(l, end), Base(NewLine(l, end)), i)
      {
        NewLineShows(l, end, screen, buffer[..], row, i);
      }
    }

    /** Writes at the cursor. The index check never fails. */
    method PutCell(c: u8, ghost l: Log)
      requires Window(l) && Fits(l) && column == |l.lines[|l.lines| - 1].cells|
      modifies this`column, buffer
      ensures Window(Append(l, c)) && column == old(column) + 1
      ensures row * VGA_WIDTH + old(column) < buffer.Length
      ensures buffer[..] == old(buffer[..])[row * VGA_WIDTH + old(column) := VgaEntry(c, color)]
    {
      var ok := PutEntryAt(c, color, column, row);
      assert ok;
      forall i | 0 <= i < buffer.Length
        ensures buffer[i] == Shown(Append(l, c), Base(l), i)
      {
        AppendShows(l, c, i);
      }
      column := column + 1;
    }

    /** Writes one character at the cursor, scrolling when needed. */
    method Put(c: u8)
      requires Valid()
      modifies this, buffer
      ensures Valid() && ops == old(ops) + [PutChar(c)] && color == old(color)
      ensures PutLaw(old(buffer[..]), old(row), old(column), color, c, buffer[..], row, column)
    {
      ghost var l, next := LogOf(ops), ops + [PutChar(c)];
      ghost var m := Write(l, PutChar(c));
      assert LogOf(next) == m by {
        LogExtend(ops, PutChar(c));
      }
      assert Fits(m) by {
        WriteFits(l, PutChar(c));
      }
      PutOn(c, l);
      ops := next;
    }

    method PutOn(c: u8, ghost l: Log)
      requires Window(l) && Fits(l) && column == |l.lines[|l.lines| - 1].cells|
      modifies this`row, this`column, buffer
      ensures Window(Write(l, PutChar(c)))
      ensures column == var lines := Write(l, PutChar(c)).lines; |lines[|lines| - 1].cells|
      ensures PutLaw(old(buffer[..]), old(row), old(column), color, c, buffer[..], row, column)
    {
      ghost var screen, y, x := buffer[..], row, column;
      if c == NEWLINE {
        OpenLine(l, Newline);
        PutBreak(screen, y, x, color, buffer[..], row);
      } else {
        PutCell(c, l);
        if column >= VGA_WIDTH {
          OpenLine(Append(l, c), Full);
          PutFull(screen, y, color, c, buffer[..], row);
        } else {
          PutPlain(screen, y, x, color, c);
        }
      }
    }
  }

  lemma LogExtend(ops: seq<Op>, op: Op)
    ensures LogOf(ops + [op]) == Write(LogOf(ops), op)
  {
  }

  // ----- nothing is lost

  /** What a session types: characters in a color, and breaks between lines. */
  datatype Glyph = Cell(c: u8, color: u8) | Break

  function Glyphs(cells: seq<u16>): seq<Glyph> {
    seq(|cells|, i requires 0 <= i < |cells| => Cell(cells[i] % 256, cells[i] / 256))
  }

  /** The lines end to end, with a break where a newline ended a line. */
  function Text(lines: seq<Line>): seq<Glyph> {
    if lines == [] then []
    else
      var last := lines[|lines| - 1];
      Text(lines[..|lines| - 1]) + Glyphs(last.cells) + (if last.end == Newline then [Break] else [])
  }

  function Typed(ops: seq<Op>): seq<Glyph> {
    if ops == [] then []
    else
      var before := ops[..|ops| - 1];
      Typed(before) + TypedOne(ops[|ops| - 1], ColorAfter(before))
  }

  /** The color set last; light grey on black at the start. */
  function ColorAfter(ops: seq<Op>): u8 {
    if ops == [] then 7
    else
      match ops[|ops| - 1]
      case SetColor(color) => color
      case PutChar(_) => ColorAfter(ops[..|ops| - 1])
  }

  function TypedOne(op: Op, color: u8): seq<Glyph> {
    match op
    case SetColor(_) => []
    case PutChar(c) => if c == 10 then [Break] else [Cell(c, color)]
  }

  lemma TextLast(lines: seq<Line>, line: Line)
    ensures Text(lines + [line])
         == Text(lines) + Glyphs(line.cells) + (if line.end == Newline then [Break] else [])
  {
    assert (lines + [line])[..|lines|] == lines;
  }

  lemma TextNewLine(l: Log, end: End)
    requires l.lines != [] && l.lines[|l.lines| - 1].end == Open && end != Open
    ensures Text(NewLine(l, end).lines) == Text(l.lines) + (if end == Newline then [Break] else [])
  {
    var n := |l.lines| - 1;
    var front, last := l.lines[..n], l.lines[n];
    var ended := last.(end := end);
    var m := NewLine(l, end).lines;
    assert Text(l.lines) == Text(front) + Glyphs(last.cells) by {
      assert l.lines == front + [last];
      TextLast(front, last);
    }
    TextLast(front, ended);
    assert Text(m) == Text(front + [ended]) by {
      assert m == (front + [ended]) + [m[n + 1]];
      TextLast(front + [ended], m[n + 1]);
      assert Glyphs(m[n + 1].cells) == [];
    }
  }

  lemma TextAppend(l: Log, c: u8)
    requires l.lines != [] && l.lines[|l.lines| - 1].end == Open
    ensures Text(Append(l, c).lines) == Text(l.lines) + [Cell(c, l.color)]
  {
    var n := |l.lines| - 1;
    var front, last := l.lines[..n], l.lines[n];
    var longer := last.(cells := last.cells + [VgaEntry(c, l.color)]);
    assert l.lines == front + [last] && Append(l, c).lines == front + [longer];
    TextLast(front, last);
    TextLast(front, longer);
    EntryParts(c, l.color);
    assert Glyphs(longer.cells) == Glyphs(last.cells) + [Cell(c, l.color)];
  }

  lemma TextWrite(l: Log, op: Op)
    requires Fits(l)
    ensures Text(Write(l, op).lines) == Text(l.lines) + TypedOne(op, l.color)
  {
    if op.PutChar? {
      if op.c == NEWLINE {
        TextNewLine(l, Newline);
      } else {
        TextAppend(l, op.c);
        TextNewLine(Append(l, op.c), Full);
      }
    }
  }

  lemma WriteColor(l: Log, op: Op)
    requires l.lines != []
    ensures Write(l, op).color == if op.SetColor? then op.color else l.color
  {
  }

  /** The lines of the log, put end to end, are exactly what the session typed, in order and in
      color. A line ends only where it has eighty cells or where a newline was typed. */
  lemma {:induction false} LogKeepsText(ops: seq<Op>)
    ensures Text(LogOf(ops).lines) == Typed(ops) && Fits(LogOf(ops)) && LogOf(ops).color == ColorAfter(ops)
  {
    if ops == [] {
      var lines := EMPTY_LOG.lines;
      assert lines[..0] == [] && Text([]) == [];
    } else {
      var before, op := ops[..|ops| - 1], ops[|ops| - 1];
      var l := LogOf(before);
      LogKeepsText(before);
      WriteFits(l, op);
      WriteColor(l, op);
      assert Text(Write(l, op).lines) == Text(l.lines) + TypedOne(op, l.color) by {
        TextWrite(l, op);
      }
    }
  }

  /** From the cursor on, the screen is blank. */
  lemma BlankAfterCursor(t: Terminal, i: nat)
    requires t.Valid() && t.row * VGA_WIDTH + t.column <= i < t.buffer.Length
    ensures IsBlank(t.buffer[i])
  {
  }

  /** Opening a row on the screen shows the log with a new line. */
  lemma NewLineShows(l: Log, end: End, screen: seq<u16>, screen': seq<u16>, row': nat, i: nat)
    requires l.lines != [] && |screen| == VGA_WIDTH * VGA_HEIGHT && i < |screen|
    requires forall j :: 0 <= j < |screen| ==> screen[j] == Shown(l, Base(l), j)
    requires RowOpened(screen, |l.lines| - 1 - Base(l), l.color, screen', row')
    ensures |screen'| == |screen| && screen'[i] == Shown(NewLine(l, end), Base(NewLine(l, end)), i)
  {
    if |l.lines| >= VGA_HEIGHT {
      ScrollShows(l, end, i);
    } else {
      SameShows(l, end, i);
    }
  }

  /** Opening a line on a screen that is not full changes nothing on it. */
  lemma SameShows(l: Log, end: End, i: nat)
    requires l.lines != [] && |l.lines| < VGA_HEIGHT
    ensures Shown(NewLine(l, end), 0, i) == Shown(l, 0, i)
  {
  }

  /** Opening a line on a full screen moves it by one row. */
  lemma ScrollShows(l: Log, end: End, i: nat)
    requires |l.lines| >= VGA_HEIGHT && i < VGA_WIDTH * VGA_HEIGHT
    ensures Shown(NewLine(l, end), Base(l) + 1, i)
         == if i + VGA_WIDTH < VGA_WIDTH * VGA_HEIGHT then Shown(l, Base(l), i + VGA_WIDTH) else VgaEntry(SPACE, l.color)
  {
  }

  /** Appending a character changes the one cell under the cursor. */
  lemma AppendShows(l: Log, c: u8, i: nat)
    requires Fits(l) && i < VGA_WIDTH * VGA_HEIGHT
    ensures var n := |l.lines| - 1;
            var x := |l.lines[n].cells|;
            Shown(Append(l, c), Base(l), i)
            == if i == (n - Base(l)) * VGA_WIDTH + x then VgaEntry(c, l.color) else Shown(l, Base(l), i)
  {
  }
}
