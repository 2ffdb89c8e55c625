/**
 The console's screen against a teletype: a roll of paper that only grows, typed on by the same
 bytes. The screen is the last lines of the paper, whatever is printed.
 */
module Teletype {
  import opened Arithmetic
  import opened Console

  /** Rows of cells, the last ones on the screen; the cursor is on one of those. */
  datatype Paper = Paper(rows: seq<seq<Cell>>, col: nat, row: nat) {
    ghost predicate Fits(nCols: nat, nRows: nat) {
      && 0 < nRows <= |rows| && (forall r | 0 <= r < |rows| :: |rows[r]| == nCols)
      && col <= nCols && |rows| - nRows <= row < |rows|
    }

    /** The cursor is not past the end of its row. */
    ghost predicate Ready(nCols: nat, nRows: nat) { Fits(nCols, nRows) && col < nCols }
  }

  /** The last nRows rows. */
  ghost function Window(p: Paper, nCols: nat, nRows: nat): Screen
    requires p.Fits(nCols, nRows)
  {
    var top := |p.rows| - nRows;
    Screen(p.rows[top..], p.col, p.row - top)
  }

  // ---- typing ---------------------------------------------------------------------------

  /** One row on; at the end of the paper a blank row is added. No row ever moves. */
  ghost function Feed(p: Paper, nCols: nat): Paper {
    Paper(if p.row + 1 == |p.rows| then p.rows + [Blanks(nCols)] else p.rows, 0, p.row + 1)
  }

  /** A code struck at the cursor. */
  ghost function Strike(p: Paper, code: u8): Paper
    requires p.row < |p.rows| && p.col < |p.rows[p.row]|
  {
    Paper(p.rows[p.row := p.rows[p.row][p.col := Drawn(code)]], p.col + 1, p.row)
  }

  /** Spaces struck up to a column. */
  ghost function Skip(p: Paper, stop: nat, nCols: nat, nRows: nat): (r: Paper)
    requires p.Fits(nCols, nRows) && p.col <= stop <= nCols
    ensures r.Fits(nCols, nRows) && r.col == stop
    decreases stop - p.col
  {
    if p.col == stop then p else Skip(Strike(p, 0x20), stop, nCols, nRows)
  }

  /** The bytes that have a glyph: ASCII from the space on, and the upper half where char is unsigned. */
  predicate Prints(c: u8, signedChar: bool) { 0x20 <= c < 0x80 || (c >= 0x80 && !signedChar) }

  /** A row typed full is left. */
  ghost function Carry(p: Paper, nCols: nat): Paper { if p.col >= nCols then Feed(p, nCols) else p }

  ghost function Type(p: Paper, c: u8, nCols: nat, nRows: nat, signedChar: bool): (r: Paper)
    requires p.Ready(nCols, nRows)
    ensures r.Ready(nCols, nRows)
  {
    if c == 0x0A then Feed(p, nCols)
    else if c == 0x0D then p.(col := 0)
    else if c == 0x09 then Carry(Skip(p, Min((p.col / 8 + 1) * 8, nCols), nCols, nRows), nCols)
    else if Prints(c, signedChar) then Carry(Strike(p, c), nCols)
    else p
  }

  ghost function TypeAll(p: Paper, text: seq<u8>, nCols: nat, nRows: nat, signedChar: bool): (r: Paper)
    requires p.Ready(nCols, nRows)
    ensures r.Ready(nCols, nRows)
  {
    if text == [] then p
    else Type(TypeAll(p, text[..|text| - 1], nCols, nRows, signedChar), text[|text| - 1], nCols, nRows, signedChar)
  }

  // ---- the screen shows the end of the paper --------------------------------------------------

  lemma FeedShown(p: Paper, nCols: nat, nRows: nat)
    requires p.Fits(nCols, nRows) && 0 < nCols
    ensures Feed(p, nCols).Fits(nCols, nRows)
    ensures Newline(Window(p, nCols, nRows), nCols, nRows) == Window(Feed(p, nCols), nCols, nRows)
  {
    var top := |p.rows| - nRows;
    if p.row + 1 == |p.rows| {
      assert (p.rows + [Blanks(nCols)])[top + 1..] == p.rows[top..][1..] + [Blanks(nCols)];
    }
  }

  lemma StrikeShown(p: Paper, code: u8, nCols: nat, nRows: nat)
    requires p.Ready(nCols, nRows)
    ensures Strike(p, code).Fits(nCols, nRows)
    ensures DrawStep(Window(p, nCols, nRows), code) == Window(Strike(p, code), nCols, nRows)
  {}

  lemma {:induction false} SkipShown(p: Paper, stop: nat, nCols: nat, nRows: nat)
    requires p.Fits(nCols, nRows) && p.col <= stop <= nCols
    ensures Spaces(Window(p, nCols, nRows), stop) == Window(Skip(p, stop, nCols, nRows), nCols, nRows)
    decreases stop - p.col
  {
    if p.col < stop {
      StrikeShown(p, 0x20, nCols, nRows);
      SkipShown(Strike(p, 0x20), stop, nCols, nRows);
    }
  }

  lemma CarryShown(p: Paper, nCols: nat, nRows: nat)
    requires p.Fits(nCols, nRows) && 0 < nCols
    ensures Carry(p, nCols).Ready(nCols, nRows)
    ensures Wrap(Window(p, nCols, nRows), nCols, nRows) == Window(Carry(p, nCols), nCols, nRows)
  {
    FeedShown(p, nCols, nRows);
  }

  lemma NextStop(col: nat)
    ensures col + 8 - col % 8 == (col / 8 + 1) * 8
  {}

  lemma TypeShown(p: Paper, c: u8, nCols: nat, nRows: nat, signedChar: bool)
    requires p.Ready(nCols, nRows)
    ensures Put(Window(p, nCols, nRows), c, nCols, nRows, signedChar)
         == Window(Type(p, c, nCols, nRows, signedChar), nCols, nRows)
  {
    if c == 0x0A {
      FeedShown(p, nCols, nRows);
    } else if c == 0x09 {
      TabShown(p, nCols, nRows, signedChar);
    } else if Prints(c, signedChar) {
      StrikeShown(p, c, nCols, nRows);
      CarryShown(Strike(p, c), nCols, nRows);
    }
  }

  lemma TabShown(p: Paper, nCols: nat, nRows: nat, signedChar: bool)
    requires p.Ready(nCols, nRows)
    ensures Put(Window(p, nCols, nRows), 0x09, nCols, nRows, signedChar)
         == Window(Type(p, 0x09, nCols, nRows, signedChar), nCols, nRows)
  {
    var s, stop := Window(p, nCols, nRows), Min((p.col / 8 + 1) * 8, nCols);
    PutTab(s, stop, nCols, nRows, signedChar);
    var q := Skip(p, stop, nCols, nRows);
    SkipShown(p, stop, nCols, nRows);
    TypeTab(p, stop, q, nCols, nRows, signedChar);
    CarryShown(q, nCols, nRows);
  }

  lemma TypeTab(p: Paper, stop: nat, q: Paper, nCols: nat, nRows: nat, signedChar: bool)
    requires p.Ready(nCols, nRows) && p.col <= stop == Min((p.col / 8 + 1) * 8, nCols)
    requires q == Skip(p, stop, nCols, nRows)
    ensures Type(p, 0x09, nCols, nRows, signedChar) == Carry(q, nCols)
  {}

  lemma PutTab(s: Screen, stop: nat, nCols: nat, nRows: nat, signedChar: bool)
    requires s.Fits(nCols, nRows) && stop == Min((s.col / 8 + 1) * 8, nCols)
    ensures s.col <= stop && Put(s, 0x09, nCols, nRows, signedChar) == Wrap(Spaces(s, stop), nCols, nRows)
  {
    NextStop(s.col);
  }

  /** The screen as paper: nothing has left it yet. */
  ghost function PaperOf(s: Screen): Paper { Paper(s.cells, s.col, s.row) }

  /** From any screen and for any bytes, the screen is the end of the paper. */
  lemma {:induction false} ScreenIsWindow(s: Screen, text: seq<u8>, nCols: nat, nRows: nat, signedChar: bool)
    requires s.Fits(nCols, nRows)
    ensures PutAll(s, text, nCols, nRows, signedChar)
         == Window(TypeAll(PaperOf(s), text, nCols, nRows, signedChar), nCols, nRows)
  {
    if text == [] {
      assert s.cells[0..] == s.cells;
    } else {
      var front := text[..|text| - 1];
      ScreenIsWindow(s, front, nCols, nRows, signedChar);
      TypeShown(TypeAll(PaperOf(s), front, nCols, nRows, signedChar), text[|text| - 1], nCols, nRows, signedChar);
    }
  }

  // ---- what each byte does --------------------------------------------------------------------

  /** Everything k rows up, blank rows in from below, and a stretch of the cursor's row struck. */
  ghost predicate Struck(s: Screen, r: Screen, from: nat, to: nat, code: u8, k: nat, nCols: nat, nRows: nat)
    requires s.Fits(nCols, nRows) && r.Fits(nCols, nRows)
  {
    forall x, y | 0 <= x < nCols && 0 <= y < nRows ::
      r.cells[y][x] == if y + k >= nRows then Blank
                       else if y + k == s.row && from <= x < to then Drawn(code)
                       else s.cells[y + k][x]
  }

  /** A printable byte strikes the cursor's cell and no other; after the last column it goes on at
      the start of the next row, moving everything up if there is none. */
  lemma PrintablePut(s: Screen, c: u8, nCols: nat, nRows: nat, signedChar: bool)
    requires s.Fits(nCols, nRows) && Prints(c, signedChar)
    ensures var r := Put(s, c, nCols, nRows, signedChar);
      var k := if s.col + 1 == nCols && s.row + 1 == nRows then 1 else 0;
      && Struck(s, r, s.col, s.col + 1, c, k, nCols, nRows)
      && (if s.col + 1 == nCols then r.col == 0 && r.row == s.row + 1 - k else r.col == s.col + 1 && r.row == s.row)
  {}

  /** A line feed strikes nothing. */
  lemma FeedPut(s: Screen, nCols: nat, nRows: nat, signedChar: bool)
    requires s.Fits(nCols, nRows)
    ensures var r := Put(s, 0x0A, nCols, nRows, signedChar);
      var k := if s.row + 1 == nRows then 1 else 0;
      Struck(s, r, 0, 0, 0, k, nCols, nRows) && r.col == 0 && r.row == s.row + 1 - k
  {}

  /** A carriage return only goes back, and any other control byte does nothing. */
  lemma ReturnPut(s: Screen, c: u8, nCols: nat, nRows: nat, signedChar: bool)
    requires s.Fits(nCols, nRows) && !Prints(c, signedChar) && c != 0x0A && c != 0x09
    ensures var r := Put(s, c, nCols, nRows, signedChar);
      r.cells == s.cells && r.row == s.row && r.col == if c == 0x0D then 0 else s.col
  {}

  lemma {:induction false} SpacesStrike(s: Screen, stop: nat, r: Screen, x: nat, y: nat)
    requires s.row < |s.cells| && s.col <= stop <= |s.cells[s.row]| && r == Spaces(s, stop)
    requires y < |s.cells| && x < |s.cells[y]|
    ensures r.cells[y][x] == if y == s.row && s.col <= x < stop then Drawn(0x20) else s.cells[y][x]
    decreases stop - s.col
  {
    if s.col < stop { SpacesStrike(DrawStep(s, 0x20), stop, r, x, y); }
  }

  /** A tab strikes spaces up to the next multiple of eight, or the end of the row and on to the next. */
  lemma TabPut(s: Screen, stop: nat, nCols: nat, nRows: nat, signedChar: bool)
    requires s.Fits(nCols, nRows) && stop % 8 == 0 && s.col < stop <= s.col + 8
    ensures var r := Put(s, 0x09, nCols, nRows, signedChar);
      var k := if stop >= nCols && s.row + 1 == nRows then 1 else 0;
      && Struck(s, r, s.col, Min(stop, nCols), 0x20, k, nCols, nRows)
      && (if stop >= nCols then r.col == 0 && r.row == s.row + 1 - k else r.col == stop && r.row == s.row)
  {
    assert stop == s.col + 8 - s.col % 8;
    var end := Min(stop, nCols);
    forall x: nat, y: nat | x < nCols && y < nRows
      ensures Spaces(s, end).cells[y][x] == if y == s.row && s.col <= x < end then Drawn(0x20) else s.cells[y][x]
    {
      SpacesStrike(s, end, Spaces(s, end), x, y);
    }
  }

  // ---- whole lines -----------------------------------------------------------------------------

  lemma {:induction false} TypeConcat(p: Paper, a: seq<u8>, b: seq<u8>, nCols: nat, nRows: nat, signedChar: bool)
    requires p.Ready(nCols, nRows)
    ensures TypeAll(p, a + b, nCols, nRows, signedChar)
         == TypeAll(TypeAll(p, a, nCols, nRows, signedChar), b, nCols, nRows, signedChar)
    decreases |b|
  {
    if b == [] {
      assert a + b == a;
    } else {
      assert (a + b)[..|a + b| - 1] == a + b[..|b| - 1];
      TypeConcat(p, a, b[..|b| - 1], nCols, nRows, signedChar);
    }
  }

  /** A row with a line at its start. */
  function RowOf(line: seq<u8>, nCols: nat): (r: seq<Cell>)
    ensures |r| == nCols
  {
    seq(nCols, x requires 0 <= x => if x < |line| then Drawn(line[x]) else Blank)
  }

  predicate Printable(line: seq<u8>, signedChar: bool) { forall i | 0 <= i < |line| :: Prints(line[i], signedChar) }

  lemma {:induction false} LineTyped(p: Paper, line: seq<u8>, nCols: nat, nRows: nat, signedChar: bool)
    requires p.Ready(nCols, nRows) && p.col == 0 && p.rows[p.row] == Blanks(nCols)
    requires Printable(line, signedChar) && |line| < nCols
    ensures TypeAll(p, line, nCols, nRows, signedChar) == Paper(p.rows[p.row := RowOf(line, nCols)], |line|, p.row)
  {
    if line == [] {
      assert RowOf(line, nCols) == Blanks(nCols) && p.rows[p.row := RowOf(line, nCols)] == p.rows;
    } else {
      var n := |line| - 1;
      LineTyped(p, line[..n], nCols, nRows, signedChar);
      assert RowOf(line[..n], nCols)[n := Drawn(line[n])] == RowOf(line, nCols);
    }
  }

  /** Lines as bytes, each ended by a line feed. */
  function Printed(lines: seq<seq<u8>>): seq<u8> {
    if lines == [] then [] else Printed(lines[..|lines| - 1]) + (lines[|lines| - 1] + [0x0A])
  }

  predicate Short(lines: seq<seq<u8>>, nCols: nat, signedChar: bool) {
    forall i | 0 <= i < |lines| :: |lines[i]| < nCols && Printable(lines[i], signedChar)
  }

  /** The paper with these lines on it, and blank to the end of the screen. */
  ghost function Roll(lines: seq<seq<u8>>, nCols: nat, nRows: nat): Paper {
    var n := |lines|;
    Paper(seq(Max(nRows, n + 1), i requires 0 <= i => if i < n then RowOf(lines[i], nCols) else Blanks(nCols)), 0, n)
  }

  function BlankScreen(nCols: nat, nRows: nat): Screen { Screen(seq(nRows, i => Blanks(nCols)), 0, 0) }

  lemma LineOnRoll(lines: seq<seq<u8>>, line: seq<u8>, nCols: nat, nRows: nat, signedChar: bool)
    requires 0 < nRows && |line| < nCols && Printable(line, signedChar)
    ensures Roll(lines, nCols, nRows).Ready(nCols, nRows)
    ensures TypeAll(Roll(lines, nCols, nRows), line + [0x0A], nCols, nRows, signedChar)
         == Roll(lines + [line], nCols, nRows)
  {
    var p := Roll(lines, nCols, nRows);
    LineTyped(p, line, nCols, nRows, signedChar);
    assert (line + [0x0A])[..|line|] == line;
    var q := Paper(p.rows[p.row := RowOf(line, nCols)], |line|, p.row);
    assert Feed(q, nCols).rows == Roll(lines + [line], nCols, nRows).rows;
  }

  lemma {:induction false} LinesOnRoll(lines: seq<seq<u8>>, nCols: nat, nRows: nat, signedChar: bool)
    requires 0 < nCols && 0 < nRows && Short(lines, nCols, signedChar)
    ensures BlankScreen(nCols, nRows).Fits(nCols, nRows)
    ensures TypeAll(PaperOf(BlankScreen(nCols, nRows)), Printed(lines), nCols, nRows, signedChar)
         == Roll(lines, nCols, nRows)
  {
    var blank := PaperOf(BlankScreen(nCols, nRows));
    if lines == [] {
      assert Roll(lines, nCols, nRows).rows == blank.rows;
    } else {
      var front, last := lines[..|lines| - 1], lines[|lines| - 1];
      LinesOnRoll(front, nCols, nRows, signedChar);
      TypeConcat(blank, Printed(front), last + [0x0A], nCols, nRows, signedChar);
      LineOnRoll(front, last, nCols, nRows, signedChar);
      assert front + [last] == lines;
    }
  }

  /** The last nRows - 1 lines in order, then blank rows, the cursor at the start of the first of these. */
  ghost predicate ShowsLast(r: Screen, lines: seq<seq<u8>>, nCols: nat, nRows: nat)
    requires 0 < nRows
  {
    var n := Min(|lines|, nRows - 1);
    r.col == 0 && r.row == n && |r.cells| == nRows &&
    forall y | 0 <= y < nRows :: r.cells[y] == if y < n then RowOf(lines[|lines| - n + y], nCols) else Blanks(nCols)
  }

  lemma WindowOfRoll(lines: seq<seq<u8>>, p: Paper, nCols: nat, nRows: nat)
    requires 0 < nCols && 0 < nRows && p == Roll(lines, nCols, nRows) && p.Fits(nCols, nRows)
    ensures ShowsLast(Window(p, nCols, nRows), lines, nCols, nRows)
  {}

  /** Lines printed on a blank screen, each shorter than a row and ended by a line feed: the last nRows - 1
      of them are shown. */
  lemma LinesShown(lines: seq<seq<u8>>, nCols: nat, nRows: nat, signedChar: bool)
    requires 0 < nCols && 0 < nRows && Short(lines, nCols, signedChar)
    ensures BlankScreen(nCols, nRows).Fits(nCols, nRows)
    ensures ShowsLast(PutAll(BlankScreen(nCols, nRows), Printed(lines), nCols, nRows, signedChar), lines, nCols, nRows)
  {
    LinesOnRoll(lines, nCols, nRows, signedChar);
    ScreenIsWindow(BlankScreen(nCols, nRows), Printed(lines), nCols, nRows, signedChar);
    WindowOfRoll(lines, Roll(lines, nCols, nRows), nCols, nRows);
  }
}
