/**
 The text console of src/croi/dath/console.c: pixels against an abstract character grid.
 */
module Console {
  import opened Arithmetic
  import opened Surface
  import opened Blit
  import opened Glyph

  // ---- the abstract screen --------------------------------------------------------

  /** A character cell: cleared to background, or drawn with some code's glyph. */
  datatype Cell = Blank | Drawn(code: u8)

  datatype Screen = Screen(cells: seq<seq<Cell>>, col: nat, row: nat) {
    ghost predicate Fits(nCols: nat, nRows: nat) {
      && |cells| == nRows && (forall r | 0 <= r < nRows :: |cells[r]| == nCols)
      && col < nCols && row < nRows
    }
  }

  function Blanks(nCols: nat): (r: seq<Cell>)
    ensures |r| == nCols && forall i | 0 <= i < nCols :: r[i] == Blank
  {
    seq(nCols, i => Blank)
  }

  /** Down one line; past the last line everything moves up and the last line is blank. */
  function Newline(s: Screen, nCols: nat, nRows: nat): Screen
    requires 0 < nRows
  {
    if s.row + 1 >= nRows && s.cells != []
    then Screen(s.cells[1..] + [Blanks(nCols)], 0, nRows - 1)
    else Screen(s.cells, 0, s.row + 1)
  }

  /** Draw at the cursor and step right, without wrapping. */
  function DrawStep(s: Screen, code: u8): Screen
    requires s.row < |s.cells| && s.col < |s.cells[s.row]|
  {
    Screen(s.cells[s.row := s.cells[s.row][s.col := Drawn(code)]], s.col + 1, s.row)
  }

  /** Draw spaces up to a column. */
  function Spaces(s: Screen, stop: nat): (r: Screen)
    requires s.row < |s.cells| && s.col <= stop <= |s.cells[s.row]|
    ensures r.col == stop && r.row == s.row && |r.cells| == |s.cells|
    ensures forall i | 0 <= i < |s.cells| :: |r.cells[i]| == |s.cells[i]|
    decreases stop - s.col
  {
    if s.col == stop then s else Spaces(DrawStep(s, 0x20), stop)
  }

  function Wrap(s: Screen, nCols: nat, nRows: nat): Screen
    requires 0 < nRows
  {
    if s.col >= nCols then Newline(s, nCols, nRows) else s
  }

  /** `c < 0x20` on the C char: with a signed char the upper half compares below. */
  predicate IsControl(c: u8, signedChar: bool) { c < 0x20 || (signedChar && c >= 0x80) }

  /** The console as an interpreter over the grid. */
  function Put(s: Screen, c: u8, nCols: nat, nRows: nat, signedChar: bool): (r: Screen)
    requires s.Fits(nCols, nRows)
    ensures r.Fits(nCols, nRows)
  {
    if c == 0x0A then Newline(s, nCols, nRows)
    else if c == 0x0D then s.(col := 0)
    else if c == 0x09 then Wrap(Spaces(s, Min(s.col + 8 - s.col % 8, nCols)), nCols, nRows)
    else if IsControl(c, signedChar) then s
    else Wrap(DrawStep(s, c), nCols, nRows)
  }

  function PutAll(s: Screen, text: seq<u8>, nCols: nat, nRows: nat, signedChar: bool): (r: Screen)
    requires s.Fits(nCols, nRows)
    ensures r.Fits(nCols, nRows)
  {
    if text == [] then s
    else Put(PutAll(s, text[..|text| - 1], nCols, nRows, signedChar), text[|text| - 1], nCols, nRows, signedChar)
  }

  // ---- pixels and cells -------------------------------------------------------------

  /** Pixel coordinate p falls in cell i of size w exactly when it lies in that span. */
  lemma CellSpan(p: int, w: int, i: int)
    requires 0 < w
    ensures p / w == i <==> i * w <= p < i * w + w
    ensures p / w == i ==> p % w == p - i * w
  {
    if i * w <= p < i * w + w {
      DivModUnique(p, w, i, p - i * w);
    }
    assert p == w * (p / w) + p % w;
  }

  /** A pixel coordinate of the text area names a cell of the grid. */
  lemma CellInGrid(p: int, w: int, n: int)
    requires 0 < w && 0 <= p < n * w
    ensures 0 <= p / w < n && 0 <= p % w < w
  {
    assert p == w * (p / w) + p % w;
    if p / w >= n {
      assert (p / w) * w >= n * w by { MulMono(n, p / w, w); }
    }
  }

  /** A pixel row of the text area and the one a line of text further down. */
  lemma LineBelow(y: int, h: int, n: int)
    requires 0 < h && 0 < n && 0 <= y < n * h
    ensures n * h - h == (n - 1) * h >= 0
    ensures 0 <= y / h < n && 0 <= y % h < h
    ensures y < n * h - h <==> y / h < n - 1
    ensures (y + h) / h == y / h + 1 && (y + h) % h == y % h
  {
    CellInGrid(y, h, n);
    CellSpan(y, h, y / h);
    assert (n - 1) * h == n * h - h;
    assert (y / h + 1) * h == y / h * h + h;
    DivModUnique(y + h, h, y / h + 1, y % h);
    if y / h < n - 1 {
      MulMono(y / h + 1, n - 1, h);
    } else {
      MulMono(n - 1, y / h, h);
    }
  }

  /** A self-blit of h full rows upward by fh: each row gets the old row fh below it. */
  method BlitUp(fb: Framebuffer, fh: nat, h: nat)
    requires fb.Valid() && 0 < fh && fh + h <= fb.height
    modifies fb.px
    ensures forall x, y | fb.Inside(x, y) ::
              fb.px[y, x] == if y < h then old(fb.px[y + fh, x]) else old(fb.px[y, x])
  {
    ghost var q := RequestOf(fb, 0, 0, fb, 0, fh, fb.width, h);
    forall x, y | fb.Inside(x, y)
      ensures q.Copied(x, y) <==> y < h
      ensures q.Copied(x, y) ==> q.Origin(x, y) == (x, y + fh)
    {
      assert !q.Forward();
    }
    BlitRect(fb, 0, 0, fb, 0, fh, fb.width, h);
    forall x, y | fb.Inside(x, y)
      ensures fb.px[y, x] == if y < h then old(fb.px[y + fh, x]) else old(fb.px[y, x])
    {
      if y < h {
        assert q.Copied(x, y) && q.Origin(x, y) == (x, y + fh);
      }
    }
  }

  /** The pixels of scroll_up_one_row: an overlapping blit of the surface onto itself, then a
      cleared line. */
  method ShiftUp(fb: Framebuffer, fh: nat, pxH: nat, bg: u32)
    requires fb.Valid() && 0 < fh <= pxH <= fb.height
    modifies fb.px
    ensures forall x, y | fb.Inside(x, y) ::
              fb.px[y, x] == if y < pxH - fh then old(fb.px[y + fh, x])
                             else if y < pxH then Stored(fb.format, bg) else old(fb.px[y, x])
  {
    BlitUp(fb, fh, pxH - fh);
    fb.FillRect(0, pxH - fh, fb.width, fh, bg);
  }

  ghost function CellColour(font: Font, cell: Cell, xx: nat, yy: nat, fg: u32, bg: u32): u32
    requires font.Valid() && xx < font.width && yy < font.height
  {
    if cell.Drawn? && font.Bit(cell.code, xx, yy) then fg else bg
  }

  class DathConsole {
    const fb: Framebuffer
    const font: Font
    const nCols: nat
    const nRows: nat
    const fg: u32
    const bg: u32
    const signedChar: bool
    var curCol: nat
    var curRow: nat
    ghost var cells: seq<seq<Cell>>

    /** The geometry Dath_Console_Init derives; the surface holds at least one cell. */
    ghost predicate Geometry() {
      && fb.Valid() && font.Valid()
      && nCols == fb.width / font.width && nRows == fb.height / font.height
      && 0 < nCols && 0 < nRows
    }

    lemma AreaFits()
      requires Geometry()
      ensures nCols * font.width <= fb.width && nRows * font.height <= fb.height
    {
      assert fb.width == font.width * nCols + fb.width % font.width;
      assert fb.height == font.height * nRows + fb.height % font.height;
    }

    predicate InText(x: int, y: int) {
      0 <= x < nCols * font.width && 0 <= y < nRows * font.height
    }

    ghost predicate IsGrid(g: seq<seq<Cell>>) {
      |g| == nRows && forall r | 0 <= r < nRows :: |g[r]| == nCols
    }

    /** The colour the grid calls for at a pixel of the text area. */
    ghost function PixelOf(g: seq<seq<Cell>>, x: int, y: int): u32
      requires Geometry() && IsGrid(g) && InText(x, y)
    {
      CellInGrid(x, font.width, nCols);
      CellInGrid(y, font.height, nRows);
      Stored(fb.format, CellColour(font, g[y / font.height][x / font.width],
                                   x % font.width, y % font.height, fg, bg))
    }

    ghost predicate Renders(g: seq<seq<Cell>>)
      requires Geometry() && IsGrid(g)
      reads fb.px
    {
      forall x, y | InText(x, y) && fb.Inside(x, y) :: fb.px[y, x] == PixelOf(g, x, y)
    }

    /** The pixels show the grid; the cursor may be one past the end of its line. */
    ghost predicate Shows()
      reads this, fb.px
    {
      Geometry() && IsGrid(cells) && curCol <= nCols && curRow < nRows && Renders(cells)
    }

    ghost predicate Valid()
      reads this, fb.px
    {
      Shows() && curCol < nCols
    }

    ghost function View(): Screen
      reads this
    {
      Screen(cells, curCol, curRow)
    }

    /** Dath_Console_Init, on a surface that shows some grid. */
    constructor (fb: Framebuffer, font: Font, fg: u32, bg: u32, signedChar: bool, ghost cells: seq<seq<Cell>>)
      requires fb.Valid() && font.Valid() && font.width <= fb.width && font.height <= fb.height
      requires |cells| == fb.height / font.height
      requires forall r | 0 <= r < |cells| :: |cells[r]| == fb.width / font.width
      requires forall x, y | && fb.Inside(x, y) && 0 <= y / font.height < |cells|
                             && 0 <= x / font.width < |cells[y / font.height]| ::
                 fb.px[y, x] == Stored(fb.format, CellColour(font, cells[y / font.height][x / font.width],
                                                             x % font.width, y % font.height, fg, bg))
      ensures Valid() && View() == Screen(cells, 0, 0) && this.fb == fb && this.font == font
      ensures this.fg == fg && this.bg == bg && this.signedChar == signedChar
    {
      this.fb, this.font, this.fg, this.bg, this.signedChar := fb, font, fg, bg, signedChar;
      curCol, curRow := 0, 0;
      nCols := fb.width / font.width;
      nRows := fb.height / font.height;
      this.cells := cells;
      new;
      assert 0 < nCols && 0 < nRows by {
        CellSpan(fb.width, font.width, 0);
        CellSpan(fb.height, font.height, 0);
      }
      forall x, y | InText(x, y) && fb.Inside(x, y) ensures fb.px[y, x] == PixelOf(cells, x, y) {
        CellInGrid(x, font.width, nCols);
        CellInGrid(y, font.height, nRows);
      }
    }

    /** Draws a code in the cursor's cell and steps right. */
    method DrawAtCursor(code: u8)
      requires Valid()
      modifies this`cells, this`curCol, fb.px
      ensures Shows() && View() == DrawStep(old(View()), code)
    {
      ghost var was := cells;
      DrawChar(fb, font, curCol * font.width, curRow * font.height, code, fg, bg);
      cells := cells[curRow := cells[curRow][curCol := Drawn(code)]];
      forall x, y | InText(x, y) && fb.Inside(x, y) ensures fb.px[y, x] == PixelOf(cells, x, y) {
        CellSpan(x, font.width, curCol);
        CellSpan(y, font.height, curRow);
        CellInGrid(x, font.width, nCols);
        CellInGrid(y, font.height, nRows);
        assert old(fb.px[y, x]) == PixelOf(was, x, y);
      }
      curCol := curCol + 1;
    }

    /** Moving the lines of a grid up moves its pixels up. */
    lemma PixelOfScrolled(g: seq<seq<Cell>>, x: int, y: int, top: int)
      requires Geometry() && IsGrid(g) && InText(x, y) && top == (nRows - 1) * font.height
      ensures y < top ==> InText(x, y + font.height) &&
                          PixelOf(g[1..] + [Blanks(nCols)], x, y) == PixelOf(g, x, y + font.height)
      ensures y >= top ==> PixelOf(g[1..] + [Blanks(nCols)], x, y) == Stored(fb.format, bg)
    {
      CellInGrid(x, font.width, nCols);
      LineBelow(y, font.height, nRows);
    }

    /** scroll_up_one_row. */
    method ScrollUp()
      requires Shows()
      modifies this`cells, fb.px
      ensures Shows() && cells == old(cells)[1..] + [Blanks(nCols)]
    {
      ghost var was := cells;
      AreaFits();
      var pxH := nRows * font.height;
      LineBelow(0, font.height, nRows);
      ShiftUp(fb, font.height, pxH, bg);
      cells := cells[1..] + [Blanks(nCols)];
      forall x, y | InText(x, y) && fb.Inside(x, y) ensures fb.px[y, x] == PixelOf(cells, x, y) {
        PixelOfScrolled(was, x, y, pxH - font.height);
        if y < pxH - font.height {
          assert fb.Inside(x, y + font.height);
          assert old(fb.px[y + font.height, x]) == PixelOf(was, x, y + font.height);
        }
      }
    }

    /** newline. */
    method NewLine()
      requires Shows()
      modifies this, fb.px
      ensures Valid() && View() == Newline(old(View()), nCols, nRows)
    {
      curCol := 0;
      if curRow + 1 >= nRows {
        ScrollUp();
        curRow := nRows - 1;
      } else {
        curRow := curRow + 1;
      }
    }

    /** Dath_Console_PutChar does to the pixels what Put does to the grid. */
    method PutChar(c: u8)
      requires Valid()
      modifies this, fb.px
      ensures Valid() && View() == Put(old(View()), c, nCols, nRows, signedChar)
    {
      if c == 0x0A {
        NewLine();
        return;
      }
      if c == 0x0D {
        curCol := 0;
        return;
      }
      if c == 0x09 {
        Tab();
        return;
      }
      if IsControl(c, signedChar) {
        return;
      }
      DrawAtCursor(c);
      if curCol >= nCols {
        NewLine();
      }
    }

    /** The tab branch of PutChar: `(curCol + 8) & ~7` is the next multiple of eight. */
    method Tab()
      requires Valid()
      modifies this, fb.px
      ensures Valid() && View() == Put(old(View()), 0x09, nCols, nRows, signedChar)
    {
      var next := curCol + 8 - (curCol + 8) % 8;
      ghost var stop := Min(next, nCols);
      while curCol < next && curCol < nCols
        invariant Shows() && curCol <= stop && curRow == old(curRow)
        invariant Spaces(View(), stop) == Spaces(old(View()), stop)
        decreases nCols - curCol
      {
        DrawAtCursor(0x20);
      }
      if curCol >= nCols {
        NewLine();
      }
    }

    /** Dath_Console_PutString. */
    method PutString(text: seq<u8>)
      requires Valid()
      modifies this, fb.px
      ensures Valid() && View() == PutAll(old(View()), text, nCols, nRows, signedChar)
    {
      for i := 0 to |text|
        invariant Valid() && View() == PutAll(old(View()), text[..i], nCols, nRows, signedChar)
      {
        assert text[..i + 1][..i] == text[..i];
        PutChar(text[i]);
      }
      assert text[..|text|] == text;
    }
  }
}
