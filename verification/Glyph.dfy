/**
 Glyph drawing: Dath_DrawChar from a per-glyph bitmap (src/croi/dath/text.c) and the packed
 horizontal strike of src/croi/dath/graphics_lib.c, which must paint the same pixels.
 */
module Glyph {
  import opened Options
  import opened Arithmetic
  import opened Surface

  /** One byte per glyph row, most significant bit leftmost, `height` bytes per glyph. */
  datatype Font = Font(width: nat, height: nat, first: u32, last: u32, bitmap: seq<u8>) {
    ghost predicate Valid() {
      && 0 < width <= 8 && 0 < height
      && (first <= last ==> |bitmap| == (last - first + 1) * height)
    }

    predicate Covers(code: nat) { first <= code <= last }

    lemma RowInBitmap(code: nat, yy: nat)
      requires Valid() && Covers(code) && yy < height
      ensures 0 <= (code - first) * height + yy < |bitmap|
    {
      InRow(code - first, last - first + 1, height, yy);
    }

    /** The byte of a row of a glyph; zero for codes outside the font. */
    ghost function Row(code: nat, yy: nat): u8
      requires Valid() && yy < height
    {
      if Covers(code) then RowInBitmap(code, yy); bitmap[(code - first) * height + yy] else 0
    }

    lemma BitInRow(code: nat, xx: nat, yy: nat)
      requires Valid() && xx < width && yy < height
      ensures Bit(code, xx, yy) <==> BitOf(Row(code, yy), xx)
    {
      BlankRow(xx);
    }

    /** Is pixel (xx, yy) of the glyph set? Codes outside the font are blank. */
    ghost predicate Bit(code: nat, xx: nat, yy: nat)
      requires Valid() && xx < width && yy < height
    {
      Covers(code) && (RowInBitmap(code, yy); BitOf(bitmap[(code - first) * height + yy], xx))
    }
  }

  /** `(row >> (7 - xx)) & 1`. */
  predicate BitOf(row: u8, xx: nat)
    requires xx < 8
  {
    row / Pow2(7 - xx) % 2 == 1
  }

  /** The columns of a row are the binary digits of its byte, most significant leftmost. */
  lemma RowSpelt(row: u8)
    ensures (forall xx | 0 <= xx < 8 :: BitOf(row, xx) <==> Binary(row, 8)[xx]) && Spelt(Binary(row, 8)) == row
  {
    forall xx | 0 <= xx < 8 ensures BitOf(row, xx) <==> Binary(row, 8)[xx] {
      BinaryAt(row, 8, xx);
      ShrDivides(row, 7 - xx);
    }
    Pow2Eight();
    BinarySpelt(row, 8);
  }

  /** Which of w pixels from (x, y) on have a colour. */
  ghost function Lit(fb: Framebuffer, x: nat, y: nat, w: nat, c: u32): (bits: seq<bool>)
    requires fb.Valid() && x + w <= fb.width && y < fb.height
    reads fb.px
    ensures |bits| == w
  {
    seq(w, i requires 0 <= i < w reads fb.px => fb.px[y, x + i] == Stored(fb.format, c))
  }

  /** A cell of a size lies on the surface. */
  predicate OnSurface(fb: Framebuffer, x: int, y: int, w: nat, h: nat) {
    0 <= x && x + w <= fb.width && 0 <= y && y + h <= fb.height
  }

  /** The foreground pixels of every row of the cell spell the leading bits of its byte. */
  ghost predicate Spells(fb: Framebuffer, font: Font, x: int, y: int, code: nat, fg: u32)
    requires fb.Valid() && font.Valid() && OnSurface(fb, x, y, font.width, font.height)
    reads fb.px
  {
    forall r | 0 <= r < font.height ::
      Spelt(Lit(fb, x, y + r, font.width, fg)) == Shr(font.Row(code, r), 8 - font.width)
  }

  /** Every pixel of the cell has the colour its bit calls for. */
  ghost predicate Painted(fb: Framebuffer, font: Font, x: int, y: int, code: nat, fg: u32, bg: u32)
    requires fb.Valid() && font.Valid() && OnSurface(fb, x, y, font.width, font.height)
    reads fb.px
  {
    forall c, r | 0 <= c < font.width && 0 <= r < font.height ::
      fb.px[y + r, x + c] == Stored(fb.format, if font.Bit(code, c, r) then fg else bg)
  }

  lemma PaintedSpells(fb: Framebuffer, font: Font, x: int, y: int, code: nat, fg: u32, bg: u32)
    requires fb.Valid() && font.Valid() && OnSurface(fb, x, y, font.width, font.height)
    requires Painted(fb, font, x, y, code, fg, bg) && Stored(fb.format, fg) != Stored(fb.format, bg)
    ensures Spells(fb, font, x, y, code, fg)
  {
    forall r | 0 <= r < font.height
      ensures Spelt(Lit(fb, x, y + r, font.width, fg)) == Shr(font.Row(code, r), 8 - font.width)
    {
      var bits := Lit(fb, x, y + r, font.width, fg);
      forall c | 0 <= c < font.width ensures bits[c] <==> BitOf(font.Row(code, r), c) { font.BitInRow(code, c, r); }
      LeadingBits(bits, font.Row(code, r));
    }
  }

  /** The leading columns of a row spell its leading bits. */
  lemma LeadingBits(bits: seq<bool>, row: u8)
    requires |bits| <= 8 && forall c | 0 <= c < |bits| :: bits[c] <==> BitOf(row, c)
    ensures Spelt(bits) == Shr(row, 8 - |bits|)
  {
    RowSpelt(row);
    assert bits == Binary(row, 8)[..|bits|];
    Pow2Eight();
    FrontSpelt(row, 8, |bits|);
  }

  lemma Pow2Eight()
    ensures Pow2(8) == 256
  {
    assert Pow2(4) == 16;
    Pow2Add(4, 4);
  }

  /** Dath_DrawChar: the glyph's cell, clipped, foreground where the glyph is set. */
  method DrawChar(fb: Framebuffer, font: Font, x: int, y: int, code: u8, fg: u32, bg: u32)
    requires fb.Valid() && font.Valid()
    modifies fb.px
    ensures forall xx, yy | fb.Inside(xx, yy) ::
              fb.px[yy, xx] == if x <= xx < x + font.width && y <= yy < y + font.height
                               then Stored(fb.format, if font.Bit(code, xx - x, yy - y) then fg else bg)
                               else old(fb.px[yy, xx])
    ensures OnSurface(fb, x, y, font.width, font.height) && Stored(fb.format, fg) != Stored(fb.format, bg) ==>
              Spells(fb, font, x, y, code, fg)
  {
    DrawCell(fb, font, x, y, code, fg, bg);
    if OnSurface(fb, x, y, font.width, font.height) && Stored(fb.format, fg) != Stored(fb.format, bg) {
      PaintedSpells(fb, font, x, y, code, fg, bg);
    }
  }

  method DrawCell(fb: Framebuffer, font: Font, x: int, y: int, code: u8, fg: u32, bg: u32)
    requires fb.Valid() && font.Valid()
    modifies fb.px
    ensures forall xx, yy | fb.Inside(xx, yy) ::
              fb.px[yy, xx] == if x <= xx < x + font.width && y <= yy < y + font.height
                               then Stored(fb.format, if font.Bit(code, xx - x, yy - y) then fg else bg)
                               else old(fb.px[yy, xx])
  {
    if code < font.first || code > font.last {
      fb.FillRect(x, y, font.width, font.height, bg);
      return;
    }
    for r := 0 to font.height
      invariant forall xx, yy | fb.Inside(xx, yy) ::
                  fb.px[yy, xx] == if x <= xx < x + font.width && y <= yy < y + r
                                   then Stored(fb.format, if font.Bit(code, xx - x, yy - y) then fg else bg)
                                   else old(fb.px[yy, xx])
    {
      font.RowInBitmap(code, r);
      var row := font.bitmap[(code - font.first) * font.height + r];
      for c := 0 to font.width
        invariant forall xx, yy | fb.Inside(xx, yy) ::
                    fb.px[yy, xx] == if x <= xx < x + font.width && (y <= yy < y + r || (yy == y + r && xx < x + c))
                                     then Stored(fb.format, if font.Bit(code, xx - x, yy - y) then fg else bg)
                                     else old(fb.px[yy, xx])
      {
        var lit := BitOf(row, c);
        assert font.Bit(code, c, r) == lit;
        fb.Pixel(x + c, y + r, if lit then fg else bg);
      }
    }
  }

  // ---- the strike --------------------------------------------------------------

  const MAX_GLYPHS: nat := 96

  lemma InRow(row: nat, rows: nat, size: nat, i: nat)
    requires row < rows && i < size
    ensures 0 <= row * size + i < rows * size
  {
    MulMono(row + 1, rows, size);
    assert (row + 1) * size == row * size + size;
  }

  /** The columns of a row of bytes, from left to right. */
  function Strip(bytes: seq<u8>): (bits: seq<bool>)
    ensures |bits| == 8 * |bytes|
  {
    if bytes == [] then [] else Binary(bytes[0], 8) + Strip(bytes[1..])
  }

  lemma {:induction false} StripAt(bytes: seq<u8>, b: nat)
    requires b < 8 * |bytes|
    ensures Strip(bytes)[b] <==> BitOf(bytes[b / 8], b % 8)
  {
    if b < 8 {
      RowSpelt(bytes[0]);
    } else {
      StripAt(bytes[1..], b - 8);
      EightLess(b);
    }
  }

  lemma EightLess(b: nat)
    requires b >= 8
    ensures (b - 8) / 8 == b / 8 - 1 && (b - 8) % 8 == b % 8
  {}

  /** A TextFont: glyphs side by side, `modulo` bytes per row, located by charLoc. */
  datatype TextFont = TextFont(loChar: u8, hiChar: u8, xSize: nat, ySize: nat, modulo: nat,
                               charData: Option<seq<u8>>, charLoc: Option<seq<u32>>,
                               charSpace: Option<seq<nat>>, proportional: bool)
  {
    function Count(): nat { if hiChar >= loChar then hiChar - loChar + 1 else 0 }

    /** The slot of a code; out-of-range codes share the default slot after the glyphs. */
    function Slot(code: nat): (i: nat)
      ensures i <= Count()
    {
      if loChar <= code <= hiChar then code - loChar else Count()
    }

    function BitOffset(i: nat): nat
      requires charLoc.Some? ==> i < |charLoc.value|
    {
      if charLoc.Some? then charLoc.value[i] / 0x1_0000 else i * xSize
    }

    function Width(i: nat): nat
      requires charLoc.Some? ==> i < |charLoc.value|
    {
      if charLoc.Some? then charLoc.value[i] % 0x1_0000 else xSize
    }

    /** Every slot, the default one included, lies within the strike's rows. */
    ghost predicate Valid() {
      && (charLoc.Some? ==> Count() < |charLoc.value|)
      && (charSpace.Some? ==> Count() < |charSpace.value|)
      && (charData.Some? ==> |charData.value| == ySize * modulo)
      && (forall i | 0 <= i <= Count() :: BitOffset(i) + Width(i) <= 8 * modulo)
    }

    lemma RowInStrike(i: nat, xx: nat, yy: nat)
      requires Valid() && charData.Some? && i <= Count() && xx < Width(i) && yy < ySize
      ensures 0 <= yy * modulo + (BitOffset(i) + xx) / 8 < |charData.value|
    {
      assert BitOffset(i) + Width(i) <= 8 * modulo;
      InRow(yy, ySize, modulo, (BitOffset(i) + xx) / 8);
    }

    /** Is pixel (xx, yy) of slot i set in the strike? */
    ghost predicate Bit(i: nat, xx: nat, yy: nat)
      requires Valid() && charData.Some? && i <= Count() && xx < Width(i) && yy < ySize
    {
      RowInStrike(i, xx, yy);
      var b := BitOffset(i) + xx;
      BitOf(charData.value[yy * modulo + b / 8], b % 8)
    }

    /** Row yy of the strike, all glyphs side by side. */
    ghost function RowBytes(yy: nat): (row: seq<u8>)
      requires Valid() && charData.Some? && yy < ySize
      ensures |row| == modulo
    {
      RowEnds(yy);
      charData.value[yy * modulo..yy * modulo + modulo]
    }

    lemma RowEnds(yy: nat)
      requires Valid() && charData.Some? && yy < ySize
      ensures 0 <= yy * modulo <= yy * modulo + modulo <= |charData.value|
    {
      MulMono(yy + 1, ySize, modulo);
      assert (yy + 1) * modulo == yy * modulo + modulo;
    }

    lemma BitInStrip(i: nat, xx: nat, yy: nat)
      requires Valid() && charData.Some? && i <= Count() && xx < Width(i) && yy < ySize
      ensures BitOffset(i) + xx < 8 * modulo
      ensures Bit(i, xx, yy) <==> Strip(RowBytes(yy))[BitOffset(i) + xx]
    {
      assert BitOffset(i) + Width(i) <= 8 * modulo;
      var b, row := BitOffset(i) + xx, RowBytes(yy);
      StripAt(row, b);
      RowByteAt(yy, b / 8);
    }

    lemma RowByteAt(yy: nat, k: nat)
      requires Valid() && charData.Some? && yy < ySize && k < modulo
      ensures 0 <= yy * modulo + k < |charData.value| && RowBytes(yy)[k] == charData.value[yy * modulo + k]
    {
      RowEnds(yy);
    }

    function Advance(code: nat): nat
      requires charSpace.Some? ==> Count() < |charSpace.value|
    {
      if proportional && charSpace.Some? then charSpace.value[Slot(code)] else xSize
    }
  }

  /** gfx_draw_glyph: the cell of the code's slot, clipped; returns the advance. */
  method DrawGlyph(fb: Framebuffer, tf: TextFont, code: u8, x: int, y: int, fg: u32, bg: u32) returns (advance: nat)
    requires fb.Valid() && tf.Valid()
    modifies fb.px
    ensures advance == tf.Advance(code)
    ensures forall xx, yy | fb.Inside(xx, yy) ::
              fb.px[yy, xx] == if tf.charData.Some? && tf.modulo != 0
                                  && x <= xx < x + tf.Width(tf.Slot(code)) && y <= yy < y + tf.ySize
                               then Stored(fb.format, if tf.Bit(tf.Slot(code), xx - x, yy - y) then fg else bg)
                               else old(fb.px[yy, xx])
    ensures tf.charData.Some? && tf.modulo != 0 && OnSurface(fb, x, y, tf.Width(tf.Slot(code)), tf.ySize) ==>
              Stored(fb.format, fg) == Stored(fb.format, bg) || Copies(fb, tf, x, y, tf.Slot(code), fg)
  {
    advance := DrawSlot(fb, tf, code, x, y, fg, bg);
    if tf.charData.Some? && tf.modulo != 0 && OnSurface(fb, x, y, tf.Width(tf.Slot(code)), tf.ySize) {
      if Stored(fb.format, fg) != Stored(fb.format, bg) { SlotCopied(fb, tf, x, y, tf.Slot(code), fg, bg); }
    }
  }

  /** The foreground pixels of every row of the cell are the slot's stretch of the strike's row. */
  ghost predicate Copies(fb: Framebuffer, tf: TextFont, x: int, y: int, i: nat, fg: u32)
    requires fb.Valid() && tf.Valid() && tf.charData.Some? && i <= tf.Count()
    requires OnSurface(fb, x, y, tf.Width(i), tf.ySize)
    reads fb.px
  {
    assert tf.BitOffset(i) + tf.Width(i) <= 8 * tf.modulo;
    forall r | 0 <= r < tf.ySize ::
      Lit(fb, x, y + r, tf.Width(i), fg) == Strip(tf.RowBytes(r))[tf.BitOffset(i)..tf.BitOffset(i) + tf.Width(i)]
  }

  lemma SlotCopied(fb: Framebuffer, tf: TextFont, x: int, y: int, i: nat, fg: u32, bg: u32)
    requires fb.Valid() && tf.Valid() && tf.charData.Some? && i <= tf.Count()
    requires OnSurface(fb, x, y, tf.Width(i), tf.ySize) && Stored(fb.format, fg) != Stored(fb.format, bg)
    requires forall c, r | 0 <= c < tf.Width(i) && 0 <= r < tf.ySize ::
               fb.px[y + r, x + c] == Stored(fb.format, if tf.Bit(i, c, r) then fg else bg)
    ensures Copies(fb, tf, x, y, i, fg)
  {
    var off, w := tf.BitOffset(i), tf.Width(i);
    assert off + w <= 8 * tf.modulo;
    forall r | 0 <= r < tf.ySize
      ensures Lit(fb, x, y + r, w, fg) == Strip(tf.RowBytes(r))[off..off + w]
    {
      var lit, strip := Lit(fb, x, y + r, w, fg), Strip(tf.RowBytes(r));
      forall c | 0 <= c < w ensures lit[c] == strip[off + c] { tf.BitInStrip(i, c, r); }
    }
  }

  method DrawSlot(fb: Framebuffer, tf: TextFont, code: u8, x: int, y: int, fg: u32, bg: u32) returns (advance: nat)
    requires fb.Valid() && tf.Valid()
    modifies fb.px
    ensures advance == tf.Advance(code)
    ensures forall xx, yy | fb.Inside(xx, yy) ::
              fb.px[yy, xx] == if tf.charData.Some? && tf.modulo != 0
                                  && x <= xx < x + tf.Width(tf.Slot(code)) && y <= yy < y + tf.ySize
                               then Stored(fb.format, if tf.Bit(tf.Slot(code), xx - x, yy - y) then fg else bg)
                               else old(fb.px[yy, xx])
  {
    var i := tf.Slot(code);
    var bitOff, width := tf.BitOffset(i), tf.Width(i);
    advance := tf.Advance(code);
    if tf.charData.Some? && tf.modulo != 0 {
      for r := 0 to tf.ySize
        invariant forall xx, yy | fb.Inside(xx, yy) ::
                    fb.px[yy, xx] == if x <= xx < x + width && y <= yy < y + r
                                     then Stored(fb.format, if tf.Bit(i, xx - x, yy - y) then fg else bg)
                                     else old(fb.px[yy, xx])
      {
        for c := 0 to width
          invariant forall xx, yy | fb.Inside(xx, yy) ::
                      fb.px[yy, xx] == if (x <= xx < x + width && y <= yy < y + r) || (yy == y + r && x <= xx < x + c)
                                       then Stored(fb.format, if tf.Bit(i, xx - x, yy - y) then fg else bg)
                                       else old(fb.px[yy, xx])
        {
          tf.RowInStrike(i, c, r);
          var b := bitOff + c;
          var lit := BitOf(tf.charData.value[r * tf.modulo + b / 8], b % 8);
          assert tf.Bit(i, c, r) == lit;
          fb.Pixel(x + c, y + r, if lit then fg else bg);
        }
      }
    }
  }

  // ---- building the system strike -----------------------------------------------

  /** The fonts the strike builder accepts. */
  predicate Packable(font: Font) {
    font.width == 8 && font.height == 8 && font.first <= font.last && font.last - font.first + 1 <= MAX_GLYPHS
  }

  function GlyphCount(font: Font): nat
    requires Packable(font)
  {
    font.last - font.first + 1
  }

  /** Byte k of the strike: row k / modulo of glyph k % modulo, the last column blank. */
  function StrikeByte(font: Font, k: nat): u8
    requires Packable(font) && |font.bitmap| == GlyphCount(font) * 8 && k < 8 * (GlyphCount(font) + 1)
  {
    var m := GlyphCount(font) + 1;
    RowColumn(k, m);
    if k % m < GlyphCount(font) then font.bitmap[k % m * 8 + k / m] else 0
  }

  lemma RowColumn(k: nat, m: nat)
    requires 0 < m && k < 8 * m
    ensures 0 <= k / m < 8 && 0 <= k % m < m && k == k / m * m + k % m
  {
    assert k == m * (k / m) + k % m;
  }

  /** The bytes written so far: glyphs before g, and rows before r of glyph g. */
  predicate Reached(k: nat, m: nat, g: nat, r: nat)
    requires 0 < m
  {
    k % m < g || (k % m == g && k / m < r)
  }

  lemma ReachedNext(k: nat, m: nat, g: nat, r: nat)
    requires g < m && r < 8 && k < 8 * m
    ensures 0 <= r * m + g < 8 * m
    ensures (r * m + g) / m == r && (r * m + g) % m == g
    ensures Reached(k, m, g, r + 1) <==> Reached(k, m, g, r) || k == r * m + g
    ensures r == 7 ==> (Reached(k, m, g, 8) <==> Reached(k, m, g + 1, 0))
  {
    MulMono(r + 1, 8, m);
    DivModUnique(r * m + g, m, r, g);
    RowColumn(k, m);
  }

  /** The strike holds what has been packed so far, and zeroes. */
  ghost predicate Packed(font: Font, strike: array<u8>, g: nat, r: nat)
    requires font.Valid() && Packable(font) && strike.Length == (MAX_GLYPHS + 1) * 8
    reads strike
  {
    var m := GlyphCount(font) + 1;
    forall k | 0 <= k < 8 * m :: strike[k] == if Reached(k, m, g, r) then StrikeByte(font, k) else 0
  }

  /** The inner loop: one glyph's rows into its column. */
  method PackGlyph(font: Font, strike: array<u8>, g: nat)
    requires font.Valid() && Packable(font) && strike.Length == (MAX_GLYPHS + 1) * 8
    requires g < GlyphCount(font) && Packed(font, strike, g, 0)
    modifies strike
    ensures Packed(font, strike, g + 1, 0)
  {
    var m := GlyphCount(font) + 1;
    for r := 0 to 8
      invariant Packed(font, strike, g, r)
    {
      forall k | 0 <= k < 8 * m
        ensures Reached(k, m, g, r + 1) <==> Reached(k, m, g, r) || k == r * m + g
      {
        ReachedNext(k, m, g, r);
      }
      ReachedNext(0, m, g, r);
      strike[r * m + g] := font.bitmap[g * 8 + r];
    }
    forall k | 0 <= k < 8 * m ensures Reached(k, m, g, 8) <==> Reached(k, m, g + 1, 0) {
      ReachedNext(k, m, g, 7);
    }
  }

  /** gfx_build_system_strike, into zeroed buffers. */
  method BuildStrike(font: Font, strike: array<u8>, charLoc: array<u32>) returns (ok: bool)
    requires font.Valid() && strike.Length == (MAX_GLYPHS + 1) * 8 && charLoc.Length == MAX_GLYPHS + 1
    requires forall k | 0 <= k < strike.Length :: strike[k] == 0
    modifies strike, charLoc
    ensures ok <==> Packable(font)
    ensures ok ==> SystemFont(font).charData == Some(strike[..8 * (GlyphCount(font) + 1)])
    ensures ok ==> SystemFont(font).charLoc == Some(charLoc[..GlyphCount(font) + 1])
    ensures !ok ==> strike[..] == old(strike[..]) && charLoc[..] == old(charLoc[..])
  {
    if font.width != 8 || font.height != 8 || font.last < font.first || font.last - font.first + 1 > MAX_GLYPHS {
      return false;
    }
    var ng := font.last - font.first + 1;
    for g := 0 to ng
      invariant Packed(font, strike, g, 0)
      invariant forall i | 0 <= i < g :: charLoc[i] == i * 8 * 0x1_0000 + 8
    {
      PackGlyph(font, strike, g);
      charLoc[g] := g * 8 * 0x1_0000 + 8;
    }
    charLoc[ng] := ng * 8 * 0x1_0000 + 8;
    PackedAll(font, strike);
    assert SystemFont(font).charLoc.value == charLoc[..ng + 1];
    return true;
  }

  lemma PackedAll(font: Font, strike: array<u8>)
    requires font.Valid() && Packable(font) && strike.Length == (MAX_GLYPHS + 1) * 8
    requires Packed(font, strike, GlyphCount(font), 0)
    ensures SystemFont(font).charData == Some(strike[..8 * (GlyphCount(font) + 1)])
  {
    var m := GlyphCount(font) + 1;
    forall k | 0 <= k < 8 * m ensures strike[k] == StrikeByte(font, k) {
      RowColumn(k, m);
    }
    assert SystemFont(font).charData.value == strike[..8 * m];
  }

  /** The TextFont gfx_system_font publishes: the character bounds are cut to bytes. */
  function SystemFont(font: Font): TextFont
    requires Packable(font) && |font.bitmap| == GlyphCount(font) * 8
  {
    var m := GlyphCount(font) + 1;
    TextFont(font.first % 0x100, font.last % 0x100, 8, 8, m,
             Some(seq(8 * m, k requires 0 <= k < 8 * m => StrikeByte(font, k))),
             Some(seq(m, g requires 0 <= g < m => g * 8 * 0x1_0000 + 8)), None, false)
  }

  lemma SystemFontSlots(font: Font, i: nat)
    requires font.Valid() && Packable(font) && i <= GlyphCount(font)
    ensures SystemFont(font).BitOffset(i) == 8 * i && SystemFont(font).Width(i) == 8
  {
    DivModUnique(i * 8 * 0x1_0000 + 8, 0x1_0000, i * 8, 8);
  }

  lemma SystemFontValid(font: Font)
    requires font.Valid() && Packable(font)
    ensures SystemFont(font).Valid() && SystemFont(font).Count() <= GlyphCount(font)
  {
    var tf := SystemFont(font);
    CountAfterTruncation(font);
    forall i | 0 <= i <= tf.Count() ensures tf.BitOffset(i) + tf.Width(i) <= 8 * tf.modulo {
      SystemFontSlots(font, i);
    }
  }

  /** Cutting the bounds to bytes never grows the glyph range. */
  lemma CountAfterTruncation(font: Font)
    requires Packable(font)
    ensures SystemCount(font.first, font.last) <= GlyphCount(font)
    ensures font.last <= 255 ==> SystemCount(font.first, font.last) == GlyphCount(font)
  {
    var qf, ql := font.first / 0x100, font.last / 0x100;
    assert font.first == 0x100 * qf + font.first % 0x100 && font.last == 0x100 * ql + font.last % 0x100;
  }

  function SystemCount(first: u32, last: u32): nat {
    var lo, hi := first % 0x100, last % 0x100;
    if hi >= lo then hi - lo + 1 else 0
  }

  lemma BlankRow(xx: nat)
    requires xx < 8
    ensures !BitOf(0, xx)
  {
    DivModUnique(0, Pow2(7 - xx), 0, 0);
  }

  /** The byte of the strike for row yy of slot i. */
  lemma StrikeRow(font: Font, i: nat, yy: nat)
    requires font.Valid() && Packable(font) && i <= GlyphCount(font) && yy < 8
    ensures var k := yy * (GlyphCount(font) + 1) + i;
      && 0 <= k < 8 * (GlyphCount(font) + 1)
      && StrikeByte(font, k) == if i < GlyphCount(font) then font.bitmap[i * 8 + yy] else 0
  {
    ReachedNext(0, GlyphCount(font) + 1, i, yy);
  }

  lemma FontRow(font: Font, i: nat, xx: nat, yy: nat)
    requires font.Valid() && Packable(font) && i <= GlyphCount(font) && xx < 8 && yy < 8
    ensures font.Bit(font.first + i, xx, yy) <==> i < GlyphCount(font) && BitOf(font.bitmap[i * 8 + yy], xx)
  {}

  lemma SystemFontByte(font: Font, i: nat, xx: nat, yy: nat, k: nat)
    requires font.Valid() && Packable(font) && SystemFont(font).Valid() && i <= SystemFont(font).Count()
    requires xx < 8 && yy < 8 && i <= GlyphCount(font)
    requires k == yy * (GlyphCount(font) + 1) + i < 8 * (GlyphCount(font) + 1)
    ensures SystemFont(font).Width(i) == 8
    ensures SystemFont(font).Bit(i, xx, yy) <==> BitOf(StrikeByte(font, k), xx)
  {
    SystemFontSlots(font, i);
    DivModUnique(8 * i + xx, 8, i, xx);
    assert SystemFont(font).charData.value[k] == StrikeByte(font, k);
  }

  /** Bit (xx, yy) of slot i in the strike is that bit of glyph i, or blank in the last column. */
  lemma SystemFontBit(font: Font, i: nat, xx: nat, yy: nat)
    requires font.Valid() && Packable(font) && SystemFont(font).Valid() && i <= SystemFont(font).Count()
    requires xx < 8 && yy < 8 && i <= GlyphCount(font)
    ensures SystemFont(font).Width(i) == 8
    ensures SystemFont(font).Bit(i, xx, yy) <==> font.Bit(font.first + i, xx, yy)
  {
    StrikeRow(font, i, yy);
    FontRow(font, i, xx, yy);
    BlankRow(xx);
    SystemFontByte(font, i, xx, yy, yy * (GlyphCount(font) + 1) + i);
  }

  /** The two drawing paths agree on pixel (xx, yy) of a code. */
  ghost predicate AgreesAt(font: Font, code: nat, xx: nat, yy: nat)
    requires font.Valid() && Packable(font) && xx < 8 && yy < 8
  {
    SystemFontValid(font);
    var tf := SystemFont(font);
    tf.Width(tf.Slot(code)) == 8 && (tf.Bit(tf.Slot(code), xx, yy) <==> font.Bit(code, xx, yy))
  }

  ghost predicate Agrees(font: Font)
    requires font.Valid() && Packable(font)
  {
    forall code: nat, xx: nat, yy: nat | code < 0x100 && xx < 8 && yy < 8 :: AgreesAt(font, code, xx, yy)
  }

  lemma ByteSlot(font: Font, code: nat)
    requires font.Valid() && Packable(font) && font.last <= 255
    ensures SystemFont(font).Count() == GlyphCount(font)
    ensures SystemFont(font).Slot(code) == if font.Covers(code) then code - font.first else GlyphCount(font)
  {
    CountAfterTruncation(font);
  }

  lemma CodeAgrees(font: Font, code: nat, xx: nat, yy: nat)
    requires font.Valid() && Packable(font) && font.last <= 255 && xx < 8 && yy < 8
    ensures AgreesAt(font, code, xx, yy)
  {
    SystemFontValid(font);
    ByteSlot(font, code);
    var i := SystemFont(font).Slot(code);
    SystemFontBit(font, i, xx, yy);
    assert font.Bit(code, xx, yy) <==> font.Bit(font.first + i, xx, yy);
  }

  lemma FullRow()
    ensures BitOf(255, 0)
  {
    assert Pow2(7) == 128;
  }

  /** A font whose codes fit in a byte draws the same from the strike as from its bitmap, blank
      default glyph included. */
  lemma StrikeAgrees(font: Font)
    requires font.Valid() && Packable(font) && font.last <= 255
    ensures Agrees(font)
  {
    forall code: nat, xx: nat, yy: nat | code < 0x100 && xx < 8 && yy < 8 ensures AgreesAt(font, code, xx, yy) {
      CodeAgrees(font, code, xx, yy);
    }
  }

  /** Beyond a byte the cut bounds misplace the glyphs: for every such range there is a font the
      builder accepts and a code it then draws wrongly. */
  lemma StrikeDisagrees(first: u32, last: u32) returns (font: Font, code: u8)
    requires first <= last && last - first + 1 <= MAX_GLYPHS && last > 255
    ensures font.first == first && font.last == last && font.Valid() && Packable(font)
    ensures !Agrees(font)
  {
    var n := last - first + 1;
    font := Font(8, 8, first, last, seq(n * 8, i => 255));
    SystemFontValid(font);
    var tf := SystemFont(font);
    code := if first > 255 then first % 0x100 else 0;
    assert tf.Slot(code) == 0;
    SystemFontBit(font, 0, 0, 0);
    font.RowInBitmap(first, 0);
    FullRow();
    assert !AgreesAt(font, code, 0, 0);
  }

  /** The same statement on surfaces: two equal surfaces stay equal when one is drawn on from
      the bitmap and the other from the strike. */
  method DrawBothWays(a: Framebuffer, b: Framebuffer, font: Font, code: u8, x: int, y: int, fg: u32, bg: u32)
    requires a.Valid() && b.Valid() && a.px != b.px
    requires a.width == b.width && a.height == b.height && a.format == b.format
    requires forall xx, yy | a.Inside(xx, yy) :: a.px[yy, xx] == b.px[yy, xx]
    requires font.Valid() && Packable(font) && font.last <= 255
    modifies a.px, b.px
    ensures forall xx, yy | a.Inside(xx, yy) :: a.px[yy, xx] == b.px[yy, xx]
  {
    StrikeAgrees(font);
    SystemFontValid(font);
    var tf := SystemFont(font);
    assert AgreesAt(font, code, 0, 0);
    DrawChar(a, font, x, y, code, fg, bg);
    var _ := DrawGlyph(b, tf, code, x, y, fg, bg);
    forall xx, yy | a.Inside(xx, yy) ensures a.px[yy, xx] == b.px[yy, xx] {
      if x <= xx < x + 8 && y <= yy < y + 8 {
        assert AgreesAt(font, code, xx - x, yy - y);
      }
    }
  }

  // ---- Text and TextLength --------------------------------------------------------

  function AdvanceSum(tf: TextFont, s: seq<u8>): nat
    requires tf.Valid()
  {
    if s == [] then 0 else AdvanceSum(tf, s[..|s| - 1]) + tf.Advance(s[|s| - 1])
  }

  /** A code of a proportional font advances by its own entry of the space table, and one outside the font
      by the entry after the last. */
  lemma OneAdvance(tf: TextFont, c: u8)
    requires tf.Valid() && tf.proportional && tf.charSpace.Some? && tf.loChar <= tf.hiChar
    ensures AdvanceSum(tf, [c])
         == tf.charSpace.value[if tf.loChar <= c <= tf.hiChar then c - tf.loChar else tf.hiChar - tf.loChar + 1]
  {
    assert [c][..0] == [];
  }

  /** The LONG cast of a 32-bit product. */
  function ToLong(x: int): int { (x + 0x8000_0000) % 0x1_0000_0000 - 0x8000_0000 }

  lemma ToLongExactly(x: nat)
    ensures ToLong(x) == x <==> x < 0x8000_0000
  {
    var q, r := Divide(x + 0x8000_0000, 0x1_0000_0000);
  }

  /** TextLength: a product for a monospaced font, a loop for a proportional one. It is the sum of
      the advances exactly while that fits a LONG, or the font is proportional. */
  method TextLength(tf: TextFont, s: seq<u8>) returns (w: int)
    requires tf.Valid()
    ensures w == AdvanceSum(tf, s) <==> (tf.proportional && tf.charSpace.Some?) || AdvanceSum(tf, s) < 0x8000_0000
    ensures w % 0x1_0000_0000 == AdvanceSum(tf, s) % 0x1_0000_0000
  {
    if tf.proportional && tf.charSpace.Some? {
      w := 0;
      for i := 0 to |s|
        invariant w == AdvanceSum(tf, s[..i])
      {
        assert s[..i + 1][..i] == s[..i];
        w := w + tf.charSpace.value[tf.Slot(s[i])];
      }
      assert s[..|s|] == s;
    } else {
      MonospacedSum(tf, s);
      ToLongExactly(|s| * tf.xSize);
      w := ToLong(|s| * tf.xSize);
    }
  }

  lemma {:induction false} MonospacedSum(tf: TextFont, s: seq<u8>)
    requires tf.Valid() && !(tf.proportional && tf.charSpace.Some?)
    ensures AdvanceSum(tf, s) == |s| * tf.xSize
  {
    if s != [] {
      MonospacedSum(tf, s[..|s| - 1]);
      assert |s| * tf.xSize == (|s| - 1) * tf.xSize + tf.xSize;
    }
  }

  /** The WORD cast of the graphics cursor. */
  function ToWord(x: int): int { (x + 0x8000) % 0x1_0000 - 0x8000 }

  /** Where glyph i of a text that starts at x begins. */
  function GlyphX(tf: TextFont, s: seq<u8>, x: int, i: nat): int
    requires tf.Valid() && i <= |s|
  {
    x + AdvanceSum(tf, s[..i])
  }

  /** The last of the first n glyphs whose cell covers column xx, or -1. */
  function Topmost(tf: TextFont, s: seq<u8>, x: int, n: nat, xx: int): (t: int)
    requires tf.Valid() && n <= |s|
    ensures -1 <= t < n
    ensures t >= 0 ==> 0 <= xx - GlyphX(tf, s, x, t) < tf.Width(tf.Slot(s[t]))
  {
    if n == 0 then -1
    else if 0 <= xx - GlyphX(tf, s, x, n - 1) < tf.Width(tf.Slot(s[n - 1])) then n - 1
    else Topmost(tf, s, x, n - 1, xx)
  }

  /** The pixel at (xx, yy) after the first n glyphs, given what was there. */
  ghost function TextPixel(f: Format, tf: TextFont, s: seq<u8>, x: int, y: int, fg: u32, bg: u32,
                           n: nat, xx: int, yy: int, was: u32): u32
    requires tf.Valid() && n <= |s|
  {
    var t := Topmost(tf, s, x, n, xx);
    if t < 0 || tf.charData.None? || tf.modulo == 0 || yy < y || y + tf.ySize <= yy then was
    else Stored(f, if tf.Bit(tf.Slot(s[t]), xx - GlyphX(tf, s, x, t), yy - y) then fg else bg)
  }

  /** Text: draws each glyph where the last one ended, a later cell over an earlier one, and
      moves the cursor by TextLength. */
  method Text(fb: Framebuffer, tf: TextFont, s: seq<u8>, cpX: int, cpY: int, fg: u32, bg: u32) returns (cpX': int)
    requires fb.Valid() && tf.Valid()
    modifies fb.px
    ensures cpX' == ToWord(cpX + AdvanceSum(tf, s))
    ensures forall xx, yy | fb.Inside(xx, yy) ::
              fb.px[yy, xx] == TextPixel(fb.format, tf, s, cpX, cpY, fg, bg, |s|, xx, yy, old(fb.px[yy, xx]))
  {
    var x := cpX;
    for i := 0 to |s|
      invariant x == GlyphX(tf, s, cpX, i)
      invariant forall xx, yy | fb.Inside(xx, yy) ::
                  fb.px[yy, xx] == TextPixel(fb.format, tf, s, cpX, cpY, fg, bg, i, xx, yy, old(fb.px[yy, xx]))
    {
      assert s[..i + 1][..i] == s[..i];
      var advance := DrawGlyph(fb, tf, s[i], x, cpY, fg, bg);
      x := x + advance;
    }
    assert s[..|s|] == s;
    cpX' := ToWord(x);
  }
}
