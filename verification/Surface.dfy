/**
 The drawing surface of src/croi/dath: clipped pixel and rectangle writes.

 A surface is a height by width array of stored pixel values. ByteSpansDisjoint shows that the
 source's base + y * stride + x * bpp layout keeps distinct pixels in distinct bytes of the
 buffer, which is what makes an array of pixels a faithful picture of it.
 */
module Surface {
  import opened Arithmetic

  datatype Format = Rgba8888 | Bgra8888 | Rgb565

  /** What a store of colour c leaves in a pixel: 16-bit surfaces keep the low half. */
  function Stored(f: Format, c: u32): u32 { if f.Rgb565? then c % 0x1_0000 else c }

  /** Dath_RGB565: the high bits of each channel. */
  function Rgb565(r: u8, g: u8, b: u8): u32 { r / 8 * 2048 + g / 4 * 32 + b / 8 }

  /** A 16-bit pixel keeps the channels of its colour, whatever the unused half holds, and a 32-bit one
      keeps the whole colour. */
  lemma ChannelsKept(f: Format, r: u8, g: u8, b: u8, unused: nat)
    requires unused < 0x1_0000
    ensures var c := Rgb565(r, g, b) + 0x1_0000 * unused;
      var v := Stored(f, c);
      && (f.Rgb565? ==> v / 2048 == r / 8 && v / 32 % 64 == g / 4 && v % 32 == b / 8)
      && (!f.Rgb565? ==> v == c)
  {
    Channels(r / 8, g / 4, b / 8, unused);
  }

  lemma Channels(x: nat, y: nat, z: nat, unused: nat)
    requires x < 32 && y < 64 && z < 32
    ensures var v := x * 2048 + y * 32 + z;
      (v + 0x1_0000 * unused) % 0x1_0000 == v && v / 2048 == x && v / 32 % 64 == y && v % 32 == z
  {
    var v := x * 2048 + y * 32 + z;
    DivModUnique(v + 0x1_0000 * unused, 0x1_0000, unused, v);
    DivModUnique(v, 2048, x, y * 32 + z);
    DivModUnique(v, 32, x * 64 + y, z);
    DivModUnique(x * 64 + y, 64, x, y);
  }

  function ByteOffset(stride: nat, bpp: nat, x: nat, y: nat): nat { y * stride + x * bpp }

  lemma RowFits(width: nat, stride: nat, bpp: nat, x: nat)
    requires x < width && width * bpp <= stride
    ensures (x + 1) * bpp <= stride
  {
    MulMono(x + 1, width, bpp);
  }

  /** Pixels in reading order occupy bytes in increasing order. */
  lemma ByteOffsetIncreasing(width: nat, stride: nat, bpp: nat, x: nat, y: nat, x': nat, y': nat)
    requires width * bpp <= stride && x < width
    requires y < y' || (y == y' && x < x')
    ensures ByteOffset(stride, bpp, x, y) + bpp <= ByteOffset(stride, bpp, x', y')
  {
    if y < y' {
      RowFits(width, stride, bpp, x);
      assert x * bpp + bpp == (x + 1) * bpp;
      assert y * stride + stride == (y + 1) * stride;
      MulMono(y + 1, y', stride);
    } else {
      assert x * bpp + bpp == (x + 1) * bpp;
      MulMono(x + 1, x', bpp);
    }
  }

  /** Distinct pixels of an initialised surface occupy disjoint bytes, all inside the buffer. */
  lemma ByteSpansDisjoint(width: nat, height: nat, stride: nat, bpp: nat, x: nat, y: nat, x': nat, y': nat)
    requires 0 < bpp && width * bpp <= stride
    requires x < width && y < height && x' < width && y' < height && (x, y) != (x', y')
    ensures ByteOffset(stride, bpp, x, y) + bpp <= height * stride
    ensures ByteOffset(stride, bpp, x, y) + bpp <= ByteOffset(stride, bpp, x', y')
         || ByteOffset(stride, bpp, x', y') + bpp <= ByteOffset(stride, bpp, x, y)
  {
    ByteOffsetIncreasing(width, stride, bpp, x, y, 0, height);
    if y < y' || (y == y' && x < x') {
      ByteOffsetIncreasing(width, stride, bpp, x, y, x', y');
    } else {
      ByteOffsetIncreasing(width, stride, bpp, x', y', x, y);
    }
  }

  ghost predicate IsImage(m: seq<seq<u32>>, width: nat, height: nat) {
    |m| == height && forall y | 0 <= y < height :: |m[y]| == width
  }

  class Framebuffer {
    const width: nat
    const height: nat
    const format: Format
    const px: array2<u32>

    ghost predicate Valid() {
      0 < width && 0 < height && px.Length0 == height && px.Length1 == width
    }

    predicate Inside(x: int, y: int) { 0 <= x < width && 0 <= y < height }

    /** The pixels as a value, row by row. */
    ghost function Image(): (m: seq<seq<u32>>)
      requires Valid()
      reads px
      ensures IsImage(m, width, height)
    {
      seq(height, y requires 0 <= y < height reads px =>
        seq(width, x requires 0 <= x < width reads px => px[y, x]))
    }

    /** Dath_Pixel. */
    method Pixel(x: int, y: int, c: u32)
      requires Valid()
      modifies px
      ensures forall xx, yy | Inside(xx, yy) ::
                px[yy, xx] == if (xx, yy) == (x, y) then Stored(format, c) else old(px[yy, xx])
    {
      if x < 0 || y < 0 || x >= width || y >= height {
        return;
      }
      px[y, x] := Stored(format, c);
    }

    /** Dath_FillRect: exactly the visible part of the rectangle changes. */
    method FillRect(x: int, y: int, w: int, h: int, c: u32)
      requires Valid()
      modifies px
      ensures forall xx, yy | Inside(xx, yy) ::
                px[yy, xx] == if x <= xx < x + w && y <= yy < y + h then Stored(format, c) else old(px[yy, xx])
    {
      if w <= 0 || h <= 0 {
        return;
      }
      var x0, y0 := Max(x, 0), Max(y, 0);
      var x1, y1 := Min(x + w, width), Min(y + h, height);
      if x0 >= x1 || y0 >= y1 {
        return;
      }
      for row := y0 to y1
        invariant forall xx, yy | Inside(xx, yy) ::
                    px[yy, xx] == if x0 <= xx < x1 && y0 <= yy < row then Stored(format, c) else old(px[yy, xx])
      {
        for i := 0 to x1 - x0
          invariant forall xx, yy | Inside(xx, yy) ::
                      px[yy, xx] == if (x0 <= xx < x1 && y0 <= yy < row) || (yy == row && x0 <= xx < x0 + i)
                                    then Stored(format, c) else old(px[yy, xx])
        {
          px[row, x0 + i] := Stored(format, c);
        }
      }
    }
  }
}
