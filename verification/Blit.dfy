/**
 Dath_BlitRect: independent clipping on both sides, then a row-by-row copy that may read what
 it has already written when source and destination are one surface.
 */
module Blit {
  import opened Arithmetic
  import opened Surface

  /** The request, with the sizes of the two surfaces. */
  datatype Request = Request(dx: int, dy: int, sx: int, sy: int, w: int, h: int,
                             dw: nat, dh: nat, sw: nat, sh: nat, same: bool)
  {
    function Ex(): int { dx - sx }
    function Ey(): int { dy - sy }

    /** Destination pixel (x, y) is asked for, visible, and has a source pixel. */
    predicate Copied(x: int, y: int) {
      && dx <= x < dx + w && dy <= y < dy + h
      && 0 <= x < dw && 0 <= y < dh
      && 0 <= x - Ex() < sw && 0 <= y - Ey() < sh
    }

    /** Content moves down, or right within its rows. */
    predicate Forward() { Ey() > 0 || (Ey() == 0 && Ex() > 0) }

    /** The source pixel whose old value ends up in destination pixel (x, y). */
    ghost function Origin(x: int, y: int): (o: (int, int))
      requires Copied(x, y)
      ensures 0 <= o.0 < sw && 0 <= o.1 < sh
      decreases if Ey() > 0 then y - dy else x - dx
    {
      if same && Forward() && Copied(x - Ex(), y - Ey()) then Origin(x - Ex(), y - Ey())
      else (x - Ex(), y - Ey())
    }
  }

  /** The copied rectangle: its corner in the destination and its size. */
  datatype Clip = Clip(dx0: int, dy0: int, cw: int, ch: int)

  /** The source's clipping arithmetic. */
  function Clipped(q: Request): Clip {
    var sx0, sy0 := Max(q.sx, 0), Max(q.sy, 0);
    var sx1, sy1 := Min(q.sx + q.w, q.sw), Min(q.sy + q.h, q.sh);
    var dx0, dy0 := q.dx + (sx0 - q.sx), q.dy + (sy0 - q.sy);
    var sx0', dx0' := if dx0 < 0 then sx0 - dx0 else sx0, if dx0 < 0 then 0 else dx0;
    var sy0', dy0' := if dy0 < 0 then sy0 - dy0 else sy0, if dy0 < 0 then 0 else dy0;
    Clip(dx0', dy0', Min(sx1 - sx0', q.dw - dx0'), Min(sy1 - sy0', q.dh - dy0'))
  }

  /** The clipped rectangle is exactly the set of pixels with both ends in bounds. */
  lemma ClippedExact(q: Request, x: int, y: int)
    requires q.w > 0 && q.h > 0
    ensures var c := Clipped(q);
      q.Copied(x, y) <==> c.dx0 <= x < c.dx0 + c.cw && c.dy0 <= y < c.dy0 + c.ch
  {}

  lemma {:induction false} OriginBefore(q: Request, x: int, y: int)
    requires q.Copied(x, y) && q.Forward()
    ensures var (ox, oy) := q.Origin(x, y); oy < y || (oy == y && ox < x)
    decreases if q.Ey() > 0 then y - q.dy else x - q.dx
  {
    if q.same && q.Copied(x - q.Ex(), y - q.Ey()) {
      OriginBefore(q, x - q.Ex(), y - q.Ey());
    }
  }

  /** Within one surface a pixel already copied passes on its own origin. */
  lemma OriginStep(q: Request, x: int, y: int)
    requires q.Copied(x, y) && q.same
    ensures var (sx, sy) := (x - q.Ex(), y - q.Ey());
      q.Origin(x, y) == if q.Copied(sx, sy) && (sy < y || (sy == y && sx < x)) then q.Origin(sx, sy) else (sx, sy)
  {}

  /** Every pixel gets the old value of its own source. */
  ghost predicate Faithful(q: Request) {
    forall x, y | q.Copied(x, y) :: q.Origin(x, y) == (x - q.Ex(), y - q.Ey())
  }

  /** A blit is a simultaneous copy exactly unless it moves content down, or right within its
      rows, by less than the size of the clipped rectangle inside one surface. */
  lemma FaithfulExactly(q: Request)
    requires q.w > 0 && q.h > 0
    ensures var c := Clipped(q);
      Faithful(q) <==> !(q.same && q.Forward() && Abs(q.Ex()) < c.cw && Abs(q.Ey()) < c.ch)
  {
    var c := Clipped(q);
    if q.same && q.Forward() && Abs(q.Ex()) < c.cw && Abs(q.Ey()) < c.ch {
      var x, y := c.dx0 + Max(q.Ex(), 0), c.dy0 + q.Ey();
      ClippedExact(q, x, y);
      ClippedExact(q, x - q.Ex(), y - q.Ey());
      OriginBefore(q, x - q.Ex(), y - q.Ey());
      assert q.Origin(x, y) != (x - q.Ex(), y - q.Ey());
    } else {
      forall x, y | q.Copied(x, y)
        ensures q.Origin(x, y) == (x - q.Ex(), y - q.Ey())
      {
        ClippedExact(q, x, y);
        ClippedExact(q, x - q.Ex(), y - q.Ey());
      }
    }
  }

  /** A row of three pixels moved right by one inside its surface: the third gets the first one's
      value, not the second's. */
  lemma Smear()
    ensures var q := Request(1, 0, 0, 0, 2, 1, 3, 1, 3, 1, true);
      q.Copied(2, 0) && q.Origin(2, 0) == (0, 0) && !Faithful(q)
  {
    var q := Request(1, 0, 0, 0, 2, 1, 3, 1, 3, 1, true);
    assert q.Copied(1, 0) && q.Copied(2, 0) && !q.Copied(0, 0) && q.Origin(2, 0) == q.Origin(1, 0);
  }

  function RequestOf(dst: Framebuffer, dx: int, dy: int, src: Framebuffer, sx: int, sy: int, w: int, h: int): Request {
    Request(dx, dy, sx, sy, w, h, dst.width, dst.height, src.width, src.height, dst == src)
  }

  /** Dath_BlitRect. A surface is its own memory here, so two different surfaces never overlap. */
  method BlitRect(dst: Framebuffer, dx: int, dy: int, src: Framebuffer, sx: int, sy: int, w: int, h: int)
    requires dst.Valid() && src.Valid() && (dst != src ==> dst.px != src.px)
    modifies dst.px
    ensures forall x, y | dst.Inside(x, y) ::
              var q := RequestOf(dst, dx, dy, src, sx, sy, w, h);
              dst.px[y, x] == if dst.format == src.format && q.Copied(x, y)
                              then old(src.px[q.Origin(x, y).1, q.Origin(x, y).0]) else old(dst.px[y, x])
  {
    if w <= 0 || h <= 0 {
      return;
    }
    if dst.format != src.format {
      return;
    }
    var sx0, sy0 := Max(sx, 0), Max(sy, 0);
    var sx1, sy1 := Min(sx + w, src.width), Min(sy + h, src.height);
    var dx0, dy0 := dx + (sx0 - sx), dy + (sy0 - sy);
    if dx0 < 0 {
      sx0 := sx0 - dx0;
      dx0 := 0;
    }
    if dy0 < 0 {
      sy0 := sy0 - dy0;
      dy0 := 0;
    }
    var cw, ch := sx1 - sx0, sy1 - sy0;
    if dst.width - dx0 < cw {
      cw := dst.width - dx0;
    }
    if dst.height - dy0 < ch {
      ch := dst.height - dy0;
    }
    ghost var q := RequestOf(dst, dx, dy, src, sx, sy, w, h);
    forall x, y ensures q.Copied(x, y) <==> dx0 <= x < dx0 + cw && dy0 <= y < dy0 + ch {
      ClippedExact(q, x, y);
    }
    if cw <= 0 || ch <= 0 {
      return;
    }
    CopyRows(dst, dx0, dy0, src, sx0, sy0, cw, ch, q);
  }

  /** The rectangle whose corner in the destination is (dx0, dy0). */
  ghost predicate IsRect(q: Request, dx0: int, dy0: int, cw: int, ch: int) {
    forall x, y :: q.Copied(x, y) <==> dx0 <= x < dx0 + cw && dy0 <= y < dy0 + ch
  }

  /** Pixels up to row y, column x in reading order hold their final values, the others their
      old ones; `was` and `from` are the destination and the source before the copy. */
  ghost predicate CopiedUpTo(dst: Framebuffer, q: Request, was: seq<seq<u32>>, from: seq<seq<u32>>, x: int, y: int)
    requires dst.Valid() && q.dw == dst.width && q.dh == dst.height
    requires IsImage(was, q.dw, q.dh) && IsImage(from, q.sw, q.sh)
    reads dst.px
  {
    forall xx, yy | dst.Inside(xx, yy) ::
      dst.px[yy, xx] == if q.Copied(xx, yy) && (yy < y || (yy == y && xx < x))
                        then from[q.Origin(xx, yy).1][q.Origin(xx, yy).0] else was[yy][xx]
  }

  /** What a copy in progress keeps: the geometry, and the source as long as it is another surface. */
  ghost predicate Copying(dst: Framebuffer, src: Framebuffer, q: Request, from: seq<seq<u32>>)
    reads src.px
  {
    && dst.Valid() && src.Valid() && (dst != src ==> dst.px != src.px)
    && q.dw == dst.width && q.dh == dst.height && q.sw == src.width && q.sh == src.height
    && q.same == (dst == src)
    && IsImage(from, q.sw, q.sh)
    && (dst != src ==> src.Image() == from)
  }

  lemma ReadsOrigin(dst: Framebuffer, x: int, y: int, src: Framebuffer, sx: int, sy: int,
                    q: Request, was: seq<seq<u32>>, from: seq<seq<u32>>)
    requires Copying(dst, src, q, from) && IsImage(was, q.dw, q.dh) && (dst == src ==> was == from)
    requires q.Copied(x, y) && sx == x - q.Ex() && sy == y - q.Ey()
    requires CopiedUpTo(dst, q, was, from, x, y)
    ensures src.px[sy, sx] == from[q.Origin(x, y).1][q.Origin(x, y).0]
  {
    if dst == src {
      assert dst.Inside(sx, sy);
      OriginStep(q, x, y);
    } else {
      assert src.Image()[sy][sx] == from[sy][sx];
    }
  }

  /** One assignment of the inner loop: what it reads is the old value of the pixel's origin. */
  method CopyPixel(dst: Framebuffer, x: int, y: int, src: Framebuffer, sx: int, sy: int,
                   ghost q: Request, ghost was: seq<seq<u32>>, ghost from: seq<seq<u32>>)
    requires Copying(dst, src, q, from) && IsImage(was, q.dw, q.dh) && (dst == src ==> was == from)
    requires q.Copied(x, y) && sx == x - q.Ex() && sy == y - q.Ey()
    requires CopiedUpTo(dst, q, was, from, x, y)
    modifies dst.px
    ensures Copying(dst, src, q, from) && CopiedUpTo(dst, q, was, from, x + 1, y)
  {
    ReadsOrigin(dst, x, y, src, sx, sy, q, was, from);
    dst.px[y, x] := src.px[sy, sx];
    assert dst != src ==> src.Image() == from;
  }

  /** The copy loops, one row after the other. */
  method CopyRows(dst: Framebuffer, dx0: int, dy0: int, src: Framebuffer, sx0: int, sy0: int, cw: int, ch: int,
                  ghost q: Request)
    requires src.Valid() && Copying(dst, src, q, src.Image())
    requires 0 < cw && 0 < ch && IsRect(q, dx0, dy0, cw, ch)
    requires dx0 - sx0 == q.Ex() && dy0 - sy0 == q.Ey()
    modifies dst.px
    ensures CopiedUpTo(dst, q, old(dst.Image()), old(src.Image()), 0, dy0 + ch)
  {
    ghost var was, from := dst.Image(), src.Image();
    for r := 0 to ch
      invariant Copying(dst, src, q, from) && CopiedUpTo(dst, q, was, from, 0, dy0 + r)
    {
      for i := 0 to cw
        invariant Copying(dst, src, q, from) && CopiedUpTo(dst, q, was, from, dx0 + i, dy0 + r)
      {
        CopyPixel(dst, dx0 + i, dy0 + r, src, sx0 + i, sy0 + r, q, was, from);
      }
    }
  }
}
