/**
 Dath_DrawLine: the error-accumulating loop of src/croi/dath/draw.c against the closed form of
 the line it draws.
 */
module Line {
  import opened Arithmetic
  import opened Surface

  function Sign(a: int, b: int): int { if a < b then 1 else -1 }

  /** Steps taken on the minor axis after i of n steps on the major axis: i * minor / n rounded
      to the nearest integer, ties toward the start. */
  function MinorSteps(i: nat, minor: nat, n: nat): int
    requires 0 < n
  {
    (i * minor + (n - 1) / 2) / n
  }

  /** The i-th point of the line. */
  function LinePoint(x0: int, y0: int, x1: int, y1: int, i: nat): (int, int) {
    var dx, dy := Abs(x1 - x0), Abs(y1 - y0);
    if dx == 0 && dy == 0 then (x0, y0)
    else if dx > dy then (x0 + Sign(x0, x1) * i, y0 + Sign(y0, y1) * MinorSteps(i, dy, dx))
    else (x0 + Sign(x0, x1) * MinorSteps(i, dx, dy), y0 + Sign(y0, y1) * i)
  }

  function LineLength(x0: int, y0: int, x1: int, y1: int): nat {
    Max(Abs(x1 - x0), Abs(y1 - y0))
  }

  /** The half-pixel bound, and that it pins the minor coordinate down. */
  lemma MinorStepsNearest(i: nat, minor: nat, n: nat, j: int)
    requires 0 < n
    ensures 2 * Abs(i * minor - MinorSteps(i, minor, n) * n) <= n
    ensures j == MinorSteps(i, minor, n) <==> 0 <= n / 2 - i * minor + j * n < n
  {
    var a := i * minor + (n - 1) / 2;
    var q, r := a / n, a % n;
    assert a == n * q + r;
    assert (n - 1) / 2 + n / 2 == n - 1;
    if 0 <= n / 2 - i * minor + j * n < n {
      assert a == n * j + (n - 1 - (n / 2 - i * minor + j * n));
      DivModUnique(a, n, j, n - 1 - (n / 2 - i * minor + j * n));
    }
  }

  /** A point half way between two pixels goes to the one on the start's side. */
  lemma TieStays(i: nat, minor: nat, n: nat, j: nat)
    requires 0 < n && 2 * (i * minor) == 2 * (j * n) + n
    ensures MinorSteps(i, minor, n) == j
  {
    MinorStepsNearest(i, minor, n, j);
  }

  /** The last point of the line is the far end. */
  lemma MinorStepsEnd(minor: nat, n: nat)
    requires 0 < n
    ensures MinorSteps(0, minor, n) == 0 && MinorSteps(n, minor, n) == minor
  {
    MinorStepsNearest(0, minor, n, 0);
    MinorStepsNearest(n, minor, n, minor);
  }

  /** The line runs from one end to the other. */
  lemma LineEnds(x0: int, y0: int, x1: int, y1: int)
    ensures LinePoint(x0, y0, x1, y1, 0) == (x0, y0)
    ensures LinePoint(x0, y0, x1, y1, LineLength(x0, y0, x1, y1)) == (x1, y1)
  {
    var dx, dy := Abs(x1 - x0), Abs(y1 - y0);
    if dx > dy {
      MinorStepsEnd(dy, dx);
    } else if dy > 0 {
      MinorStepsEnd(dx, dy);
    }
  }

  /** Each of its LineLength + 1 points is on the ideal line to within half a pixel of the minor
      axis, one major step from the next. */
  lemma LineShape(x0: int, y0: int, x1: int, y1: int, i: nat)
    requires i <= LineLength(x0, y0, x1, y1)
    ensures var (x, y) := LinePoint(x0, y0, x1, y1, i);
      2 * Abs((x - x0) * (y1 - y0) - (y - y0) * (x1 - x0)) <= LineLength(x0, y0, x1, y1)
    ensures var (x, y) := LinePoint(x0, y0, x1, y1, i);
      if Abs(x1 - x0) > Abs(y1 - y0) then Abs(x - x0) == i else Abs(y - y0) == i
  {
    var dx, dy := Abs(x1 - x0), Abs(y1 - y0);
    var sx, sy := Sign(x0, x1), Sign(y0, y1);
    if dx == 0 && dy == 0 {
    } else if dx > dy {
      MinorStepsNearest(i, dy, dx, 0);
      SignedCross(sx, sy, i, MinorSteps(i, dy, dx), dx, dy);
    } else {
      MinorStepsNearest(i, dx, dy, 0);
      SignedCross(sx, sy, MinorSteps(i, dx, dy), i, dx, dy);
    }
  }

  lemma SignedProduct(s: int, a: int, t: int, b: int, p: int)
    requires s in {-1, 1} && t in {-1, 1} && p == a * b
    ensures (s * a) * (t * b) == if s == t then p else -p
  {
    assert s * a == (if s == 1 then a else -a) && t * b == (if t == 1 then b else -b);
    assert (-a) * b == -(a * b) && a * (-b) == -(a * b) && (-a) * (-b) == a * b;
  }

  lemma SignedCross(sx: int, sy: int, a: int, b: int, dx: nat, dy: nat)
    requires sx in {-1, 1} && sy in {-1, 1}
    ensures Abs((sx * a) * (sy * dy) - (sy * b) * (sx * dx)) == Abs(a * dy - b * dx)
  {
    var p, q := a * dy, b * dx;
    SignedProduct(sx, a, sy, dy, p);
    SignedProduct(sy, b, sx, dx, q);
  }

  /** The error term stays in 0..n-1 and tells whether the minor axis steps next. */
  lemma ErrorStep(i: nat, minor: nat, n: nat, e: int)
    requires 0 < n && minor <= n && e == n / 2 - i * minor + MinorSteps(i, minor, n) * n
    ensures 0 <= e < n
    ensures MinorSteps(i + 1, minor, n) == MinorSteps(i, minor, n) + (if e < minor then 1 else 0)
    ensures e - minor + (if e < minor then n else 0)
         == n / 2 - (i + 1) * minor + MinorSteps(i + 1, minor, n) * n
  {
    var j := MinorSteps(i, minor, n);
    var p, q := i * minor, j * n;
    MinorStepsBy(i, minor, n, j, p, q);
    OneMore(i, minor);
    OneMore(j, n);
    MinorStepsBy(i + 1, minor, n, j, p + minor, q);
    MinorStepsBy(i + 1, minor, n, j + 1, p + minor, q + n);
  }

  lemma MinorStepsBy(i: nat, minor: nat, n: nat, j: int, p: int, q: int)
    requires 0 < n && p == i * minor && q == j * n
    ensures j == MinorSteps(i, minor, n) <==> 0 <= n / 2 - p + q < n
  {
    MinorStepsNearest(i, minor, n, j);
  }

  lemma OneMore(a: int, b: int)
    ensures (a + 1) * b == a * b + b
  {}

  /** The loop's variables. */
  datatype Cursor = Cursor(x: int, y: int, err: int)

  /** One iteration of the loop, after its exit test. */
  function NextCursor(dx: int, dy: int, sx: int, sy: int, c: Cursor): Cursor {
    Cursor(if c.err > -dx then c.x + sx else c.x,
           if c.err < dy then c.y + sy else c.y,
           c.err - (if c.err > -dx then dy else 0) + (if c.err < dy then dx else 0))
  }

  /** The loop's variables after i iterations. */
  function Walk(x0: int, y0: int, x1: int, y1: int, i: nat): Cursor {
    var dx, dy: int := Abs(x1 - x0), Abs(y1 - y0);
    if i == 0 then Cursor(x0, y0, TruncDiv(if dx > dy then dx else -dy, 2))
    else NextCursor(dx, dy, Sign(x0, x1), Sign(y0, y1), Walk(x0, y0, x1, y1, i - 1))
  }

  lemma WalkNext(x0: int, y0: int, x1: int, y1: int, i: nat, dx: int, dy: int, sx: int, sy: int, c: Cursor)
    requires dx == Abs(x1 - x0) && dy == Abs(y1 - y0) && sx == Sign(x0, x1) && sy == Sign(y0, y1)
    requires c == Walk(x0, y0, x1, y1, i)
    ensures Walk(x0, y0, x1, y1, i + 1) == NextCursor(dx, dy, sx, sy, c)
  {}

  /** The cursor is on the line, the error in step with it. */
  ghost predicate Tracks(x0: int, y0: int, x1: int, y1: int, i: nat, c: Cursor) {
    var dx, dy := Abs(x1 - x0), Abs(y1 - y0);
    && (c.x, c.y) == LinePoint(x0, y0, x1, y1, i)
    && (dx > dy ==> c.err == dx / 2 - i * dy + MinorSteps(i, dy, dx) * dx)
    && (dx <= dy && 0 < dy ==> -c.err == dy / 2 - i * dx + MinorSteps(i, dx, dy) * dy)
  }

  lemma TracksStep(x0: int, y0: int, x1: int, y1: int, i: nat, c: Cursor)
    requires Tracks(x0, y0, x1, y1, i, c) && i < LineLength(x0, y0, x1, y1)
    ensures Tracks(x0, y0, x1, y1, i + 1,
                   NextCursor(Abs(x1 - x0), Abs(y1 - y0), Sign(x0, x1), Sign(y0, y1), c))
  {
    var dx, dy := Abs(x1 - x0), Abs(y1 - y0);
    if dx > dy {
      ErrorStep(i, dy, dx, c.err);
      SignStep(x0, x1, i);
      SignStep(y0, y1, MinorSteps(i, dy, dx));
    } else if dy > 0 {
      ErrorStep(i, dx, dy, -c.err);
      SignStep(x0, x1, MinorSteps(i, dx, dy));
      SignStep(y0, y1, i);
    }
  }

  lemma SignStep(a: int, b: int, i: int)
    ensures Sign(a, b) * (i + 1) == Sign(a, b) * i + Sign(a, b)
  {}

  /** The incremental loop visits the points of the closed form. */
  lemma {:induction false} WalkTracks(x0: int, y0: int, x1: int, y1: int, i: nat)
    requires i <= LineLength(x0, y0, x1, y1)
    ensures Tracks(x0, y0, x1, y1, i, Walk(x0, y0, x1, y1, i))
  {
    var dx, dy := Abs(x1 - x0), Abs(y1 - y0);
    if i == 0 {
      if dx > dy {
        MinorStepsEnd(dy, dx);
      } else if dy > 0 {
        MinorStepsEnd(dx, dy);
      }
    } else {
      WalkTracks(x0, y0, x1, y1, i - 1);
      TracksStep(x0, y0, x1, y1, i - 1, Walk(x0, y0, x1, y1, i - 1));
    }
  }

  /** The exit test holds after exactly LineLength iterations. */
  lemma WalkEnds(x0: int, y0: int, x1: int, y1: int, i: nat)
    requires i <= LineLength(x0, y0, x1, y1)
    ensures Walk(x0, y0, x1, y1, i).x == x1 && Walk(x0, y0, x1, y1, i).y == y1
            <==> i == LineLength(x0, y0, x1, y1)
  {
    WalkTracks(x0, y0, x1, y1, i);
    LineEnds(x0, y0, x1, y1);
    LineShape(x0, y0, x1, y1, i);
  }

  /** (x, y) is a point of the line. */
  ghost predicate OnLine(x0: int, y0: int, x1: int, y1: int, x: int, y: int) {
    exists i: nat :: i <= LineLength(x0, y0, x1, y1) && LinePoint(x0, y0, x1, y1, i) == (x, y)
  }

  /** (x, y) is where one of the first m iterations painted. */
  ghost predicate Walked(x0: int, y0: int, x1: int, y1: int, m: nat, x: int, y: int) {
    exists i: nat :: i < m && Walk(x0, y0, x1, y1, i).x == x && Walk(x0, y0, x1, y1, i).y == y
  }

  lemma WalkedIsLine(x0: int, y0: int, x1: int, y1: int, x: int, y: int)
    ensures Walked(x0, y0, x1, y1, LineLength(x0, y0, x1, y1) + 1, x, y) <==> OnLine(x0, y0, x1, y1, x, y)
  {
    forall i: nat | i <= LineLength(x0, y0, x1, y1)
      ensures LinePoint(x0, y0, x1, y1, i) == (Walk(x0, y0, x1, y1, i).x, Walk(x0, y0, x1, y1, i).y)
    {
      WalkTracks(x0, y0, x1, y1, i);
    }
  }

  lemma WalkedNext(x0: int, y0: int, x1: int, y1: int, m: nat, x: int, y: int)
    ensures Walked(x0, y0, x1, y1, m + 1, x, y) <==>
            || Walked(x0, y0, x1, y1, m, x, y)
            || (Walk(x0, y0, x1, y1, m).x == x && Walk(x0, y0, x1, y1, m).y == y)
  {
    if Walked(x0, y0, x1, y1, m, x, y) {
      var i: nat :| i < m && Walk(x0, y0, x1, y1, i).x == x && Walk(x0, y0, x1, y1, i).y == y;
      assert i < m + 1;
    }
  }

  /** The first m iterations have painted, and nothing else has. */
  ghost predicate Painted(fb: Framebuffer, was: seq<seq<u32>>, x0: int, y0: int, x1: int, y1: int, m: nat, c: u32)
    requires fb.Valid() && IsImage(was, fb.width, fb.height)
    reads fb.px
  {
    forall xx, yy | fb.Inside(xx, yy) ::
      fb.px[yy, xx] == if Walked(x0, y0, x1, y1, m, xx, yy) then Stored(fb.format, c) else was[yy][xx]
  }

  lemma PaintedLine(fb: Framebuffer, was: seq<seq<u32>>, x0: int, y0: int, x1: int, y1: int, c: u32)
    requires fb.Valid() && IsImage(was, fb.width, fb.height)
    requires Painted(fb, was, x0, y0, x1, y1, LineLength(x0, y0, x1, y1) + 1, c)
    ensures forall xx, yy | fb.Inside(xx, yy) ::
              fb.px[yy, xx] == if OnLine(x0, y0, x1, y1, xx, yy) then Stored(fb.format, c) else was[yy][xx]
  {
    forall xx, yy
      ensures Walked(x0, y0, x1, y1, LineLength(x0, y0, x1, y1) + 1, xx, yy) <==> OnLine(x0, y0, x1, y1, xx, yy)
    {
      WalkedIsLine(x0, y0, x1, y1, xx, yy);
    }
  }

  method PaintNext(fb: Framebuffer, ghost was: seq<seq<u32>>, x0: int, y0: int, x1: int, y1: int, ghost m: nat,
                   x: int, y: int, c: u32)
    requires fb.Valid() && IsImage(was, fb.width, fb.height) && Painted(fb, was, x0, y0, x1, y1, m, c)
    requires Walk(x0, y0, x1, y1, m).x == x && Walk(x0, y0, x1, y1, m).y == y
    modifies fb.px
    ensures Painted(fb, was, x0, y0, x1, y1, m + 1, c)
  {
    fb.Pixel(x, y, c);
    forall xx, yy
      ensures Walked(x0, y0, x1, y1, m + 1, xx, yy) <==>
              Walked(x0, y0, x1, y1, m, xx, yy) || (x == xx && y == yy)
    {
      WalkedNext(x0, y0, x1, y1, m, xx, yy);
    }
  }

  /** The end of the loop body: an error step on either axis. */
  method Advance(dx: int, dy: int, sx: int, sy: int, x: int, y: int, err: int) returns (x': int, y': int, err': int)
    ensures Cursor(x', y', err') == NextCursor(dx, dy, sx, sy, Cursor(x, y, err))
  {
    x', y', err' := x, y, err;
    var e2 := err;
    if e2 > -dx {
      err' := err' - dy;
      x' := x' + sx;
    }
    if e2 < dy {
      err' := err' + dx;
      y' := y' + sy;
    }
  }

  /** Dath_DrawLine: paints exactly the visible points of the line, and stops. */
  method DrawLine(fb: Framebuffer, x0: int, y0: int, x1: int, y1: int, c: u32) returns (points: nat)
    requires fb.Valid()
    modifies fb.px
    ensures points == LineLength(x0, y0, x1, y1) + 1
    ensures forall xx, yy | fb.Inside(xx, yy) ::
              fb.px[yy, xx] == if OnLine(x0, y0, x1, y1, xx, yy)
                               then Stored(fb.format, c) else old(fb.px[yy, xx])
  {
    var dx := x1 - x0;
    if dx < 0 {
      dx := -dx;
    }
    var dy := y1 - y0;
    if dy < 0 {
      dy := -dy;
    }
    var sx := if x0 < x1 then 1 else -1;
    var sy := if y0 < y1 then 1 else -1;
    var err := TruncDiv(if dx > dy then dx else -dy, 2);
    var x, y := x0, y0;
    points := 0;
    ghost var was := fb.Image();
    while true
      invariant points <= LineLength(x0, y0, x1, y1) && Cursor(x, y, err) == Walk(x0, y0, x1, y1, points)
      invariant Painted(fb, was, x0, y0, x1, y1, points, c)
      decreases LineLength(x0, y0, x1, y1) - points
    {
      PaintNext(fb, was, x0, y0, x1, y1, points, x, y, c);
      WalkEnds(x0, y0, x1, y1, points);
      WalkNext(x0, y0, x1, y1, points, dx, dy, sx, sy, Cursor(x, y, err));
      points := points + 1;
      if x == x1 && y == y1 {
        break;
      }
      x, y, err := Advance(dx, dy, sx, sy, x, y, err);
    }
    PaintedLine(fb, was, x0, y0, x1, y1, c);
  }
}
