/**
 The AreaMove / AreaDraw / AreaEnd accumulator of src/croi/dath/graphics_lib.c in front of the
 polygon fill.
 */
module Area {
  import opened Arithmetic
  import opened Surface
  import opened Polygon

  /** One accumulated vector; `move` starts a new polygon. */
  datatype Vector = Vector(at: Point, move: bool)

  /** Where the polygon that starts at vs[0] ends: before the next move, or at the cap. */
  function ShapeEnd(vs: seq<Vector>, k: nat): (e: nat)
    requires 0 < k <= |vs| && k <= MAX_POINTS
    ensures k <= e <= |vs| && e <= MAX_POINTS
    ensures e == |vs| || e == MAX_POINTS || vs[e].move
    decreases |vs| - k
  {
    if k < |vs| && !vs[k].move && k < MAX_POINTS then ShapeEnd(vs, k + 1) else k
  }

  function Points(vs: seq<Vector>): (ps: seq<Point>)
    ensures |ps| == |vs| && forall i | 0 <= i < |vs| :: ps[i] == vs[i].at
  {
    seq(|vs|, i requires 0 <= i < |vs| => vs[i].at)
  }

  /** The polygons AreaEnd fills. */
  function Shapes(vs: seq<Vector>): seq<seq<Point>>
    decreases |vs|
  {
    if vs == [] then []
    else var e := ShapeEnd(vs, 1); [Points(vs[..e])] + Shapes(vs[e..])
  }

  function Flatten(ss: seq<seq<Point>>): seq<Point> {
    if ss == [] then [] else ss[0] + Flatten(ss[1..])
  }

  lemma PointsSplit(vs: seq<Vector>, e: nat)
    requires e <= |vs|
    ensures Points(vs) == Points(vs[..e]) + Points(vs[e..])
  {}

  lemma PointsNext(vs: seq<Vector>, k: nat)
    requires k < |vs|
    ensures Points(vs[..k + 1]) == Points(vs[..k]) + [vs[k].at]
  {}

  /** Every vector belongs to exactly one polygon, in order, and none is over the cap. */
  lemma {:induction false} ShapesPartition(vs: seq<Vector>)
    ensures Flatten(Shapes(vs)) == Points(vs)
    ensures forall i | 0 <= i < |Shapes(vs)| :: 0 < |Shapes(vs)[i]| <= MAX_POINTS
    decreases |vs|
  {
    if vs != [] {
      var e := ShapeEnd(vs, 1);
      ShapesPartition(vs[e..]);
      assert Shapes(vs)[1..] == Shapes(vs[e..]);
      PointsSplit(vs, e);
    }
  }

  ghost predicate Covered(ss: seq<seq<Point>>, x: int, y: int) {
    exists i :: 0 <= i < |ss| && EvenOdd(ss[i], x, y)
  }

  lemma CoveredNext(ss: seq<seq<Point>>, s: seq<Point>, x: int, y: int)
    ensures Covered(ss + [s], x, y) <==> Covered(ss, x, y) || EvenOdd(s, x, y)
  {
    var all := ss + [s];
    if EvenOdd(s, x, y) {
      assert EvenOdd(all[|ss|], x, y);
    }
    if Covered(ss, x, y) {
      var i :| 0 <= i < |ss| && EvenOdd(ss[i], x, y);
      assert EvenOdd(all[i], x, y);
    }
    if Covered(all, x, y) {
      var i :| 0 <= i < |all| && EvenOdd(all[i], x, y);
      assert i == |ss| || EvenOdd(ss[i], x, y);
    }
  }

  // ---- longer polygons -----------------------------------------------------------------

  /** Where the run of vectors that starts at vs[0] ends: before the next move. */
  function RunEnd(vs: seq<Vector>, k: nat): (e: nat)
    requires 0 < k <= |vs|
    ensures k <= e <= |vs| && (forall i | k <= i < e :: !vs[i].move) && (e == |vs| || vs[e].move)
    decreases |vs| - k
  {
    if k < |vs| && !vs[k].move then RunEnd(vs, k + 1) else k
  }

  /** The polygons a clamping AreaEnd would fill: of each run, the first 64 vectors. */
  function ClampedShapes(vs: seq<Vector>): seq<seq<Point>>
    decreases |vs|
  {
    if vs == [] then []
    else var e := RunEnd(vs, 1); [Points(vs[..Min(e, MAX_POINTS)])] + ClampedShapes(vs[e..])
  }

  /** No run is longer than n vectors. */
  predicate RunsUpTo(vs: seq<Vector>, n: nat)
    decreases |vs|
  {
    vs == [] || (RunEnd(vs, 1) <= n && RunsUpTo(vs[RunEnd(vs, 1)..], n))
  }

  lemma {:induction false} CapOnRun(vs: seq<Vector>, k: nat)
    requires 0 < k <= |vs| && k <= MAX_POINTS
    ensures ShapeEnd(vs, k) == Min(RunEnd(vs, k), MAX_POINTS)
    decreases |vs| - k
  {
    if k < |vs| && !vs[k].move && k < MAX_POINTS { CapOnRun(vs, k + 1); }
  }

  lemma CoveredCons(s: seq<Point>, ss: seq<seq<Point>>, x: int, y: int)
    ensures Covered([s] + ss, x, y) <==> EvenOdd(s, x, y) || Covered(ss, x, y)
  {
    var all := [s] + ss;
    if EvenOdd(s, x, y) { assert EvenOdd(all[0], x, y); }
    if Covered(ss, x, y) {
      var i :| 0 <= i < |ss| && EvenOdd(ss[i], x, y);
      assert EvenOdd(all[i + 1], x, y);
    }
    if Covered(all, x, y) {
      var i :| 0 <= i < |all| && EvenOdd(all[i], x, y);
      assert i == 0 || EvenOdd(ss[i - 1], x, y);
    }
  }

  lemma SameAfter(s: seq<Point>, a: seq<seq<Point>>, b: seq<seq<Point>>, x: int, y: int)
    requires Covered(a, x, y) <==> Covered(b, x, y)
    ensures Covered([s] + a, x, y) <==> Covered([s] + b, x, y)
  {
    CoveredCons(s, a, x, y);
    CoveredCons(s, b, x, y);
  }

  /** What is left of a run of 65 or 66 vectors paints nothing. */
  lemma RemainderIsThin(vs: seq<Vector>, e: nat, x: int, y: int)
    requires MAX_POINTS < |vs| && e == RunEnd(vs, 1) && MAX_POINTS < e <= MAX_POINTS + 2
    ensures Covered(Shapes(vs[MAX_POINTS..]), x, y) <==> Covered(Shapes(vs[e..]), x, y)
  {
    var rest := vs[MAX_POINTS..];
    assert RunEnd(rest, 1) == e - MAX_POINTS;
    CapOnRun(rest, 1);
    assert rest[e - MAX_POINTS..] == vs[e..];
    CoveredCons(Points(rest[..e - MAX_POINTS]), Shapes(vs[e..]), x, y);
  }

  /** Runs of up to 66 vectors are painted as if clamped. */
  lemma {:induction false} ShortRunsClamped(vs: seq<Vector>, x: int, y: int)
    requires RunsUpTo(vs, MAX_POINTS + 2)
    ensures Covered(Shapes(vs), x, y) <==> Covered(ClampedShapes(vs), x, y)
    decreases |vs|
  {
    if vs != [] {
      var e := RunEnd(vs, 1);
      var m := Min(e, MAX_POINTS);
      ShortRunsClamped(vs[e..], x, y);
      CapOnRun(vs, 1);
      if e > MAX_POINTS { RemainderIsThin(vs, e, x, y); }
      SameAfter(Points(vs[..m]), Shapes(vs[m..]), ClampedShapes(vs[e..]), x, y);
    }
  }

  function Corner(i: int): Point {
    if i <= MAX_POINTS then Point(0, 0) else if i == MAX_POINTS + 1 then Point(0, 2) else Point(2, 0)
  }

  /** A run of n vectors: 64 at one point, then a triangle with its last corner repeated. */
  function Overlong(n: nat): (vs: seq<Vector>)
    requires n > MAX_POINTS + 2
    ensures |vs| == n
  {
    seq(n, i => Vector(Corner(i), i == 0))
  }

  lemma OverlongRun(n: nat, k: nat)
    requires n > MAX_POINTS + 2 && 0 < k <= n
    ensures RunEnd(Overlong(n), k) == n
    decreases n - k
  {
    if k < n { OverlongRun(n, k + 1); }
  }

  lemma {:induction false} FlatHasNoCrossings(ps: seq<Point>, y: int, m: nat)
    requires m <= |ps| && forall i | 0 <= i < |ps| :: ps[i].y == 0
    ensures Crossings(ps, y, m) == []
  {
    if m > 0 { FlatHasNoCrossings(ps, y, m - 1); }
  }

  /** Every run of more than 66 vectors can be painted otherwise: here at the corner of the triangle. */
  lemma OverlongDiffers(n: nat)
    requires n > MAX_POINTS + 2
    ensures Covered(Shapes(Overlong(n)), 0, 0) && !Covered(ClampedShapes(Overlong(n)), 0, 0)
  {
    var vs := Overlong(n);
    OverlongRun(n, 1);
    CapOnRun(vs, 1);
    SecondShape(vs[MAX_POINTS..]);
    CoveredCons(Points(vs[..MAX_POINTS]), Shapes(vs[MAX_POINTS..]), 0, 0);
    OverlongClamped(n);
  }

  lemma OverlongClamped(n: nat)
    requires n > MAX_POINTS + 2
    ensures !Covered(ClampedShapes(Overlong(n)), 0, 0)
  {
    var vs := Overlong(n);
    OverlongRun(n, 1);
    var head := Points(vs[..MAX_POINTS]);
    FlatHasNoCrossings(head, 0, |head|);
    assert vs[n..] == [] && ClampedShapes(vs) == [head] + [];
    CoveredCons(head, [], 0, 0);
  }

  lemma {:induction false} SecondShape(vs: seq<Vector>)
    requires |vs| >= 3 && !vs[1].move && !vs[2].move && vs[0].at == Point(0, 0) && vs[1].at == Point(0, 2)
    ensures Covered(Shapes(vs), 0, 0)
  {
    var e := ShapeEnd(vs, 1);
    assert e == ShapeEnd(vs, 2) == ShapeEnd(vs, 3);
    var ps := Points(vs[..e]);
    ThreeCorners(ps, Crossings(ps, 0, |ps|));
    CoveredCons(ps, Shapes(vs[e..]), 0, 0);
  }

  lemma ThreeCorners(ps: seq<Point>, cs: seq<int>)
    requires |ps| >= 3 && ps[0] == Point(0, 0) && ps[1] == Point(0, 2) && cs == Crossings(ps, 0, |ps|)
    ensures 0 in cs
  {
    NextVertex(1, |ps|);
    EdgeInCrossings(ps, 0, |ps|, 0);
    EdgeAtCorner();
  }

  lemma EdgeAtCorner()
    ensures CrossX(Point(0, 0), Point(0, 2), 0) == 0
  {}

  /** AreaEnd paints what a clamping one would, whatever the points, exactly when no run is longer
      than 66 vectors: the condition in the length of one run. */
  lemma ClampedExactly(n: nat)
    ensures (forall vs: seq<Vector>, x, y | RunsUpTo(vs, n) ::
               Covered(Shapes(vs), x, y) <==> Covered(ClampedShapes(vs), x, y)) <==> n <= MAX_POINTS + 2
  {
    if n <= MAX_POINTS + 2 {
      forall vs: seq<Vector>, x, y | RunsUpTo(vs, n)
        ensures Covered(Shapes(vs), x, y) <==> Covered(ClampedShapes(vs), x, y)
      {
        RunsUpToMore(vs, n, MAX_POINTS + 2);
        ShortRunsClamped(vs, x, y);
      }
    } else {
      OverlongDiffers(n);
      OverlongRun(n, 1);
      assert RunsUpTo(Overlong(n), n);
    }
  }

  lemma {:induction false} RunsUpToMore(vs: seq<Vector>, m: nat, n: nat)
    requires RunsUpTo(vs, m) && m <= n
    ensures RunsUpTo(vs, n)
    decreases |vs|
  {
    if vs != [] { RunsUpToMore(vs[RunEnd(vs, 1)..], m, n); }
  }

  class AreaInfo {
    const vectors: array<Vector>
    var count: nat

    ghost predicate Valid()
      reads this
    {
      count <= vectors.Length
    }

    ghost function Contents(): seq<Vector>
      requires Valid()
      reads this, vectors
    {
      vectors[..count]
    }

    /** InitArea, with room for maxVectors. */
    constructor (maxVectors: nat)
      ensures Valid() && fresh(vectors) && vectors.Length == maxVectors && Contents() == []
    {
      vectors := new Vector[maxVectors](i => Vector(Point(0, 0), false));
      count := 0;
    }

    /** AreaMove and AreaDraw: append, or refuse when the buffer is full. */
    method Append(at: Point, move: bool) returns (ok: bool)
      requires Valid()
      modifies this, vectors
      ensures Valid() && (ok <==> old(count) < vectors.Length)
      ensures Contents() == old(Contents()) + (if ok then [Vector(at, move)] else [])
    {
      if count >= vectors.Length {
        return false;
      }
      vectors[count] := Vector(at, move);
      count := count + 1;
      return true;
    }

    /** The polygon that starts at position i, and where it ends. */
    method Collect(i: nat) returns (ps: seq<Point>, e: nat)
      requires Valid() && i < count
      ensures i < e <= count && e - i == ShapeEnd(Contents()[i..], 1) && ps == Points(Contents()[i..e])
    {
      ghost var rest := Contents()[i..];
      ps := [vectors[i].at];
      assert rest[0] == vectors[i];
      e := i + 1;
      PointsNext(rest, 0);
      while e < count && !vectors[e].move && |ps| < MAX_POINTS
        invariant i < e <= count && |ps| == e - i <= MAX_POINTS && ps == Points(rest[..e - i])
        invariant ShapeEnd(rest, e - i) == ShapeEnd(rest, 1)
      {
        assert rest[e - i] == vectors[e];
        PointsNext(rest, e - i);
        ps := ps + [vectors[e].at];
        e := e + 1;
      }
      assert e < count ==> rest[e - i] == vectors[e];
      assert Contents()[i..e] == rest[..e - i];
    }

    /** AreaEnd's loop over the accumulated polygons. */
    method FillShapes(fb: Framebuffer, c: u32)
      requires Valid() && fb.Valid()
      modifies fb.px
      ensures Shows(fb, old(fb.Image()), Shapes(Contents()), c)
    {
      var i := 0;
      ghost var all, done, was := Contents(), [], fb.Image();
      assert all[0..] == all;
      while i < count
        invariant 0 <= i <= count && Contents() == all
        invariant Shapes(all) == done + Shapes(all[i..])
        invariant Shows(fb, was, done, c)
      {
        var ps, e := Collect(i);
        ShapesStep(all, i, e);
        FillNext(fb, ps, c, was, done);
        done := done + [ps];
        i := e;
      }
      assert done == Shapes(all);
    }

    /** AreaEnd: fills every accumulated polygon and forgets them. */
    method End(fb: Framebuffer, c: u32)
      requires Valid() && fb.Valid()
      modifies this, fb.px
      ensures Valid() && Contents() == []
      ensures forall xx, yy | fb.Inside(xx, yy) ::
                fb.px[yy, xx] == if Covered(Shapes(old(Contents())), xx, yy)
                                 then Stored(fb.format, c) else old(fb.px[yy, xx])
    {
      FillShapes(fb, c);
      count := 0;
    }
  }

  /** The surface as it was, with the given polygons filled. */
  ghost predicate Shows(fb: Framebuffer, was: seq<seq<u32>>, ss: seq<seq<Point>>, c: u32)
    requires fb.Valid() && IsImage(was, fb.width, fb.height)
    reads fb.px
  {
    forall xx, yy | fb.Inside(xx, yy) ::
      fb.px[yy, xx] == if Covered(ss, xx, yy) then Stored(fb.format, c) else was[yy][xx]
  }

  method FillNext(fb: Framebuffer, ps: seq<Point>, c: u32, ghost was: seq<seq<u32>>, ghost done: seq<seq<Point>>)
    requires fb.Valid() && IsImage(was, fb.width, fb.height) && |ps| <= MAX_POINTS && Shows(fb, was, done, c)
    modifies fb.px
    ensures Shows(fb, was, done + [ps], c)
  {
    FillPolygon(fb, ps, c);
    forall xx, yy ensures Covered(done + [ps], xx, yy) <==> Covered(done, xx, yy) || EvenOdd(ps, xx, yy) {
      CoveredNext(done, ps, xx, yy);
    }
  }

  lemma ShapesStep(vs: seq<Vector>, i: nat, e: nat)
    requires i < e <= |vs| && e - i == ShapeEnd(vs[i..], 1)
    ensures Shapes(vs[i..]) == [Points(vs[i..e])] + Shapes(vs[e..])
  {
    assert vs[i..e] == vs[i..][..e - i] && vs[e..] == vs[i..][e - i..];
  }
}
