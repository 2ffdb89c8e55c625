/**
 The scanline polygon fill of src/croi/dath/graphics_lib.c: gather the crossings of a scanline,
 sort them, fill between pairs. The result is the even-odd rule, stated without any sorting.
 */
module Polygon {
  import opened Arithmetic
  import opened Surface

  const MAX_POINTS: nat := 64

  datatype Point = Point(x: int, y: int)

  function After(k: nat, n: nat): nat
    requires 0 < n
  {
    (k + 1) % n
  }

  /** Edge a-b meets scanline y, its upper end included and its lower end not. */
  predicate Crosses(a: Point, b: Point, y: int) { Min(a.y, b.y) <= y < Max(a.y, b.y) }

  /** Where it does, by the source's integer division. */
  function CrossX(a: Point, b: Point, y: int): int
    requires Crosses(a, b, y)
  {
    a.x + TruncDiv((y - a.y) * (b.x - a.x), b.y - a.y)
  }

  /** The crossings of the first m edges of the closed polygon, in edge order. */
  function Crossings(ps: seq<Point>, y: int, m: nat): (cs: seq<int>)
    requires m <= |ps|
    ensures |cs| <= m
  {
    if m == 0 then []
    else
      var a, b := ps[m - 1], ps[After(m - 1, |ps|)];
      Crossings(ps, y, m - 1) + (if Crosses(a, b, y) then [CrossX(a, b, y)] else [])
  }

  function CountBelow(cs: seq<int>, x: int): nat {
    if cs == [] then 0
    else CountBelow(cs[..|cs| - 1], x) + (if cs[|cs| - 1] < x then 1 else 0)
  }

  /** The even-odd rule: an odd number of crossings lies left of x, or a crossing lies on x. */
  ghost predicate EvenOdd(ps: seq<Point>, x: int, y: int) {
    var cs := Crossings(ps, y, |ps|);
    |ps| >= 3 && (x in cs || CountBelow(cs, x) % 2 == 1)
  }

  // ---- the number of crossings is even --------------------------------------

  lemma NextVertex(m: nat, n: nat)
    requires 0 < m <= n
    ensures After(m - 1, n) == if m == n then 0 else m
  {
    if m == n { DivModUnique(m, n, 1, 0); } else { DivModUnique(m, n, 0, m); }
  }

  lemma CrossesChangesSides(a: Point, b: Point, y: int)
    ensures Crosses(a, b, y) <==> (a.y <= y) != (b.y <= y)
  {}

  lemma OneMore(n: nat)
    ensures (n + 1) % 2 == 0 <==> n % 2 != 0
  {}

  /** A walk along the first m edges changes sides of the scanline as often as it crosses it. */
  lemma {:induction false} CrossingParity(ps: seq<Point>, y: int, m: nat)
    requires m < |ps|
    ensures |Crossings(ps, y, m)| % 2 == 0 <==> (ps[0].y <= y <==> ps[m].y <= y)
  {
    if m > 0 {
      CrossingParity(ps, y, m - 1);
      NextVertex(m, |ps|);
      CrossesChangesSides(ps[m - 1], ps[m], y);
      OneMore(|Crossings(ps, y, m - 1)|);
    }
  }

  lemma CrossingsEven(ps: seq<Point>, y: int)
    ensures |Crossings(ps, y, |ps|)| % 2 == 0
  {
    if ps != [] {
      CrossingParity(ps, y, |ps| - 1);
      NextVertex(|ps|, |ps|);
      CrossesChangesSides(ps[|ps| - 1], ps[0], y);
      OneMore(|Crossings(ps, y, |ps| - 1)|);
    }
  }

  // ---- every crossing lies between the ends of its edge -----------------------

  lemma SignedAbs(t: int, d: int)
    ensures t * d == if (t < 0) == (d < 0) then Abs(t) * Abs(d) else -(Abs(t) * Abs(d))
  {
    assert (-t) * d == -(t * d) && t * (-d) == -(t * d) && (-t) * (-d) == t * d;
  }

  lemma TruncDivBetween(t: int, d: int, b: int)
    requires b != 0 && (if b > 0 then 0 <= t <= b else b <= t <= 0)
    ensures Min(0, d) <= TruncDiv(t * d, b) <= Max(0, d)
  {
    var p := Abs(t) * Abs(d);
    MulMono(Abs(t), Abs(b), Abs(d));
    QuotientBound(p, Abs(d), Abs(b));
    SignedAbs(t, d);
    TruncDivSign(t * d, b, p, p / Abs(b));
  }

  lemma TruncDivSign(a: int, b: int, p: nat, k: nat)
    requires b != 0 && Abs(a) == p && k == p / Abs(b)
    ensures p == 0 ==> k == 0
    ensures TruncDiv(a, b) == if (a < 0) == (b < 0) then k else 0 - k
  {
    if p == 0 { DivModUnique(0, Abs(b), 0, 0); }
  }

  lemma QuotientBound(p: nat, q: nat, b: nat)
    requires 0 < b && p <= q * b
    ensures 0 <= p / b <= q
  {
    var k := p / b;
    assert p == b * k + p % b;
    if k > q {
      MulMono(q + 1, k, b);
    }
  }

  lemma TruncDivNear(p: int, d: int)
    requires d != 0
    ensures Abs(TruncDiv(p, d) * d - p) < Abs(d)
  {
    var q, r := Divide(Abs(p), Abs(d));
    assert (-q) * d == -(q * d) && q * (-d) == -(q * d);
  }

  lemma TruncDivInward(p: int, d: int)
    requires d != 0
    ensures Abs(TruncDiv(p, d)) * Abs(d) <= Abs(p)
  {
    var q, r := Divide(Abs(p), Abs(d));
  }

  /** The pixel chosen is the one on the first vertex's side of the ideal edge, or on it. */
  lemma CrossXTowardFirst(a: Point, b: Point, y: int)
    requires Crosses(a, b, y)
    ensures Abs(CrossX(a, b, y) - a.x) * Abs(b.y - a.y) <= Abs((y - a.y) * (b.x - a.x))
  {
    TruncDivInward((y - a.y) * (b.x - a.x), b.y - a.y);
  }

  /** A crossing is less than a pixel from the ideal edge. */
  lemma CrossXNearEdge(a: Point, b: Point, y: int)
    requires Crosses(a, b, y)
    ensures Abs((CrossX(a, b, y) - a.x) * (b.y - a.y) - (y - a.y) * (b.x - a.x)) < Abs(b.y - a.y)
  {
    TruncDivNear((y - a.y) * (b.x - a.x), b.y - a.y);
  }

  ghost predicate InBox(ps: seq<Point>, x: int) {
    (exists i :: 0 <= i < |ps| && ps[i].x <= x) && (exists i :: 0 <= i < |ps| && x <= ps[i].x)
  }

  lemma {:induction false} CrossingsInBox(ps: seq<Point>, y: int, m: nat, i: nat)
    requires m <= |ps| && i < |Crossings(ps, y, m)|
    ensures InBox(ps, Crossings(ps, y, m)[i])
  {
    var a, b := ps[m - 1], ps[After(m - 1, |ps|)];
    if Crosses(a, b, y) && i == |Crossings(ps, y, m)| - 1 {
      TruncDivBetween(y - a.y, b.x - a.x, b.y - a.y);
    } else {
      CrossingsInBox(ps, y, m - 1, i);
    }
  }

  // ---- pairing sorted crossings is the even-odd rule ---------------------------

  predicate Sorted(s: seq<int>) { forall i, j | 0 <= i < j < |s| :: s[i] <= s[j] }

  /** x lies in one of the intervals s[0]..s[1], s[2]..s[3], ... */
  ghost predicate InPairs(s: seq<int>, x: int) {
    exists p :: 0 <= p && 2 * p + 1 < |s| && s[2 * p] <= x <= s[2 * p + 1]
  }

  lemma {:induction false} CountBelowSplits(s: seq<int>, x: int)
    requires Sorted(s)
    ensures var c := CountBelow(s, x);
      c <= |s| && (forall i | 0 <= i < c :: s[i] < x) && (forall i | c <= i < |s| :: x <= s[i])
  {
    if s != [] {
      CountBelowSplits(s[..|s| - 1], x);
    }
  }

  lemma PairsAreEvenOdd(s: seq<int>, x: int)
    requires Sorted(s) && |s| % 2 == 0
    ensures InPairs(s, x) <==> x in s || CountBelow(s, x) % 2 == 1
  {
    CountBelowSplits(s, x);
    var c := CountBelow(s, x);
    if x in s {
      var i :| 0 <= i < |s| && s[i] == x;
      var p := i / 2;
      assert s[2 * p] <= x <= s[2 * p + 1];
    } else if c % 2 == 1 {
      var p := c / 2;
      assert s[2 * p] <= x <= s[2 * p + 1];
    }
  }

  // ---- counting does not see the order ------------------------------------------

  lemma {:induction false} CountBelowConcat(a: seq<int>, b: seq<int>, x: int)
    ensures CountBelow(a + b, x) == CountBelow(a, x) + CountBelow(b, x)
  {
    if b == [] {
      assert a + b == a;
    } else {
      var t := b[..|b| - 1];
      CountBelowConcat(a, t, x);
      assert (a + b)[..|a + b| - 1] == a + t;
    }
  }

  lemma CountBelowRemove(s: seq<int>, i: nat, x: int)
    requires i < |s|
    ensures CountBelow(s, x) == CountBelow(s[..i] + s[i + 1..], x) + (if s[i] < x then 1 else 0)
  {
    var a, b := s[..i], s[i + 1..];
    assert s == a + ([s[i]] + b);
    CountBelowConcat(a, [s[i]] + b, x);
    CountBelowConcat([s[i]], b, x);
    CountBelowConcat(a, b, x);
    assert CountBelow([s[i]], x) == if s[i] < x then 1 else 0;
  }

  lemma RemoveOne(s: seq<int>, i: nat)
    requires i < |s|
    ensures multiset(s[..i] + s[i + 1..]) == multiset(s) - multiset{s[i]}
  {
    assert s == s[..i] + [s[i]] + s[i + 1..];
  }

  lemma {:induction false} CountBelowPermuted(s: seq<int>, t: seq<int>, x: int)
    requires multiset(s) == multiset(t)
    ensures CountBelow(s, x) == CountBelow(t, x) && (x in s <==> x in t) && |s| == |t|
  {
    assert |s| == |multiset(s)| && |t| == |multiset(t)|;
    assert x in s <==> x in multiset(s);
    assert x in t <==> x in multiset(t);
    if s != [] {
      var v := s[|s| - 1];
      assert v in multiset(t);
      var i :| 0 <= i < |t| && t[i] == v;
      RemoveOne(s, |s| - 1);
      assert s[..|s| - 1] + s[|s|..] == s[..|s| - 1];
      RemoveOne(t, i);
      CountBelowPermuted(s[..|s| - 1], t[..i] + t[i + 1..], x);
      CountBelowRemove(t, i, x);
    }
  }

  // ---- the code -------------------------------------------------------------------

  ghost predicate Permuted(s: seq<int>, t: seq<int>) { multiset(s) == multiset(t) }

  lemma SwapPermutes(s: seq<int>, t: seq<int>, a: nat, b: nat)
    requires a < b < |s| && t == s[a := s[b]][b := s[a]]
    ensures Permuted(s, t)
  {}

  lemma SwapSettles(s: seq<int>, t: seq<int>, a: nat, b: nat)
    requires a < b < |s| && t == s[a := s[b]][b := s[a]] && s[b] < s[a]
    requires Settled(s, a) && Leads(s, a, b)
    ensures Settled(t, a) && Leads(t, a, b + 1)
  {}

  /** The element at a is no greater than those between it and b. */
  predicate Leads(s: seq<int>, a: nat, b: nat)
    requires a < b <= |s|
  {
    forall j | a < j < b :: s[a] <= s[j]
  }

  /** Positions before a hold the smallest elements, in order. */
  predicate Settled(s: seq<int>, a: nat)
    requires a <= |s|
  {
    forall i, j | 0 <= i < a && i < j < |s| :: s[i] <= s[j]
  }

  /** One round of the exchange sort: the least of the rest ends up at position a. */
  method ExchangeRound(xint: array<int>, cnt: nat, a: nat)
    requires a < cnt <= xint.Length && Settled(xint[..cnt], a)
    modifies xint
    ensures Settled(xint[..cnt], a + 1) && Permuted(old(xint[..cnt]), xint[..cnt])
  {
    for b := a + 1 to cnt
      invariant Settled(xint[..cnt], a) && Permuted(old(xint[..cnt]), xint[..cnt])
      invariant Leads(xint[..cnt], a, b)
    {
      ghost var was := xint[..cnt];
      if xint[b] < xint[a] {
        var t := xint[a];
        xint[a] := xint[b];
        xint[b] := t;
        assert xint[..cnt] == was[a := was[b]][b := was[a]];
        SwapPermutes(was, xint[..cnt], a, b);
        SwapSettles(was, xint[..cnt], a, b);
      }
    }
  }

  /** The exchange sort of the crossings. */
  method ExchangeSort(xint: array<int>, cnt: nat)
    requires cnt <= xint.Length
    modifies xint
    ensures Sorted(xint[..cnt]) && Permuted(old(xint[..cnt]), xint[..cnt])
  {
    for a := 0 to cnt
      invariant Settled(xint[..cnt], a) && Permuted(old(xint[..cnt]), xint[..cnt])
    {
      ExchangeRound(xint, cnt, a);
    }
  }

  /** Collects the crossings of one scanline; the cap on their number is never hit. */
  method Gather(ps: seq<Point>, y: int, xint: array<int>) returns (cnt: nat)
    requires 0 < |ps| <= MAX_POINTS == xint.Length
    modifies xint
    ensures cnt <= |ps| && xint[..cnt] == Crossings(ps, y, |ps|)
  {
    cnt := 0;
    for k := 0 to |ps|
      invariant cnt <= k && xint[..cnt] == Crossings(ps, y, k)
    {
      var a, b := ps[k], ps[(k + 1) % |ps|];
      var ylo := if a.y < b.y then a.y else b.y;
      var yhi := if a.y < b.y then b.y else a.y;
      if y >= ylo && y < yhi && cnt < MAX_POINTS {
        xint[cnt] := CrossX(a, b, y);
        cnt := cnt + 1;
      }
    }
  }

  /** Fills between pairs of sorted crossings on one scanline. */
  method FillPairs(fb: Framebuffer, s: seq<int>, y: int, c: u32)
    requires fb.Valid() && Sorted(s)
    modifies fb.px
    ensures forall xx, yy | fb.Inside(xx, yy) ::
              fb.px[yy, xx] == if yy == y && InPairs(s, xx) then Stored(fb.format, c) else old(fb.px[yy, xx])
  {
    var p := 0;
    while p + 1 < |s|
      invariant 0 <= p <= |s| && p % 2 == 0
      invariant forall xx, yy | fb.Inside(xx, yy) ::
                  fb.px[yy, xx] == if yy == y && InPairs(s[..p], xx) then Stored(fb.format, c) else old(fb.px[yy, xx])
    {
      var xa, xb := s[p], s[p + 1];
      if xb >= xa {
        fb.FillRect(xa, y, xb - xa + 1, 1, c);
      }
      forall xx ensures InPairs(s[..p + 2], xx) <==> InPairs(s[..p], xx) || xa <= xx <= xb {
        InPairsNext(s, p, xx);
      }
      p := p + 2;
    }
    forall xx ensures InPairs(s[..p], xx) <==> InPairs(s, xx) {
      InPairsTail(s, p, xx);
    }
  }

  lemma InPairsNext(s: seq<int>, p: nat, x: int)
    requires p % 2 == 0 && p + 2 <= |s|
    ensures InPairs(s[..p + 2], x) <==> InPairs(s[..p], x) || s[p] <= x <= s[p + 1]
  {
    if InPairs(s[..p], x) {
      var k :| 0 <= k && 2 * k + 1 < p && s[..p][2 * k] <= x <= s[..p][2 * k + 1];
      assert s[..p + 2][2 * k] <= x <= s[..p + 2][2 * k + 1];
    }
    if s[p] <= x <= s[p + 1] {
      var k := p / 2;
      assert s[..p + 2][2 * k] <= x <= s[..p + 2][2 * k + 1];
    }
    if InPairs(s[..p + 2], x) {
      var k :| 0 <= k && 2 * k + 1 < p + 2 && s[..p + 2][2 * k] <= x <= s[..p + 2][2 * k + 1];
      assert k == p / 2 || (2 * k + 1 < p && s[..p][2 * k] <= x <= s[..p][2 * k + 1]);
    }
  }

  lemma InPairsTail(s: seq<int>, p: nat, x: int)
    requires p % 2 == 0 && p <= |s| <= p + 1
    ensures InPairs(s[..p], x) <==> InPairs(s, x)
  {
    if InPairs(s[..p], x) {
      var k :| 0 <= k && 2 * k + 1 < p && s[..p][2 * k] <= x <= s[..p][2 * k + 1];
      assert s[2 * k] <= x <= s[2 * k + 1];
    }
    if InPairs(s, x) {
      var k :| 0 <= k && 2 * k + 1 < |s| && s[2 * k] <= x <= s[2 * k + 1];
      assert s[..p][2 * k] <= x <= s[..p][2 * k + 1];
    }
  }

  /** A scanline above or below every vertex, or through the lowest ones, has no crossing. */
  lemma {:induction false} NoCrossingOutside(ps: seq<Point>, y: int, m: nat)
    requires m <= |ps|
    requires (forall i | 0 <= i < |ps| :: y < ps[i].y) || (forall i | 0 <= i < |ps| :: ps[i].y <= y)
    ensures Crossings(ps, y, m) == []
  {
    if m > 0 {
      NoCrossingOutside(ps, y, m - 1);
    }
  }

  lemma EvenOddByPairs(ps: seq<Point>, y: int, s: seq<int>, x: int)
    requires |ps| >= 3 && Sorted(s) && Permuted(Crossings(ps, y, |ps|), s)
    ensures InPairs(s, x) <==> EvenOdd(ps, x, y)
  {
    CrossingsEven(ps, y);
    CountBelowPermuted(Crossings(ps, y, |ps|), s, x);
    PairsAreEvenOdd(s, x);
  }

  /** An odd count among evenly many leaves crossings on both sides. */
  lemma CrossingsAround(cs: seq<int>, x: int) returns (i: nat, j: nat)
    requires 0 < CountBelow(cs, x) < |cs|
    ensures i < |cs| && j < |cs| && cs[i] < x <= cs[j]
  {
    if cs[|cs| - 1] < x {
      i := |cs| - 1;
      j := SomeNotBelow(cs, x);
    } else {
      j := |cs| - 1;
      i := SomeBelow(cs, x);
    }
  }

  lemma {:induction false} SomeBelow(cs: seq<int>, x: int) returns (i: nat)
    requires 0 < CountBelow(cs, x)
    ensures i < |cs| && cs[i] < x
  {
    if cs[|cs| - 1] < x {
      i := |cs| - 1;
    } else {
      i := SomeBelow(cs[..|cs| - 1], x);
    }
  }

  lemma {:induction false} SomeNotBelow(cs: seq<int>, x: int) returns (i: nat)
    requires CountBelow(cs, x) < |cs|
    ensures i < |cs| && x <= cs[i]
  {
    if x <= cs[|cs| - 1] {
      i := |cs| - 1;
    } else {
      i := SomeNotBelow(cs[..|cs| - 1], x);
    }
  }

  lemma BoxIsConvex(ps: seq<Point>, l: int, x: int, r: int)
    requires InBox(ps, l) && InBox(ps, r) && l <= x <= r
    ensures InBox(ps, x)
  {
    var i :| 0 <= i < |ps| && ps[i].x <= l;
    var j :| 0 <= j < |ps| && r <= ps[j].x;
    assert ps[i].x <= x && x <= ps[j].x;
  }

  /** A filled pixel lies inside the polygon's bounding box. */
  lemma EvenOddInBox(ps: seq<Point>, x: int, y: int)
    requires EvenOdd(ps, x, y)
    ensures InBox(ps, x)
  {
    var cs := Crossings(ps, y, |ps|);
    var i: nat, j: nat;
    if x in cs {
      i :| 0 <= i < |cs| && cs[i] == x;
      j := i;
    } else {
      CrossingsEven(ps, y);
      CountBelowAtMost(cs, x);
      i, j := CrossingsAround(cs, x);
    }
    CrossingsInBox(ps, y, |ps|, i);
    CrossingsInBox(ps, y, |ps|, j);
    BoxIsConvex(ps, cs[i], x, cs[j]);
  }

  lemma CountBelowAtMost(cs: seq<int>, x: int)
    ensures CountBelow(cs, x) <= |cs|
  {}

  /** A filled pixel lies between the highest vertex and just above the lowest. */
  lemma EvenOddInRows(ps: seq<Point>, x: int, y: int)
    requires EvenOdd(ps, x, y)
    ensures (exists i :: 0 <= i < |ps| && ps[i].y <= y) && (exists i :: 0 <= i < |ps| && y < ps[i].y)
  {
    if (forall i | 0 <= i < |ps| :: y < ps[i].y) || (forall i | 0 <= i < |ps| :: ps[i].y <= y) {
      NoCrossingOutside(ps, y, |ps|);
    }
  }

  // ---- what the rule selects ------------------------------------------------------------------

  lemma {:induction false} EdgeInCrossings(ps: seq<Point>, y: int, m: nat, i: nat)
    requires i < m <= |ps| && Crosses(ps[i], ps[After(i, |ps|)], y)
    ensures CrossX(ps[i], ps[After(i, |ps|)], y) in Crossings(ps, y, m)
  {
    if i < m - 1 { EdgeInCrossings(ps, y, m - 1, i); }
  }

  /** Every pixel where an edge crosses a row belongs to the interior. */
  lemma EdgePainted(ps: seq<Point>, y: int, i: nat)
    requires |ps| >= 3 && i < |ps| && Crosses(ps[i], ps[After(i, |ps|)], y)
    ensures EvenOdd(ps, CrossX(ps[i], ps[After(i, |ps|)], y), y)
  {
    EdgeInCrossings(ps, y, |ps|, i);
  }

  lemma VerticalEdge(x: int, y0: int, y1: int, y: int)
    requires Crosses(Point(x, y0), Point(x, y1), y)
    ensures CrossX(Point(x, y0), Point(x, y1), y) == x
  {
    DivModUnique(0, Abs(y1 - y0), 0, 0);
  }

  function Rectangle(x0: int, y0: int, x1: int, y1: int): seq<Point> {
    [Point(x0, y0), Point(x1, y0), Point(x1, y1), Point(x0, y1)]
  }

  lemma RectangleCrossings(x0: int, y0: int, x1: int, y1: int, y: int)
    requires y0 <= y1
    ensures Crossings(Rectangle(x0, y0, x1, y1), y, 4) == if y0 <= y < y1 then [x1, x0] else []
  {
    var ps := Rectangle(x0, y0, x1, y1);
    assert Crossings(ps, y, 1) == [];
    if y0 <= y < y1 {
      VerticalEdge(x1, y0, y1, y);
      VerticalEdge(x0, y1, y0, y);
      assert Crossings(ps, y, 2) == [x1] && Crossings(ps, y, 3) == [x1];
    } else {
      assert Crossings(ps, y, 2) == [] && Crossings(ps, y, 3) == [];
    }
  }

  /** A rectangle is filled from its left to its right edge, both included, and from its top row to the one
      above its bottom. */
  lemma RectangleFilled(x0: int, y0: int, x1: int, y1: int, x: int, y: int)
    requires x0 <= x1 && y0 <= y1
    ensures EvenOdd(Rectangle(x0, y0, x1, y1), x, y) <==> x0 <= x <= x1 && y0 <= y < y1
  {
    RectangleCrossings(x0, y0, x1, y1, y);
    var cs := [x1, x0];
    assert cs[..1] == [x1] && [x1][..0] == [];
    assert CountBelow([x1], x) == (if x1 < x then 1 else 0);
    assert CountBelow(cs, x) == CountBelow(cs[..1], x) + (if x0 < x then 1 else 0);
  }

  /** fill_polygon: exactly the visible pixels the even-odd rule selects are painted. */
  method FillPolygon(fb: Framebuffer, ps: seq<Point>, c: u32)
    requires fb.Valid() && |ps| <= MAX_POINTS
    modifies fb.px
    ensures forall xx, yy | fb.Inside(xx, yy) ::
              fb.px[yy, xx] == if EvenOdd(ps, xx, yy) then Stored(fb.format, c) else old(fb.px[yy, xx])
  {
    if |ps| < 3 {
      return;
    }
    var ymin, ymax := ps[0].y, ps[0].y;
    for k := 1 to |ps|
      invariant forall i | 0 <= i < k :: ymin <= ps[i].y <= ymax
    {
      ymin := if ps[k].y < ymin then ps[k].y else ymin;
      ymax := if ps[k].y > ymax then ps[k].y else ymax;
    }
    ghost var top, bottom := ymin, ymax;
    if ymin < 0 {
      ymin := 0;
    }
    if ymax >= fb.height {
      ymax := fb.height - 1;
    }
    forall xx, yy | yy < top || bottom < yy ensures !EvenOdd(ps, xx, yy) {
      NoCrossingOutside(ps, yy, |ps|);
    }
    var xint := new int[MAX_POINTS];
    var y := ymin;
    while y <= ymax
      invariant ymin <= y <= Max(ymin, ymax + 1)
      invariant forall xx, yy | fb.Inside(xx, yy) ::
                  fb.px[yy, xx] == if yy < y && EvenOdd(ps, xx, yy) then Stored(fb.format, c) else old(fb.px[yy, xx])
      decreases ymax - y
    {
      FillScanline(fb, ps, y, xint, c);
      y := y + 1;
    }
  }

  /** One scanline of fill_polygon. */
  method FillScanline(fb: Framebuffer, ps: seq<Point>, y: int, xint: array<int>, c: u32)
    requires fb.Valid() && 3 <= |ps| <= MAX_POINTS == xint.Length
    modifies fb.px, xint
    ensures forall xx, yy | fb.Inside(xx, yy) ::
              fb.px[yy, xx] == if yy == y && EvenOdd(ps, xx, yy) then Stored(fb.format, c) else old(fb.px[yy, xx])
  {
    var cnt := Gather(ps, y, xint);
    ExchangeSort(xint, cnt);
    var s := xint[..cnt];
    FillPairs(fb, s, y, c);
    forall xx ensures InPairs(s, xx) <==> EvenOdd(ps, xx, y) {
      EvenOddByPairs(ps, y, s, xx);
    }
  }
}
