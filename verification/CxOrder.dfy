/**
 The priority order EnqueueCxObj keeps: children in non-increasing priority, first come first among
 equals, also while other children leave.
 */
module CxOrder {
  import opened CxTree

  ghost predicate Known(objs: Objects, ks: seq<Ref>) { forall i | 0 <= i < |ks| :: ks[i] in objs }

  ghost predicate ByPriority(objs: Objects, ks: seq<Ref>)
    requires Known(objs, ks)
  {
    forall i, j | 0 <= i < j < |ks| :: objs[ks[i]].pri >= objs[ks[j]].pri
  }

  /** Where EnqueueCxObj stops: before the first child of lower priority. */
  ghost function PriPosition(objs: Objects, ks: seq<Ref>, p: int, from: nat): (k: nat)
    requires Known(objs, ks) && from <= |ks|
    ensures from <= k <= |ks|
    ensures forall i | from <= i < k :: objs[ks[i]].pri >= p
    ensures k < |ks| ==> objs[ks[k]].pri < p
    decreases |ks| - from
  {
    if from < |ks| && objs[ks[from]].pri >= p then PriPosition(objs, ks, p, from + 1) else from
  }

  ghost function Enqueued(objs: Objects, ks: seq<Ref>, c: Ref): seq<Ref>
    requires Known(objs, ks) && c in objs
  {
    Insert(ks, PriPosition(objs, ks, objs[c].pri, 0), c)
  }

  /** The members of a given priority, in order. */
  ghost function OfPriority(objs: Objects, ks: seq<Ref>, p: int): seq<Ref>
    requires Known(objs, ks)
  {
    if ks == [] then []
    else OfPriority(objs, ks[..|ks| - 1], p) + (if objs[ks[|ks| - 1]].pri == p then [ks[|ks| - 1]] else [])
  }

  lemma {:induction false} OfPriorityConcat(objs: Objects, a: seq<Ref>, b: seq<Ref>, p: int)
    requires Known(objs, a) && Known(objs, b)
    ensures Known(objs, a + b) && OfPriority(objs, a + b, p) == OfPriority(objs, a, p) + OfPriority(objs, b, p)
    decreases |b|
  {
    if b == [] {
      assert a + b == a;
    } else {
      var rest, y := b[..|b| - 1], b[|b| - 1];
      OfPriorityConcat(objs, a, rest, p);
      assert a + b == (a + rest) + [y];
      OfPrioritySnoc(objs, a + rest, y, p);
    }
  }

  lemma {:induction false} NoneOfPriority(objs: Objects, ks: seq<Ref>, p: int)
    requires Known(objs, ks) && forall i | 0 <= i < |ks| :: objs[ks[i]].pri != p
    ensures OfPriority(objs, ks, p) == []
    decreases |ks|
  {
    if ks != [] { NoneOfPriority(objs, ks[..|ks| - 1], p); }
  }

  /** Enqueueing keeps the order. */
  lemma EnqueuedOrder(objs: Objects, ks: seq<Ref>, c: Ref)
    requires Known(objs, ks) && c in objs && ByPriority(objs, ks)
    ensures Known(objs, Enqueued(objs, ks, c)) && ByPriority(objs, Enqueued(objs, ks, c))
  {}

  /** Enqueueing puts c after the children of its own priority. */
  lemma EnqueuedLast(objs: Objects, ks: seq<Ref>, c: Ref, p: int)
    requires Known(objs, ks) && c in objs && ByPriority(objs, ks)
    ensures Known(objs, Enqueued(objs, ks, c))
    ensures OfPriority(objs, Enqueued(objs, ks, c), p)
         == OfPriority(objs, ks, p) + (if objs[c].pri == p then [c] else [])
  {
    var k := PriPosition(objs, ks, objs[c].pri, 0);
    assert ks == ks[..k] + ks[k..];
    InsertLast(objs, ks[..k], c, ks[k..], p);
  }

  lemma InsertLast(objs: Objects, front: seq<Ref>, c: Ref, back: seq<Ref>, p: int)
    requires Known(objs, front) && Known(objs, back) && c in objs
    requires forall i | 0 <= i < |back| :: objs[back[i]].pri < objs[c].pri
    ensures Known(objs, front + [c] + back) && Known(objs, front + back)
    ensures OfPriority(objs, front + [c] + back, p)
         == OfPriority(objs, front + back, p) + (if objs[c].pri == p then [c] else [])
  {
    OfPriorityConcat(objs, front, back, p);
    OfPriorityInsert(objs, front, c, back, p);
    if objs[c].pri == p {
      NoneOfPriority(objs, back, p);
    }
  }

  lemma OfPriorityInsert(objs: Objects, front: seq<Ref>, c: Ref, back: seq<Ref>, p: int)
    requires Known(objs, front) && Known(objs, back) && c in objs
    ensures Known(objs, front + [c] + back)
    ensures OfPriority(objs, front + [c] + back, p)
         == OfPriority(objs, front, p) + (if objs[c].pri == p then [c] else []) + OfPriority(objs, back, p)
  {
    assert (front + [c])[..|front|] == front;
    OfPriorityConcat(objs, front + [c], back, p);
  }

  // ---- arrival order ----------------------------------------------------------------------

  /** ks is xs sorted by priority, stably: for each priority, the same members in the same order. */
  ghost predicate SortedArrivals(objs: Objects, ks: seq<Ref>, xs: seq<Ref>) {
    && Known(objs, ks) && Known(objs, xs) && ByPriority(objs, ks)
    && forall p :: OfPriority(objs, ks, p) == OfPriority(objs, xs, p)
  }

  lemma {:induction false} OfPriorityMembers(objs: Objects, ks: seq<Ref>, p: int, x: Ref)
    requires Known(objs, ks)
    ensures x in OfPriority(objs, ks, p) <==> x in ks && objs[x].pri == p
    decreases |ks|
  {
    if ks != [] {
      OfPriorityMembers(objs, ks[..|ks| - 1], p, x);
      assert ks == ks[..|ks| - 1] + [ks[|ks| - 1]];
    }
  }

  /** The list and its arrivals have the same members. */
  lemma SameMembers(objs: Objects, ks: seq<Ref>, xs: seq<Ref>, x: Ref)
    requires SortedArrivals(objs, ks, xs)
    ensures x in ks <==> x in xs
  {
    if x in objs {
      OfPriorityMembers(objs, ks, objs[x].pri, x);
      OfPriorityMembers(objs, xs, objs[x].pri, x);
    }
  }

  lemma ArrivalEnqueued(objs: Objects, ks: seq<Ref>, xs: seq<Ref>, c: Ref)
    requires SortedArrivals(objs, ks, xs) && c in objs
    ensures SortedArrivals(objs, Enqueued(objs, ks, c), xs + [c])
  {
    EnqueuedOrder(objs, ks, c);
    forall p
      ensures OfPriority(objs, Enqueued(objs, ks, c), p) == OfPriority(objs, xs + [c], p)
    {
      EnqueuedLast(objs, ks, c, p);
      assert (xs + [c])[..|xs|] == xs;
    }
  }

  /** A sequence without one member. */
  ghost function Without(xs: seq<Ref>, c: Ref): (r: seq<Ref>)
    ensures forall x :: x in r <==> x in xs && x != c
  {
    if xs == [] then []
    else Without(xs[..|xs| - 1], c) + (if xs[|xs| - 1] == c then [] else [xs[|xs| - 1]])
  }

  lemma {:induction false} WithoutSnoc(xs: seq<Ref>, y: Ref, c: Ref)
    ensures Without(xs + [y], c) == Without(xs, c) + (if y == c then [] else [y])
  {
    assert (xs + [y])[..|xs|] == xs;
  }

  lemma KnownWithout(objs: Objects, xs: seq<Ref>, c: Ref)
    requires Known(objs, xs)
    ensures Known(objs, Without(xs, c))
  {
    forall i | 0 <= i < |Without(xs, c)|
      ensures Without(xs, c)[i] in objs
    {
      assert Without(xs, c)[i] in xs;
    }
  }

  lemma OfPrioritySnoc(objs: Objects, xs: seq<Ref>, y: Ref, p: int)
    requires Known(objs, xs) && y in objs
    ensures Known(objs, xs + [y])
    ensures OfPriority(objs, xs + [y], p) == OfPriority(objs, xs, p) + (if objs[y].pri == p then [y] else [])
  {
    assert (xs + [y])[..|xs|] == xs;
  }

  lemma {:induction false} OfPriorityWithout(objs: Objects, xs: seq<Ref>, c: Ref, p: int)
    requires Known(objs, xs)
    ensures Known(objs, Without(xs, c)) && OfPriority(objs, Without(xs, c), p) == Without(OfPriority(objs, xs, p), c)
    decreases |xs|
  {
    KnownWithout(objs, xs, c);
    if xs != [] {
      var rest, y := xs[..|xs| - 1], xs[|xs| - 1];
      OfPriorityWithout(objs, rest, c, p);
      WithoutSnoc(OfPriority(objs, rest, p), y, c);
      if y == c { assert Without(xs, c) == Without(rest, c); } else { OfPrioritySnoc(objs, Without(rest, c), y, p); }
      if objs[y].pri != p { assert OfPriority(objs, xs, p) == OfPriority(objs, rest, p); }
    }
  }

  lemma {:induction false} WithoutIsDelete(ks: seq<Ref>, k: nat)
    requires k < |ks| && Distinct(ks)
    ensures Without(ks, ks[k]) == Delete(ks, k)
    decreases |ks|
  {
    var rest, y := ks[..|ks| - 1], ks[|ks| - 1];
    if k == |ks| - 1 {
      WithoutNone(rest, y);
    } else {
      WithoutIsDelete(rest, k);
    }
  }

  lemma {:induction false} WithoutNone(ks: seq<Ref>, c: Ref)
    requires c !in ks
    ensures Without(ks, c) == ks
    decreases |ks|
  {
    if ks != [] { WithoutNone(ks[..|ks| - 1], c); }
  }

  lemma ArrivalRemoved(objs: Objects, ks: seq<Ref>, xs: seq<Ref>, k: nat)
    requires SortedArrivals(objs, ks, xs) && k < |ks| && Distinct(ks)
    ensures SortedArrivals(objs, Delete(ks, k), Without(xs, ks[k]))
  {
    WithoutIsDelete(ks, k);
    KnownWithout(objs, xs, ks[k]);
    forall p
      ensures OfPriority(objs, Delete(ks, k), p) == OfPriority(objs, Without(xs, ks[k]), p)
    {
      OfPriorityWithout(objs, ks, ks[k], p);
      OfPriorityWithout(objs, xs, ks[k], p);
    }
  }

  lemma {:induction false} OfPriorityKept(objs: Objects, objs': Objects, ks: seq<Ref>, p: int)
    requires Known(objs, ks) && forall x | x in ks :: x in objs' && objs'[x].pri == objs[x].pri
    ensures Known(objs', ks) && OfPriority(objs', ks, p) == OfPriority(objs, ks, p)
    decreases |ks|
  {
    if ks != [] { OfPriorityKept(objs, objs', ks[..|ks| - 1], p); }
  }

  /** The order depends on the priorities of the members alone. */
  lemma ArrivalKept(objs: Objects, objs': Objects, ks: seq<Ref>, xs: seq<Ref>)
    requires SortedArrivals(objs, ks, xs) && forall x | x in ks :: x in objs' && objs'[x].pri == objs[x].pri
    ensures SortedArrivals(objs', ks, xs)
  {
    forall x | x in xs
      ensures x in ks
    {
      SameMembers(objs, ks, xs, x);
    }
    forall p
      ensures Known(objs', ks) && Known(objs', xs) && OfPriority(objs', ks, p) == OfPriority(objs', xs, p)
    {
      OfPriorityKept(objs, objs', ks, p);
      OfPriorityKept(objs, objs', xs, p);
    }
  }

  // ---- all the queues of a forest ------------------------------------------------------------

  /** The arrivals still linked, for every object whose children were only ever enqueued. */
  ghost predicate Queues(objs: Objects, kids: Kids, queue: Kids) {
    forall h {:trigger h in queue} | h in queue :: h in kids && SortedArrivals(objs, kids[h], queue[h])
  }

  lemma QueueAdded(objs: Objects, kids: Kids, queue: Kids, h: Ref, xs: seq<Ref>)
    requires Queues(objs, kids, queue - {h}) && h in kids && SortedArrivals(objs, kids[h], xs)
    ensures Queues(objs, kids, queue[h := xs])
  {
    forall g | g in queue[h := xs]
      ensures g in kids && SortedArrivals(objs, kids[g], queue[h := xs][g])
    {
      if g != h { assert g in queue - {h}; }
    }
  }

  /** Queues whose lists and members' priorities did not change. */
  lemma QueuesKept(objs: Objects, kids: Kids, queue: Kids, objs': Objects, kids': Kids, queue': Kids)
    requires Queues(objs, kids, queue)
    requires forall h | h in queue' :: h in queue && h in kids' && kids'[h] == kids[h] && queue'[h] == queue[h]
    requires forall h, x | h in queue' && x in kids'[h] :: x in objs && x in objs' && objs'[x].pri == objs[x].pri
    ensures Queues(objs', kids', queue')
  {
    forall h | h in queue'
      ensures SortedArrivals(objs', kids'[h], queue'[h])
    {
      ArrivalKept(objs, objs', kids[h], queue[h]);
    }
  }
}
