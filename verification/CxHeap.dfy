/**
 The operations of src/croi/commodities/commodities_lib.c on the object tree. The heap keeps the
 live objects and the log of Croi_Free calls; kids and rank are ghost witnesses of its shape.
 */
module CxHeap {
  import opened CxTree
  import opened CxLink
  import opened CxOrder

  /** c was linked among h's children right behind pred, or first when pred is null. */
  ghost predicate InsertedAfter(objs: Objects, objs': Objects, kids: Kids, kids': Kids, h: Ref, c: Ref, pred: Ref) {
    h in kids &&
    exists k :: 0 <= k <= |kids[h]| && kids' == kids[h := Insert(kids[h], k, c)] &&
                objs' == LinkIn(objs, h, c, kids[h], k) &&
                (if pred == 0 then k == 0 else 0 < k && kids[h][k - 1] == pred)
  }

  /** Exactly c's own links, and the one that led to it, were rewritten. */
  ghost predicate TakenOut(objs: Objects, objs': Objects, kids: Kids, kids': Kids, h: Ref, c: Ref) {
    h in kids &&
    exists k :: 0 <= k < |kids[h]| && kids[h][k] == c &&
                kids' == kids[h := Delete(kids[h], k)] && objs' == LinkOut(objs, h, kids[h], k)
  }

  /** The arrivals at p without c. */
  ghost function Departed(queue: Kids, p: Ref, c: Ref): Kids {
    if p in queue then queue[p := Without(queue[p], c)] else queue
  }

  /** The arrivals at h with c. */
  ghost function Arrived(queue: Kids, h: Ref, c: Ref): Kids {
    if h in queue then queue[h := queue[h] + [c]] else queue
  }

  class Heap {
    var objs: Objects
    var freed: seq<Ref>
    ghost var kids: Kids
    ghost var rank: map<Ref, nat>
    ghost var queue: Kids

    /** A forest without cycles, in which the children of every object that has only ever been
        enqueued on are in non-increasing priority and, among equals, in order of arrival. */
    ghost predicate Valid()
      reads this
    {
      Forest(objs, kids) && Ranked(objs, rank) && Queues(objs, kids, queue)
    }

    constructor ()
      ensures Valid() && objs == map[] && freed == [] && queue == map[]
    {
      objs, freed, kids, rank, queue := map[], [], map[], map[], map[];
    }

    /** Whatever was done to the heap: children that were only ever enqueued stand in non-increasing
        priority, first come first among equals, whoever left in between. */
    lemma InOrder(h: Ref)
      requires Valid() && h in queue
      ensures h in kids && SortedArrivals(objs, kids[h], queue[h])
      ensures forall x :: x in queue[h] <==> x in objs && objs[x].parent == h
    {
      forall x
        ensures x in queue[h] <==> x in objs && objs[x].parent == h
      {
        SameMembers(objs, kids[h], queue[h], x);
        ChildOf(objs, kids, h, x);
      }
    }

    /** CreateCxObj: `address` is what the allocator returned, 0 on failure. */
    method Create(address: Ref, pri: int)
      requires Valid() && address !in objs
      modifies this
      ensures Valid() && freed == old(freed)
      ensures address == 0 ==> objs == old(objs) && kids == old(kids) && queue == old(queue)
      ensures address != 0 ==> objs == old(objs)[address := CxObj(pri, false, 0, 0, 0)]
      ensures address != 0 ==> kids == old(kids)[address := []] && queue == old(queue)[address := []]
    {
      if address == 0 {
        return;
      }
      ghost var was := objs;
      objs := objs[address := CxObj(pri, false, 0, 0, 0)];
      CreateForest(was, kids, address, pri);
      QueueCreated(was, kids, queue, address, pri);
      kids := kids[address := []];
      rank := rank[address := 0];
      queue := queue[address := []];
    }

    /** SetCxObjPri: clamps, and returns the old priority. A linked object's new priority ends the
        order of its siblings. */
    method SetPri(c: Ref, pri: int) returns (was: int)
      requires Valid() && (c == 0 || c in objs)
      modifies this`objs, this`queue
      ensures Valid() && (c == 0 ==> was == 0 && objs == old(objs) && queue == old(queue))
      ensures c != 0 ==> was == old(objs)[c].pri && objs == old(objs)[c := old(objs)[c].(pri := Clamped(pri))]
      ensures c != 0 ==> queue == old(queue) - {old(objs)[c].parent}
    {
      if c == 0 {
        return 0;
      }
      was := objs[c].pri;
      var p := pri;
      if p < -128 {
        p := -128;
      }
      if p > 127 {
        p := 127;
      }
      ghost var before := objs;
      objs := objs[c := objs[c].(pri := p)];
      SameLinksForest(before, kids, objs);
      QueueRepriced(before, kids, queue, c, p);
      queue := queue - {before[c].parent};
    }

    /** AttachCxObj: last among the children of h; a null child is recorded on h. The shape survives
        when c was linkable, and by CxLink.AttachExactly only then. */
    method Attach(h: Ref, c: Ref)
      requires Valid() && (h == 0 || h in objs) && (c == 0 || c in objs)
      modifies this
      ensures freed == old(freed) && (h == 0 || c == 0 ==> Valid() && kids == old(kids) && queue == old(queue))
      ensures h == 0 ==> objs == old(objs)
      ensures h != 0 && c == 0 ==> objs == old(objs)[h := old(objs)[h].(nullAttach := true)]
      ensures h != 0 && c != 0 ==> LastLink(h, old(kids)[h], c).o in old(objs)
      ensures h != 0 && c != 0 ==> objs == RawLink(old(objs), h, c, 0, LastLink(h, old(kids)[h], c))
      ensures h != 0 && c != 0 && Linkable(old(objs), old(rank), h, c) ==>
                && Valid() && kids == old(kids)[h := old(kids)[h] + [c]] && queue == old(queue) - {h}
                && objs == LinkIn(old(objs), h, c, old(kids)[h], |old(kids)[h]|)
    {
      if h == 0 || c == 0 {
        if h != 0 {
          ghost var before := objs;
          objs := objs[h := objs[h].(nullAttach := true)];
          SameLinksForest(before, kids, objs);
          QueuesKept(before, kids, queue, objs, kids, queue);
        }
        return;
      }
      ghost var was, ks := objs, kids[h];
      assert ChildList(was, h, ks);
      objs := objs[c := objs[c].(parent := h, next := 0)];
      LoadLinkTo(was, h, ks, |Walked(ks, c)|);
      if objs[h].children == 0 {
        objs := objs[h := objs[h].(children := c)];
      } else {
        var t := WalkToEnd(h, c, was, ks);
        objs := objs[t := objs[t].(next := c)];
      }
      if Linkable(was, rank, h, c) {
        ChildOf(was, kids, h, c);
        assert Insert(ks, |ks|, c) == ks + [c];
        LinkedSound(was, kids, rank, h, c, |ks|);
        QueueLeft(was, kids, queue, h, c, |ks|);
        Linked(was, h, c, |ks|, queue - {h});
      }
    }

    /** AttachCxObj's walk: the last object it reaches, with c's sibling link already cleared. */
    method WalkToEnd(h: Ref, c: Ref, ghost was: Objects, ghost ks: seq<Ref>) returns (t: Ref)
      requires h in was && c in was && ChildList(was, h, ks) && 0 !in was
      requires objs == was[c := was[c].(parent := h, next := 0)]
      requires objs[h].children != 0
      ensures Walked(ks, c) != [] && t == Walked(ks, c)[|Walked(ks, c)| - 1] && t in objs
    {
      t := objs[h].children;
      ghost var i, seen := 0, Walked(ks, c);
      WalkStep(was, h, ks, c, 0);
      while objs[t].next != 0
        invariant 0 <= i < |seen| && t == seen[i] && t in objs && objs[t].next == At(seen, i + 1)
        decreases |seen| - i
      {
        t := objs[t].next;
        i := i + 1;
        WalkStep(was, h, ks, c, i);
      }
    }

    /** Establishes the invariant after the links of c and its predecessor were written. */
    ghost method Linked(was: Objects, h: Ref, c: Ref, k: nat, queue': Kids)
      requires Forest(was, kids) && Ranked(was, rank) && Linkable(was, rank, h, c) && k <= |kids[h]|
      requires objs == LinkIn(was, h, c, kids[h], k) && Queues(objs, kids[h := Insert(kids[h], k, c)], queue')
      modifies this`kids, this`rank, this`queue
      ensures Valid() && kids == old(kids)[h := Insert(old(kids)[h], k, c)] && queue == queue'
    {
      LinkInForest(was, kids, h, c, k);
      LinkInRanked(was, kids, rank, h, c, k);
      kids := kids[h := Insert(kids[h], k, c)];
      rank := Lift(was, rank, h, c);
      queue := queue';
    }

    /** EnqueueCxObj's walk: the link to write for an object of c's priority. */
    method SeekPriority(h: Ref, c: Ref, ghost ks: seq<Ref>) returns (pp: Link, ghost k: nat)
      requires h in objs && c in objs && ChildList(objs, h, ks) && 0 !in objs
      ensures k == PriPosition(objs, ks, objs[c].pri, 0) && pp == LinkTo(h, ks, k)
      ensures pp.o in objs && Load(objs, pp) == At(ks, k)
    {
      pp, k := ChildrenOf(h), 0;
      while Load(objs, pp) != 0 && objs[Load(objs, pp)].pri >= objs[c].pri
        invariant 0 <= k <= |ks| && pp == LinkTo(h, ks, k) && pp.o in objs && Load(objs, pp) == At(ks, k)
        invariant k < |ks| ==> ks[k] in objs
        invariant PriPosition(objs, ks, objs[c].pri, 0) == PriPosition(objs, ks, objs[c].pri, k)
        decreases |ks| - k
      {
        pp := NextOf(Load(objs, pp));
        k := k + 1;
        LoadLinkTo(objs, h, ks, k);
      }
    }

    /** RemoveCxObj's walk: the link that leads to child number k. */
    method SeekChild(h: Ref, c: Ref, ghost ks: seq<Ref>, ghost k: nat) returns (pp: Link)
      requires h in objs && ChildList(objs, h, ks) && k < |ks| && ks[k] == c && 0 !in objs
      ensures pp == LinkTo(h, ks, k) && pp.o in objs && Load(objs, pp) == c
    {
      pp := ChildrenOf(h);
      ghost var i := 0;
      while Load(objs, pp) != 0 && Load(objs, pp) != c
        invariant 0 <= i <= k && pp == LinkTo(h, ks, i) && pp.o in objs && Load(objs, pp) == ks[i]
        decreases k - i
      {
        pp := NextOf(Load(objs, pp));
        i := i + 1;
        LoadLinkTo(objs, h, ks, i);
      }
    }

    /** EnqueueCxObj: before the first child of lower priority. The shape survives when c was
        linkable, and by CxLink.LinkExactly only then. */
    method Enqueue(h: Ref, c: Ref)
      requires Valid() && (h == 0 || h in objs) && (c == 0 || c in objs)
      modifies this
      ensures freed == old(freed)
      ensures h == 0 || c == 0 ==> Valid() && objs == old(objs) && kids == old(kids) && queue == old(queue)
      ensures h != 0 && c != 0 ==> Known(old(objs), old(kids)[h])
      ensures h != 0 && c != 0 ==>
                var ks, k := old(kids)[h], PriPosition(old(objs), old(kids)[h], old(objs)[c].pri, 0);
                LinkTo(h, ks, k).o in old(objs) && objs == RawLink(old(objs), h, c, At(ks, k), LinkTo(h, ks, k))
      ensures h != 0 && c != 0 && Linkable(old(objs), old(rank), h, c) ==>
                && Valid() && kids == old(kids)[h := Enqueued(old(objs), old(kids)[h], c)]
                && queue == Arrived(old(queue), h, c)
                && objs == LinkIn(old(objs), h, c, old(kids)[h],
                                  PriPosition(old(objs), old(kids)[h], old(objs)[c].pri, 0))
    {
      if h == 0 || c == 0 {
        return;
      }
      ghost var was, ks := objs, kids[h];
      assert ChildList(was, h, ks);
      var pp, k := SeekPriority(h, c, ks);
      objs := objs[c := objs[c].(parent := h, next := Load(objs, pp))];
      objs := Store(objs, pp, c);
      if Linkable(was, rank, h, c) {
        LinkedSound(was, kids, rank, h, c, k);
        QueueJoined(was, kids, queue, h, c);
        Linked(was, h, c, k, Arrived(queue, h, c));
      }
    }

    /** InsertCxObj: first, or right after a given child of h. The shape survives when c was linkable
        and pred a child of h, and by CxLink.InsertExactly only then. */
    method InsertAfter(h: Ref, c: Ref, pred: Ref)
      requires Valid() && (h == 0 || h in objs) && (c == 0 || c in objs) && (pred == 0 || pred in objs)
      modifies this
      ensures freed == old(freed)
      ensures h == 0 || c == 0 ==> Valid() && objs == old(objs) && kids == old(kids) && queue == old(queue)
      ensures h != 0 && c != 0 ==>
                objs == RawLink(old(objs), h, c, Load(old(objs), Behind(h, pred)), Behind(h, pred))
      ensures h != 0 && c != 0 && Linkable(old(objs), old(rank), h, c) && (pred == 0 || old(objs)[pred].parent == h) ==>
                && Valid() && InsertedAfter(old(objs), objs, old(kids), kids, h, c, pred) && queue == old(queue) - {h}
    {
      if h == 0 || c == 0 {
        return;
      }
      ghost var was := objs;
      if pred == 0 {
        objs := objs[c := objs[c].(parent := h, next := objs[h].children)];
        objs := objs[h := objs[h].(children := c)];
      } else {
        objs := objs[c := objs[c].(parent := h, next := objs[pred].next)];
        objs := objs[pred := objs[pred].(next := c)];
      }
      if Linkable(was, rank, h, c) && (pred == 0 || was[pred].parent == h) {
        ghost var k := BehindChild(was, kids, h, pred);
        LinkedSound(was, kids, rank, h, c, k);
        QueueLeft(was, kids, queue, h, c, k);
        Linked(was, h, c, k, queue - {h});
      }
    }

    /** RemoveCxObj: out of the parent's list, wherever it stands. */
    method Remove(c: Ref)
      requires Valid() && (c == 0 || c in objs)
      modifies this`objs, this`kids, this`queue
      ensures Valid()
      ensures c == 0 || old(objs)[c].parent == 0 ==> objs == old(objs) && kids == old(kids) && queue == old(queue)
      ensures c != 0 && old(objs)[c].parent != 0 ==>
                TakenOut(old(objs), objs, old(kids), kids, old(objs)[c].parent, c)
      ensures c != 0 ==> c in objs && objs[c].parent == 0 && queue == Departed(old(queue), old(objs)[c].parent, c)
      ensures c != 0 ==> OthersKept(old(kids), kids, old(objs)[c].parent, c)
    {
      if c == 0 {
        return;
      }
      assert Listed(objs, kids, c);
      var h := objs[c].parent;
      if h == 0 {
        objs := objs[c := objs[c].(parent := 0, next := 0)];
        assert objs == old(objs);
        return;
      }
      ghost var was, ks := objs, kids[h];
      assert ChildList(was, h, ks);
      ghost var k :| 0 <= k < |ks| && ks[k] == c;
      Bypass(h, c, ks, k);
      TakeOut(was, h, k);
    }

    /** RemoveCxObj's search and its two stores. */
    method Bypass(h: Ref, c: Ref, ghost ks: seq<Ref>, ghost k: nat)
      requires Forest(objs, kids) && h in objs && ks == kids[h] && k < |ks| && ks[k] == c
      modifies this`objs
      ensures objs == LinkOut(old(objs), h, ks, k)
    {
      ghost var was := objs;
      assert ChildList(was, h, ks);
      var pp := SeekChild(h, c, ks, k);
      if Load(objs, pp) == c {
        objs := Store(objs, pp, objs[c].next);
      }
      objs := objs[c := objs[c].(parent := 0, next := 0)];
      StoreLinksOut(was, h, ks, k);
    }

    /** Establishes the invariant after child k of h was bypassed. */
    ghost method TakeOut(was: Objects, h: Ref, k: nat)
      requires Forest(was, kids) && Ranked(was, rank) && Queues(was, kids, queue) && h in was && k < |kids[h]|
      requires objs == LinkOut(was, h, kids[h], k)
      modifies this`kids, this`queue
      ensures Valid() && kids == old(kids)[h := Delete(old(kids)[h], k)]
      ensures queue == Departed(old(queue), h, old(kids)[h][k])
    {
      LinkOutForest(was, kids, h, k);
      LinkOutRanked(was, kids, rank, h, k);
      QueueDeparted(was, kids, queue, h, k);
      queue := Departed(queue, h, kids[h][k]);
      kids := kids[h := Delete(kids[h], k)];
    }

    /** cx_free_subtree: frees exactly the subtree, each object once and after its descendants;
        every object it touches is still live. g is the heap before the deletion began. */
    method FreeSubtree(o: Ref, ghost g: Objects, ghost top: nat)
      requires Tree(g, kids, rank, top) && o in g && Intact(objs, g, rank, o)
      modifies this`objs, this`freed
      ensures freed == old(freed) + PostOrder(g, kids, rank, top, o)
      ensures objs == old(objs) - Members(PostOrder(g, kids, rank, top, o))
      decreases top - rank[o]
    {
      assert ChildList(g, o, kids[o]);
      var c := objs[o].children;
      ghost var n := 0;
      while c != 0
        invariant 0 <= n <= |kids[o]| && c == At(kids[o], n)
        invariant freed == old(freed) + Children(g, kids, rank, top, o, n)
        invariant objs == old(objs) - Members(Children(g, kids, rank, top, o, n))
        decreases |kids[o]| - n
      {
        ChildDeeper(g, kids, rank, o, n);
        NextIntact(old(objs), g, kids, rank, top, o, n);
        var next := objs[c].next;
        FreeSubtree(c, g, top);
        GoneConcat(old(objs), old(freed), Children(g, kids, rank, top, o, n), PostOrder(g, kids, rank, top, c));
        c := next;
        n := n + 1;
      }
      OwnerUnfreed(g, kids, rank, top, o, n);
      Free(o);
      GoneConcat(old(objs), old(freed), Children(g, kids, rank, top, o, n), [o]);
      assert Members([o]) == {o};
    }

    /** Croi_Free, of a live object only. */
    method Free(o: Ref)
      requires o in objs
      modifies this`objs, this`freed
      ensures objs == old(objs) - {o} && freed == old(freed) + [o]
    {
      objs := objs - {o};
      freed := freed + [o];
    }

    /** Frees a detached object with its subtree and forgets their shape. */
    method Drop(c: Ref)
      requires Valid() && c in objs && objs[c].parent == 0
      modifies this
      ensures Valid() && FreedExactly(old(objs), old(rank), old(freed), freed, c)
      ensures forall x :: x in objs <==> x in old(objs) && !Below(old(objs), old(rank), x, c)
      ensures forall x | x in objs :: objs[x] == old(objs)[x]
      ensures forall x | x in kids :: x in old(kids) && kids[x] == old(kids)[x]
      ensures Survive(old(queue), queue, objs)
    {
      ghost var g := objs;
      ghost var top := Top(rank);
      ghost var gone := Members(PostOrder(g, kids, rank, top, c));
      FreedByPostOrder(g, kids, rank, top, c, freed);
      FreeSubtree(c, g, top);
      PruneForest(g, kids, rank, c, gone);
      QueuesPruned(g, kids, queue, gone);
      kids := kids - gone;
      rank := rank - gone;
      queue := queue - gone;
    }

    /** DeleteCxObj: unlinks c and frees its subtree; the rest of the forest stays as it was. */
    method DeleteCxObj(c: Ref)
      requires Valid() && (c == 0 || c in objs)
      modifies this
      ensures Valid()
      ensures c == 0 ==> objs == old(objs) && freed == old(freed) && queue == old(queue)
      ensures c != 0 ==> FreedExactly(old(objs), old(rank), old(freed), freed, c)
      ensures c != 0 ==> forall x :: x in objs <==> x in old(objs) && !Below(old(objs), old(rank), x, c)
      ensures c != 0 ==> forall x | x in objs ::
                           objs[x].pri == old(objs)[x].pri && objs[x].nullAttach == old(objs)[x].nullAttach
      ensures c != 0 ==> OthersKept(old(kids), kids, old(objs)[c].parent, c)
      ensures c != 0 ==> Survive(Departed(old(queue), old(objs)[c].parent, c), queue, objs)
    {
      if c == 0 {
        return;
      }
      ghost var before := objs;
      Remove(c);
      assert objs.Keys == before.Keys && forall x | x in before && x != c :: objs[x].parent == before[x].parent;
      UnlinkKeepsSubtree(before, objs, rank, c);
      Drop(c);
    }
  }

  /** The nearest priority that a signed byte holds. */
  function Clamped(pri: int): (p: int)
    ensures -128 <= p <= 127 && forall q | -128 <= q <= 127 :: Distance(pri, p) <= Distance(pri, q)
  {
    if pri < -128 then -128 else if pri > 127 then 127 else pri
  }

  function Distance(a: int, b: int): int { if a < b then b - a else a - b }

  /** The queues of the objects that are left. */
  ghost predicate Survive(queue: Kids, queue': Kids, objs: Objects) {
    && (forall h :: h in queue' <==> h in queue && h in objs)
    && forall h | h in queue' :: queue'[h] == queue[h]
  }

  // ---- what each operation does to the queues ---------------------------------------------

  lemma QueueCreated(objs: Objects, kids: Kids, queue: Kids, r: Ref, pri: int)
    requires Forest(objs, kids) && Queues(objs, kids, queue) && r !in objs
    ensures Queues(objs[r := CxObj(pri, false, 0, 0, 0)], kids[r := []], queue[r := []])
  {
    var objs', kids' := objs[r := CxObj(pri, false, 0, 0, 0)], kids[r := []];
    MembersKnown(objs, kids);
    QueuesKept(objs, kids, queue, objs', kids', queue);
  }

  lemma MembersKnown(objs: Objects, kids: Kids)
    requires Forest(objs, kids)
    ensures forall h, x | h in kids && x in kids[h] :: x in objs && objs[x].parent == h
  {
    forall h, x | h in kids && x in kids[h]
      ensures x in objs && objs[x].parent == h
    {
      ChildOf(objs, kids, h, x);
    }
  }

  lemma QueueRepriced(objs: Objects, kids: Kids, queue: Kids, c: Ref, p: int)
    requires Forest(objs, kids) && Queues(objs, kids, queue) && c in objs
    ensures Queues(objs[c := objs[c].(pri := p)], kids, queue - {objs[c].parent})
  {
    MembersKnown(objs, kids);
    QueuesKept(objs, kids, queue, objs[c := objs[c].(pri := p)], kids, queue - {objs[c].parent});
  }

  /** Linking c anywhere under h leaves the other queues. */
  lemma QueueLeft(objs: Objects, kids: Kids, queue: Kids, h: Ref, c: Ref, k: nat)
    requires Forest(objs, kids) && Queues(objs, kids, queue) && h in objs && k <= |kids[h]|
    ensures Queues(LinkIn(objs, h, c, kids[h], k), kids[h := Insert(kids[h], k, c)], queue - {h})
  {
    MembersKnown(objs, kids);
    QueuesKept(objs, kids, queue, LinkIn(objs, h, c, kids[h], k), kids[h := Insert(kids[h], k, c)], queue - {h});
  }

  /** Enqueueing c on h lets it join h's queue. */
  lemma QueueJoined(objs: Objects, kids: Kids, queue: Kids, h: Ref, c: Ref)
    requires Forest(objs, kids) && Queues(objs, kids, queue) && h in objs && c in objs && Known(objs, kids[h])
    ensures var k := PriPosition(objs, kids[h], objs[c].pri, 0);
      Queues(LinkIn(objs, h, c, kids[h], k), kids[h := Insert(kids[h], k, c)], Arrived(queue, h, c))
  {
    var k := PriPosition(objs, kids[h], objs[c].pri, 0);
    var objs', kids' := LinkIn(objs, h, c, kids[h], k), kids[h := Insert(kids[h], k, c)];
    QueueLeft(objs, kids, queue, h, c, k);
    if h in queue {
      ArrivalEnqueued(objs, kids[h], queue[h], c);
      ArrivalKept(objs, objs', kids'[h], queue[h] + [c]);
      QueueAdded(objs', kids', queue, h, queue[h] + [c]);
    } else {
      assert queue - {h} == queue;
    }
  }

  lemma QueueDeparted(objs: Objects, kids: Kids, queue: Kids, h: Ref, k: nat)
    requires Forest(objs, kids) && Queues(objs, kids, queue) && h in objs && k < |kids[h]|
    ensures Queues(LinkOut(objs, h, kids[h], k), kids[h := Delete(kids[h], k)], Departed(queue, h, kids[h][k]))
  {
    var objs', kids' := LinkOut(objs, h, kids[h], k), kids[h := Delete(kids[h], k)];
    MembersKnown(objs, kids);
    QueuesKept(objs, kids, queue, objs', kids', queue - {h});
    if h in queue {
      var xs := Without(queue[h], kids[h][k]);
      assert ChildList(objs, h, kids[h]);
      ArrivalRemoved(objs, kids[h], queue[h], k);
      ArrivalKept(objs, objs', kids'[h], xs);
      QueueAdded(objs', kids', queue, h, xs);
    } else {
      assert queue - {h} == queue;
    }
  }

  lemma QueuesPruned(objs: Objects, kids: Kids, queue: Kids, gone: set<Ref>)
    requires Queues(objs, kids, queue) && Forest(objs - gone, kids - gone)
    ensures Queues(objs - gone, kids - gone, queue - gone)
  {
    MembersKnown(objs - gone, kids - gone);
    QueuesKept(objs, kids, queue, objs - gone, kids - gone, queue - gone);
  }

  /** Every object of o's subtree is still live and unchanged. */
  ghost predicate Intact(objs: Objects, g: Objects, rank: map<Ref, nat>, o: Ref)
    requires Ranked(g, rank)
  {
    forall x | x in g && Below(g, rank, x, o) :: x in objs && objs[x] == g[x]
  }

  lemma NextIntact(objs: Objects, g: Objects, kids: Kids, rank: map<Ref, nat>, top: nat, o: Ref, n: nat)
    requires Tree(g, kids, rank, top) && o in g && n < |kids[o]| && Intact(objs, g, rank, o)
    ensures kids[o][n] in g && g[kids[o][n]].next == At(kids[o], n + 1)
    ensures kids[o][n] in objs && kids[o][n] !in Members(Children(g, kids, rank, top, o, n))
    ensures objs[kids[o][n]] == g[kids[o][n]]
    ensures Intact(objs - Members(Children(g, kids, rank, top, o, n)), g, rank, kids[o][n])
  {
    assert ChildList(g, o, kids[o]);
    assert g[kids[o][n]].next == At(kids[o], n + 1);
    UnfreedChild(g, kids, rank, top, o, n);
    assert Below(g, rank, kids[o][n], kids[o][n]);
  }

  lemma FreedByPostOrder(g: Objects, kids: Kids, rank: map<Ref, nat>, top: nat, c: Ref, freed: seq<Ref>)
    requires Tree(g, kids, rank, top) && c in g
    ensures FreedExactly(g, rank, freed, freed + PostOrder(g, kids, rank, top, c), c)
    ensures forall x :: x in Members(PostOrder(g, kids, rank, top, c)) <==> x in g && Below(g, rank, x, c)
  {
    var order := PostOrder(g, kids, rank, top, c);
    forall x ensures x in order <==> x in g && Below(g, rank, x, c) {
      PostOrderExact(g, kids, rank, top, c, x);
    }
    PostOrderDistinct(g, kids, rank, top, c);
    assert (freed + order)[|freed|..] == order;
  }

  ghost function Members(s: seq<Ref>): set<Ref> { set x | x in s }

  /** Freeing a and then b is freeing a + b. */
  lemma GoneConcat(objs: Objects, freed: seq<Ref>, a: seq<Ref>, b: seq<Ref>)
    ensures objs - Members(a) - Members(b) == objs - Members(a + b)
    ensures freed + a + b == freed + (a + b)
  {
    assert Members(a + b) == Members(a) + Members(b);
  }

  /** The log grew by each object of c's subtree exactly once, and nothing else. */
  ghost predicate FreedExactly(objs: Objects, rank: map<Ref, nat>, freed: seq<Ref>, freed': seq<Ref>, c: Ref)
    requires Ranked(objs, rank)
  {
    && |freed| <= |freed'| && freed == freed'[..|freed|]
    && Distinct(freed'[|freed|..])
    && (forall x :: x in freed'[|freed|..] <==> x in objs && Below(objs, rank, x, c))
  }

  /** The surviving child lists are the old ones, less c in its parent's. */
  ghost predicate OthersKept(kids: Kids, kids': Kids, p: Ref, c: Ref) {
    forall x | x in kids' ::
      x in kids &&
      if x == p then exists k :: 0 <= k < |kids[x]| && kids[x][k] == c && kids'[x] == Delete(kids[x], k)
      else kids'[x] == kids[x]
  }

  /** A bound on the depths. */
  ghost function Top(rank: map<Ref, nat>): (top: nat)
    ensures Bounded(rank, top)
  {
    if rank == map[] then 0
    else
      var o :| o in rank;
      var rest := Top(rank - {o});
      assert forall x | x in rank && x != o :: x in rank - {o};
      if rank[o] > rest then rank[o] else rest
  }

  /** While earlier siblings are being freed, the next child's subtree is untouched. */
  lemma UnfreedChild(g: Objects, kids: Kids, rank: map<Ref, nat>, top: nat, o: Ref, n: nat)
    requires Tree(g, kids, rank, top) && o in g && n < |kids[o]|
    ensures kids[o][n] in g
    ensures forall x | x in g && Below(g, rank, x, kids[o][n]) ::
              x !in Members(Children(g, kids, rank, top, o, n)) && Below(g, rank, x, o)
  {
    ChildDeeper(g, kids, rank, o, n);
    forall x | x in g && Below(g, rank, x, kids[o][n])
      ensures x !in Members(Children(g, kids, rank, top, o, n)) && Below(g, rank, x, o)
    {
      BelowTrans(g, rank, x, kids[o][n], o);
      ChildrenExact(g, kids, rank, top, o, n, x);
      if i :| 0 <= i < n && kids[o][i] in g && Below(g, rank, x, kids[o][i]) {
        SiblingsApart(g, kids, rank, o, i, n, x);
      }
    }
  }

  /** An object is not among its own descendants. */
  lemma OwnerUnfreed(g: Objects, kids: Kids, rank: map<Ref, nat>, top: nat, o: Ref, n: nat)
    requires Tree(g, kids, rank, top) && o in g && n <= |kids[o]|
    ensures o !in Members(Children(g, kids, rank, top, o, n))
  {
    ChildrenExact(g, kids, rank, top, o, n, o);
    if i :| 0 <= i < n && kids[o][i] in g && Below(g, rank, o, kids[o][i]) {
      ChildDeeper(g, kids, rank, o, i);
      BelowDeeper(g, rank, o, kids[o][i]);
    }
  }

  /** Taking c out of its parent's list leaves its subtree the same set. */
  lemma UnlinkKeepsSubtree(objs: Objects, objs': Objects, rank: map<Ref, nat>, c: Ref)
    requires Ranked(objs, rank) && Ranked(objs', rank) && c in objs && objs'.Keys == objs.Keys
    requires forall x | x in objs && x != c :: objs'[x].parent == objs[x].parent
    ensures forall x | x in objs :: Below(objs', rank, x, c) <==> Below(objs, rank, x, c)
  {
    forall x | x in objs ensures Below(objs', rank, x, c) <==> Below(objs, rank, x, c) {
      SameSubtree(objs, objs', rank, x, c);
    }
  }

  lemma {:induction false} SameSubtree(objs: Objects, objs': Objects, rank: map<Ref, nat>, x: Ref, c: Ref)
    requires Ranked(objs, rank) && Ranked(objs', rank) && c in objs && objs'.Keys == objs.Keys && x in objs
    requires forall y | y in objs && y != c :: objs'[y].parent == objs[y].parent
    ensures Below(objs', rank, x, c) <==> Below(objs, rank, x, c)
    decreases rank[x]
  {
    if x != c && objs[x].parent != 0 { SameSubtree(objs, objs', rank, objs[x].parent, c); }
  }

  /** Dropping the whole subtree of a detached object leaves a forest. */
  lemma PruneForest(objs: Objects, kids: Kids, rank: map<Ref, nat>, c: Ref, gone: set<Ref>)
    requires Forest(objs, kids) && Ranked(objs, rank) && c in objs && objs[c].parent == 0
    requires forall x :: x in gone <==> x in objs && Below(objs, rank, x, c)
    ensures Forest(objs - gone, kids - gone) && Ranked(objs - gone, rank - gone)
  {
    var objs', kids' := objs - gone, kids - gone;
    forall o | o in objs' ensures ChildList(objs', o, kids'[o]) {
      assert ChildList(objs, o, kids[o]);
    }
    forall x | x in objs' ensures Listed(objs', kids', x) {
      assert Listed(objs, kids, x);
    }
  }

  /** Bypassing child k and clearing its links takes it out. */
  lemma StoreLinksOut(objs: Objects, h: Ref, ks: seq<Ref>, k: nat)
    requires h in objs && k < |ks| && ChildList(objs, h, ks)
    ensures LinkTo(h, ks, k).o in objs && ks[k] in objs
    ensures var objs1 := Store(objs, LinkTo(h, ks, k), objs[ks[k]].next);
      objs1[ks[k] := objs1[ks[k]].(parent := 0, next := 0)] == LinkOut(objs, h, ks, k)
  {
    assert objs[ks[k]].next == At(ks, k + 1);
    var objs1 := Store(objs, LinkTo(h, ks, k), objs[ks[k]].next);
    assert objs1[ks[k] := objs1[ks[k]].(parent := 0, next := 0)].Keys == objs.Keys == LinkOut(objs, h, ks, k).Keys;
  }

  lemma CreateForest(objs: Objects, kids: Kids, r: Ref, pri: int)
    requires Forest(objs, kids) && r !in objs && r != 0
    ensures Forest(objs[r := CxObj(pri, false, 0, 0, 0)], kids[r := []])
  {
    var objs', kids' := objs[r := CxObj(pri, false, 0, 0, 0)], kids[r := []];
    forall o | o in objs' ensures ChildList(objs', o, kids'[o]) {
      if o != r { assert ChildList(objs, o, kids[o]); }
    }
    forall x | x in objs' ensures Listed(objs', kids', x) {
      if x != r { assert Listed(objs, kids, x); }
    }
  }

  /** Only links matter to the shape. */
  lemma SameLinksForest(objs: Objects, kids: Kids, objs': Objects)
    requires Forest(objs, kids) && objs'.Keys == objs.Keys
    requires forall o | o in objs :: objs'[o].parent == objs[o].parent && objs'[o].next == objs[o].next
                                     && objs'[o].children == objs[o].children
    ensures Forest(objs', kids)
  {
    forall o | o in objs' ensures ChildList(objs', o, kids[o]) {
      assert ChildList(objs, o, kids[o]);
    }
    forall x | x in objs' ensures Listed(objs', kids, x) {
      assert Listed(objs, kids, x);
    }
  }
}
