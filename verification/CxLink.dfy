/**
 Links as the commodities code writes them: a pointer to a link is followed, and an object is
 linked by storing two fields of its own and one link that is to lead to it. Doing so keeps the
 forest exactly when the object was detached, its new parent lies outside its subtree, and the
 link written is one of that parent's list.
 */
module CxLink {
  import opened CxTree

  /** A pointer to a link: `&h->children` or `&o->next`. */
  datatype Link = ChildrenOf(o: Ref) | NextOf(o: Ref)

  function Load(objs: Objects, pp: Link): Ref
    requires pp.o in objs
  {
    if pp.ChildrenOf? then objs[pp.o].children else objs[pp.o].next
  }

  function Store(objs: Objects, pp: Link, v: Ref): Objects
    requires pp.o in objs
  {
    objs[pp.o := if pp.ChildrenOf? then objs[pp.o].(children := v) else objs[pp.o].(next := v)]
  }

  /** The link that leads to position k of h's child list. */
  function LinkTo(h: Ref, ks: seq<Ref>, k: nat): Link
    requires k <= |ks|
  {
    if k == 0 then ChildrenOf(h) else NextOf(ks[k - 1])
  }

  lemma LoadLinkTo(objs: Objects, h: Ref, ks: seq<Ref>, k: nat)
    requires h in objs && ChildList(objs, h, ks) && k <= |ks|
    ensures LinkTo(h, ks, k).o in objs && Load(objs, LinkTo(h, ks, k)) == At(ks, k)
    ensures k < |ks| ==> At(ks, k) == ks[k] && ks[k] in objs
  {
    if k > 0 { assert objs[ks[k - 1]].next == At(ks, k); }
  }

  /** c given the parent h and the sibling v, and then the link pp to it. */
  function RawLink(objs: Objects, h: Ref, c: Ref, v: Ref, pp: Link): Objects
    requires c in objs && pp.o in objs
  {
    Store(objs[c := objs[c].(parent := h, next := v)], pp, c)
  }

  /** There is a forest without cycles that these links describe. */
  ghost predicate Sound(objs: Objects) { exists kids: Kids :: Forest(objs, kids) && Acyclic(objs) }

  // ---- one link to each object ------------------------------------------------------------

  /** The link of a forest that leads to c. */
  lemma OnlyLink(objs: Objects, kids: Kids, pp: Link, c: Ref) returns (k: nat)
    requires Forest(objs, kids) && pp.o in objs && c != 0 && Load(objs, pp) == c
    ensures c in objs && objs[c].parent in kids && k < |kids[objs[c].parent]| && kids[objs[c].parent][k] == c
    ensures pp == LinkTo(objs[c].parent, kids[objs[c].parent], k)
  {
    assert ChildList(objs, pp.o, kids[pp.o]);
    if pp.ChildrenOf? {
      k := 0;
    } else {
      assert Listed(objs, kids, pp.o);
      var q := objs[pp.o].parent;
      var ks := kids[q];
      assert ChildList(objs, q, ks);
      var i :| 0 <= i < |ks| && ks[i] == pp.o;
      k := i + 1;
      assert objs[ks[i]].next == At(ks, k);
    }
  }

  /** No two links of a forest lead to the same object. */
  lemma OneLink(objs: Objects, kids: Kids, pp: Link, qq: Link, c: Ref)
    requires Forest(objs, kids) && pp.o in objs && qq.o in objs && c != 0
    requires Load(objs, pp) == c && Load(objs, qq) == c
    ensures pp == qq
  {
    var j := OnlyLink(objs, kids, pp, c);
    var k := OnlyLink(objs, kids, qq, c);
    assert ChildList(objs, objs[c].parent, kids[objs[c].parent]);
  }

  /** An object linked already cannot be linked again: two links would lead to it. */
  lemma LinkedTwice(objs: Objects, kids: Kids, h: Ref, c: Ref, v: Ref, pp: Link, was: Link, kids': Kids)
    requires Forest(objs, kids) && c in objs && pp.o in objs && was.o in objs && Load(objs, was) == c
    requires pp == was ==> v == c
    ensures !Forest(RawLink(objs, h, c, v, pp), kids')
  {
    var objs' := RawLink(objs, h, c, v, pp);
    if Forest(objs', kids') {
      var k := OnlyLink(objs, kids, was, c);
      assert ChildList(objs, objs[c].parent, kids[objs[c].parent]);
      assert was != NextOf(c);
      OneLink(objs', kids', pp, if pp == was then NextOf(c) else was, c);
    }
  }

  /** A link of another list, or of a detached object, cannot take the new child. */
  lemma StrangerLink(objs: Objects, kids: Kids, h: Ref, c: Ref, v: Ref, p: Ref, kids': Kids)
    requires Forest(objs, kids) && h in objs && c in objs && p in objs && objs[p].parent != h && objs[c].parent == 0
    ensures !Forest(RawLink(objs, h, c, v, NextOf(p)), kids')
  {
    var objs' := RawLink(objs, h, c, v, NextOf(p));
    if Forest(objs', kids') {
      var k := OnlyLink(objs', kids', NextOf(p), c);
      Neighbours(objs', kids', h, k);
    }
  }

  lemma Neighbours(objs: Objects, kids: Kids, h: Ref, k: nat)
    requires Forest(objs, kids) && h in objs && 0 < k < |kids[h]|
    ensures kids[h][k - 1] in objs && objs[kids[h][k - 1]].parent == h && kids[h][k - 1] != kids[h][k]
  {
    assert ChildList(objs, h, kids[h]);
  }

  /** A parent in the child's own subtree closes a cycle. */
  lemma OwnSubtree(objs: Objects, rank: map<Ref, nat>, h: Ref, c: Ref, v: Ref, pp: Link)
    requires Ranked(objs, rank) && h in objs && c in objs && objs[c].parent == 0 && pp.o in objs && 0 !in objs
    requires Below(objs, rank, h, c)
    ensures !Acyclic(RawLink(objs, h, c, v, pp))
  {
    var objs' := RawLink(objs, h, c, v, pp);
    if Acyclic(objs') {
      var rank' :| Ranked(objs', rank');
      forall x | x in objs && objs[x].parent != 0
        ensures rank'[objs[x].parent] < rank'[x]
      {
        assert objs'[x].parent == objs[x].parent;
      }
      AdoptedCycle(objs, rank, h, c, rank');
    }
  }

  // ---- when linking keeps the forest -----------------------------------------------------------

  /** Two live objects, the child detached and the parent outside its subtree. */
  ghost predicate Linkable(objs: Objects, rank: map<Ref, nat>, h: Ref, c: Ref)
    requires Ranked(objs, rank)
  {
    h in objs && c in objs && objs[c].parent == 0 && !Below(objs, rank, h, c)
  }

  /** Linking at position k of h's own list. */
  lemma LinkedSound(objs: Objects, kids: Kids, rank: map<Ref, nat>, h: Ref, c: Ref, k: nat)
    requires Forest(objs, kids) && Ranked(objs, rank) && Linkable(objs, rank, h, c) && k <= |kids[h]|
    ensures LinkTo(h, kids[h], k).o in objs
    ensures RawLink(objs, h, c, At(kids[h], k), LinkTo(h, kids[h], k)) == LinkIn(objs, h, c, kids[h], k)
    ensures Sound(LinkIn(objs, h, c, kids[h], k))
  {
    assert ChildList(objs, h, kids[h]);
    ChildOf(objs, kids, h, c);
    StoreLinksIn(objs, h, c, kids[h], k);
    LinkInForest(objs, kids, h, c, k);
    LinkInRanked(objs, kids, rank, h, c, k);
  }

  /** Writing c's links and then the link to position k links c in. */
  lemma StoreLinksIn(objs: Objects, h: Ref, c: Ref, ks: seq<Ref>, k: nat)
    requires h in objs && c in objs && c != h && c !in ks && k <= |ks| && ChildList(objs, h, ks)
    ensures LinkTo(h, ks, k).o in objs && LinkTo(h, ks, k).o != c
    ensures RawLink(objs, h, c, At(ks, k), LinkTo(h, ks, k)) == LinkIn(objs, h, c, ks, k)
  {
    assert RawLink(objs, h, c, At(ks, k), LinkTo(h, ks, k)).Keys == objs.Keys == LinkIn(objs, h, c, ks, k).Keys;
  }

  lemma LinkOf(objs: Objects, kids: Kids, c: Ref) returns (was: Link)
    requires Forest(objs, kids) && c in objs && objs[c].parent != 0
    ensures was.o in objs && Load(objs, was) == c
  {
    assert Listed(objs, kids, c);
    var ks := kids[objs[c].parent];
    assert ChildList(objs, objs[c].parent, ks);
    var k :| 0 <= k < |ks| && ks[k] == c;
    LoadLinkTo(objs, objs[c].parent, ks, k);
    was := LinkTo(objs[c].parent, ks, k);
  }

  /** A linked object, or a parent in its subtree: whatever link is written, the forest is lost. */
  lemma NotLinkable(objs: Objects, kids: Kids, rank: map<Ref, nat>, h: Ref, c: Ref, v: Ref, pp: Link)
    requires Forest(objs, kids) && Ranked(objs, rank) && h in objs && c in objs && pp.o in objs
    requires !Linkable(objs, rank, h, c) && (Load(objs, pp) == c ==> v == c)
    ensures !Sound(RawLink(objs, h, c, v, pp))
  {
    if objs[c].parent != 0 {
      var was := LinkOf(objs, kids, c);
      forall kids': Kids
        ensures !Forest(RawLink(objs, h, c, v, pp), kids')
      {
        LinkedTwice(objs, kids, h, c, v, pp, was, kids');
      }
    } else {
      OwnSubtree(objs, rank, h, c, v, pp);
    }
  }

  /** EnqueueCxObj, and InsertCxObj in front or behind a child of h: linking at a position. */
  lemma LinkExactly(objs: Objects, kids: Kids, rank: map<Ref, nat>, h: Ref, c: Ref, k: nat)
    requires Forest(objs, kids) && Ranked(objs, rank) && h in objs && c in objs && k <= |kids[h]|
    ensures LinkTo(h, kids[h], k).o in objs
    ensures Sound(RawLink(objs, h, c, At(kids[h], k), LinkTo(h, kids[h], k))) <==> Linkable(objs, rank, h, c)
  {
    assert ChildList(objs, h, kids[h]);
    LoadLinkTo(objs, h, kids[h], k);
    if Linkable(objs, rank, h, c) {
      LinkedSound(objs, kids, rank, h, c, k);
    } else {
      NotLinkable(objs, kids, rank, h, c, At(kids[h], k), LinkTo(h, kids[h], k));
    }
  }

  /** The link InsertCxObj writes. */
  function Behind(h: Ref, pred: Ref): Link { if pred == 0 then ChildrenOf(h) else NextOf(pred) }

  lemma BehindChild(objs: Objects, kids: Kids, h: Ref, pred: Ref) returns (k: nat)
    requires Forest(objs, kids) && h in objs && (pred == 0 || (pred in objs && objs[pred].parent == h))
    ensures k <= |kids[h]| && Behind(h, pred) == LinkTo(h, kids[h], k) && Load(objs, Behind(h, pred)) == At(kids[h], k)
    ensures if pred == 0 then k == 0 else 0 < k && kids[h][k - 1] == pred
  {
    assert ChildList(objs, h, kids[h]);
    k := 0;
    if pred != 0 {
      ChildOf(objs, kids, h, pred);
      var j :| 0 <= j < |kids[h]| && kids[h][j] == pred;
      k := j + 1;
    }
    LoadLinkTo(objs, h, kids[h], k);
  }

  /** InsertCxObj behind any object: it must be a child of h as well. */
  lemma InsertExactly(objs: Objects, kids: Kids, rank: map<Ref, nat>, h: Ref, c: Ref, pred: Ref)
    requires Forest(objs, kids) && Ranked(objs, rank) && h in objs && c in objs && (pred == 0 || pred in objs)
    ensures Sound(RawLink(objs, h, c, Load(objs, Behind(h, pred)), Behind(h, pred))) <==>
            Linkable(objs, rank, h, c) && (pred == 0 || objs[pred].parent == h)
  {
    var pp := Behind(h, pred);
    if pred == 0 || objs[pred].parent == h {
      var k := BehindChild(objs, kids, h, pred);
      LinkExactly(objs, kids, rank, h, c, k);
    } else if Linkable(objs, rank, h, c) {
      forall kids': Kids
        ensures !Forest(RawLink(objs, h, c, Load(objs, pp), pp), kids')
      {
        StrangerLink(objs, kids, h, c, Load(objs, pp), pred, kids');
      }
    } else {
      NotLinkable(objs, kids, rank, h, c, Load(objs, pp), pp);
    }
  }

  /** What AttachCxObj's walk sees of h's list once c's own sibling link is cleared. */
  ghost function Walked(ks: seq<Ref>, c: Ref): (r: seq<Ref>)
    ensures r <= ks && (if c in ks then r != [] && r[|r| - 1] == c else r == ks)
    ensures forall i | 0 <= i < |r| - 1 :: r[i] != c
  {
    if ks == [] then [] else if ks[0] == c then [c] else [ks[0]] + Walked(ks[1..], c)
  }

  lemma WalkStep(objs: Objects, h: Ref, ks: seq<Ref>, c: Ref, i: nat)
    requires h in objs && ChildList(objs, h, ks) && 0 !in objs && ks != [] && i < |Walked(ks, c)|
    ensures var t, n := Walked(ks, c)[i], At(Walked(ks, c), i + 1);
      t in objs && n == (if t == c then 0 else objs[t].next) && (i + 1 < |Walked(ks, c)| ==> n != 0)
  {
    assert objs[ks[i]].next == At(ks, i + 1);
  }

  /** The link AttachCxObj writes: the last its walk reaches. */
  ghost function LastLink(h: Ref, ks: seq<Ref>, c: Ref): Link { LinkTo(h, Walked(ks, c), |Walked(ks, c)|) }

  lemma AttachExactly(objs: Objects, kids: Kids, rank: map<Ref, nat>, h: Ref, c: Ref)
    requires Forest(objs, kids) && Ranked(objs, rank) && h in objs && c in objs
    ensures LastLink(h, kids[h], c).o in objs
    ensures Sound(RawLink(objs, h, c, 0, LastLink(h, kids[h], c))) <==> Linkable(objs, rank, h, c)
  {
    var ks := kids[h];
    assert ChildList(objs, h, ks);
    ChildOf(objs, kids, h, c);
    LoadLinkTo(objs, h, ks, |Walked(ks, c)|);
    if c !in ks {
      LinkExactly(objs, kids, rank, h, c, |ks|);
    } else {
      assert objs[c].next != c by { NextOther(objs, ks, c, h); }
      NotLinkable(objs, kids, rank, h, c, 0, LastLink(h, ks, c));
    }
  }

  lemma NextOther(objs: Objects, ks: seq<Ref>, c: Ref, h: Ref)
    requires h in objs && ChildList(objs, h, ks) && c in ks && c != 0
    ensures c in objs && objs[c].next != c
  {
    var k :| 0 <= k < |ks| && ks[k] == c;
    assert objs[ks[k]].next == At(ks, k + 1);
  }

  /** Two objects, the second the first's child: attaching the first to the second closes a cycle. */
  lemma CycleMade()
    ensures var objs: Objects := map[1 := CxObj(0, false, 0, 0, 2), 2 := CxObj(0, false, 1, 0, 0)];
      Sound(objs) && !Sound(RawLink(objs, 2, 1, 0, ChildrenOf(2)))
  {
    var objs: Objects := map[1 := CxObj(0, false, 0, 0, 2), 2 := CxObj(0, false, 1, 0, 0)];
    var kids: Kids := map[1 := [2], 2 := []];
    var rank := map[1 := 0, 2 := 1];
    assert Forest(objs, kids) && Ranked(objs, rank);
    assert Below(objs, rank, 2, 1);
    AttachExactly(objs, kids, rank, 2, 1);
  }
}
