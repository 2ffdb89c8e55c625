/**
 The commodities object tree of src/croi/commodities/commodities_lib.c: objects linked by
 parent, next and children references, 0 being null.
 */
module CxTree {

  type Ref = nat

  /** The linkage part of struct CaraCxObj; nullAttach is its COERR_NULLATTACH error bit. */
  datatype CxObj = CxObj(pri: int, nullAttach: bool, parent: Ref, next: Ref, children: Ref)

  type Objects = map<Ref, CxObj>
  type Kids = map<Ref, seq<Ref>>

  function At(ks: seq<Ref>, i: nat): Ref { if i < |ks| then ks[i] else 0 }

  /** o's child list is ks: linked in order, each child naming o as its parent. */
  ghost predicate ChildList(objs: Objects, o: Ref, ks: seq<Ref>)
    requires o in objs
  {
    && objs[o].children == At(ks, 0)
    && (forall i | 0 <= i < |ks| :: ks[i] in objs && objs[ks[i]].parent == o)
    && (forall i, j | 0 <= i < |ks| && j == i + 1 :: objs[ks[i]].next == At(ks, j))
    && (forall i, j | 0 <= i < j < |ks| :: ks[i] != ks[j])
  }

  /** Parent and child links agree everywhere; detached objects have no sibling link. */
  ghost predicate Forest(objs: Objects, kids: Kids) {
    && 0 !in objs && kids.Keys == objs.Keys
    && (forall o {:trigger ChildList(objs, o, kids[o])} | o in objs :: ChildList(objs, o, kids[o]))
    && (forall c {:trigger Listed(objs, kids, c)} | c in objs :: Listed(objs, kids, c))
  }

  /** c is in its parent's child list, or detached without a sibling link. */
  ghost predicate Listed(objs: Objects, kids: Kids, c: Ref)
    requires c in objs
  {
    if objs[c].parent == 0 then objs[c].next == 0
    else objs[c].parent in objs && objs[c].parent in kids && c in kids[objs[c].parent]
  }

  /** Depths that grow from parent to child: there is no cycle. */
  ghost predicate Ranked(objs: Objects, rank: map<Ref, nat>) {
    rank.Keys == objs.Keys &&
    forall c | c in objs && objs[c].parent != 0 :: objs[c].parent in objs && rank[objs[c].parent] < rank[c]
  }

  ghost predicate Acyclic(objs: Objects) { exists rank: map<Ref, nat> :: Ranked(objs, rank) }

  /** o lies in the subtree of c. */
  ghost predicate Below(objs: Objects, rank: map<Ref, nat>, o: Ref, c: Ref)
    requires Ranked(objs, rank) && o in objs
    decreases rank[o]
  {
    o == c || (objs[o].parent != 0 && Below(objs, rank, objs[o].parent, c))
  }

  // ---- linking ------------------------------------------------------------------

  function Insert(ks: seq<Ref>, k: nat, c: Ref): (r: seq<Ref>)
    requires k <= |ks|
    ensures |r| == |ks| + 1
    ensures forall i | 0 <= i <= |ks| :: r[i] == if i < k then ks[i] else if i == k then c else ks[i - 1]
  {
    ks[..k] + [c] + ks[k..]
  }

  /** The objects after c is linked in at position k of h's children. */
  function LinkIn(objs: Objects, h: Ref, c: Ref, ks: seq<Ref>, k: nat): Objects
    requires k <= |ks|
  {
    map x | x in objs :: objs[x].(
      parent := if x == c then h else objs[x].parent,
      next := if x == c then At(ks, k) else if 0 < k && x == ks[k - 1] then c else objs[x].next,
      children := if k == 0 && x == h then c else objs[x].children)
  }

  /** Detached c may be linked under h. */
  ghost predicate CanLink(objs: Objects, kids: Kids, h: Ref, c: Ref, k: nat) {
    Forest(objs, kids) && h in objs && c in objs && c != h && objs[c].parent == 0 && k <= |kids[h]|
  }

  /** A child list holds only objects whose parent is its owner. */
  lemma ChildOf(objs: Objects, kids: Kids, o: Ref, x: Ref)
    requires Forest(objs, kids) && o in objs
    ensures x in kids[o] <==> x in objs && objs[x].parent == o
  {
    if x in kids[o] {
      assert ChildList(objs, o, kids[o]);
    } else if x in objs {
      assert Listed(objs, kids, x);
    }
  }

  lemma LinkInOwn(objs: Objects, h: Ref, c: Ref, ks: seq<Ref>, k: nat)
    requires h in objs && c in objs && c !in ks && k <= |ks| && ChildList(objs, h, ks)
    ensures ChildList(LinkIn(objs, h, c, ks, k), h, Insert(ks, k, c))
  {
    var objs', ks' := LinkIn(objs, h, c, ks, k), Insert(ks, k, c);
    forall i, j | 0 <= i < |ks'| && j == i + 1 ensures objs'[ks'[i]].next == At(ks', j) {
      if i < k {
        assert ks'[i] == ks[i] && objs[ks[i]].next == At(ks, j);
      } else if i > k {
        assert ks'[i] == ks[i - 1] && objs[ks[i - 1]].next == At(ks, i);
      }
    }
  }

  lemma LinkInOther(objs: Objects, kids: Kids, h: Ref, c: Ref, k: nat, o: Ref)
    requires CanLink(objs, kids, h, c, k) && o in objs && o != h
    ensures ChildList(LinkIn(objs, h, c, kids[h], k), o, kids[o])
  {
    var ks := kids[o];
    assert ChildList(objs, o, ks) && ChildList(objs, h, kids[h]);
    ChildOf(objs, kids, o, c);
    if 0 < k { ChildOf(objs, kids, o, kids[h][k - 1]); }
  }

  lemma LinkInLists(objs: Objects, kids: Kids, h: Ref, c: Ref, k: nat)
    requires CanLink(objs, kids, h, c, k)
    ensures forall o | o in objs :: ChildList(LinkIn(objs, h, c, kids[h], k), o, kids[h := Insert(kids[h], k, c)][o])
  {
    ChildOf(objs, kids, h, c);
    assert ChildList(objs, h, kids[h]);
    forall o | o in objs ensures ChildList(LinkIn(objs, h, c, kids[h], k), o, kids[h := Insert(kids[h], k, c)][o]) {
      if o == h { LinkInOwn(objs, h, c, kids[h], k); } else { LinkInOther(objs, kids, h, c, k, o); }
    }
  }

  lemma LinkInForest(objs: Objects, kids: Kids, h: Ref, c: Ref, k: nat)
    requires CanLink(objs, kids, h, c, k)
    ensures Forest(LinkIn(objs, h, c, kids[h], k), kids[h := Insert(kids[h], k, c)])
  {
    LinkInLists(objs, kids, h, c, k);
    LinkInAllListed(objs, kids, h, c, k);
  }

  lemma LinkInAllListed(objs: Objects, kids: Kids, h: Ref, c: Ref, k: nat)
    requires CanLink(objs, kids, h, c, k)
    ensures forall x | x in objs :: Listed(LinkIn(objs, h, c, kids[h], k), kids[h := Insert(kids[h], k, c)], x)
  {
    forall x | x in objs ensures Listed(LinkIn(objs, h, c, kids[h], k), kids[h := Insert(kids[h], k, c)], x) {
      LinkInListed(objs, kids, h, c, k, x);
    }
  }

  lemma LinkInListed(objs: Objects, kids: Kids, h: Ref, c: Ref, k: nat, x: Ref)
    requires CanLink(objs, kids, h, c, k) && x in objs
    ensures Listed(LinkIn(objs, h, c, kids[h], k), kids[h := Insert(kids[h], k, c)], x)
  {
    assert Listed(objs, kids, x);
    InsertMembers(kids[h], k, c, x);
    if 0 < k { ChildOf(objs, kids, h, kids[h][k - 1]); }
  }

  lemma InsertMembers(ks: seq<Ref>, k: nat, c: Ref, x: Ref)
    requires k <= |ks|
    ensures x in Insert(ks, k, c) <==> x in ks || x == c
  {
    assert ks == ks[..k] + ks[k..];
  }

  // ---- unlinking -----------------------------------------------------------------

  function Delete(ks: seq<Ref>, k: nat): (r: seq<Ref>)
    requires k < |ks|
    ensures |r| == |ks| - 1
    ensures forall i | 0 <= i < |r| :: r[i] == if i < k then ks[i] else ks[i + 1]
  {
    ks[..k] + ks[k + 1..]
  }

  /** The objects after the child at position k of h's children is taken out. */
  function LinkOut(objs: Objects, h: Ref, ks: seq<Ref>, k: nat): Objects
    requires k < |ks|
  {
    map x | x in objs :: objs[x].(
      parent := if x == ks[k] then 0 else objs[x].parent,
      next := if x == ks[k] then 0 else if 0 < k && x == ks[k - 1] then At(ks, k + 1) else objs[x].next,
      children := if k == 0 && x == h then At(ks, 1) else objs[x].children)
  }

  lemma LinkOutOwn(objs: Objects, h: Ref, ks: seq<Ref>, k: nat)
    requires h in objs && k < |ks| && ChildList(objs, h, ks)
    ensures ChildList(LinkOut(objs, h, ks, k), h, Delete(ks, k))
  {
    var objs', ks' := LinkOut(objs, h, ks, k), Delete(ks, k);
    forall i, j | 0 <= i < |ks'| && j == i + 1 ensures objs'[ks'[i]].next == At(ks', j) {
      if i < k {
        assert ks'[i] == ks[i] && objs[ks[i]].next == At(ks, j);
      } else {
        assert ks'[i] == ks[j] && objs[ks[j]].next == At(ks, j + 1);
      }
    }
  }

  lemma LinkOutOther(objs: Objects, kids: Kids, h: Ref, k: nat, o: Ref)
    requires Forest(objs, kids) && h in objs && k < |kids[h]| && o in objs && o != h
    ensures ChildList(LinkOut(objs, h, kids[h], k), o, kids[o])
  {
    assert ChildList(objs, o, kids[o]) && ChildList(objs, h, kids[h]);
    ChildOf(objs, kids, o, kids[h][k]);
    if 0 < k { ChildOf(objs, kids, o, kids[h][k - 1]); }
  }

  lemma LinkOutLists(objs: Objects, kids: Kids, h: Ref, k: nat)
    requires Forest(objs, kids) && h in objs && k < |kids[h]|
    ensures forall o | o in objs :: ChildList(LinkOut(objs, h, kids[h], k), o, kids[h := Delete(kids[h], k)][o])
  {
    assert ChildList(objs, h, kids[h]);
    forall o | o in objs ensures ChildList(LinkOut(objs, h, kids[h], k), o, kids[h := Delete(kids[h], k)][o]) {
      if o == h { LinkOutOwn(objs, h, kids[h], k); } else { LinkOutOther(objs, kids, h, k, o); }
    }
  }

  lemma LinkOutAllListed(objs: Objects, kids: Kids, h: Ref, k: nat)
    requires Forest(objs, kids) && h in objs && k < |kids[h]|
    ensures forall x | x in objs :: Listed(LinkOut(objs, h, kids[h], k), kids[h := Delete(kids[h], k)], x)
  {
    forall x | x in objs ensures Listed(LinkOut(objs, h, kids[h], k), kids[h := Delete(kids[h], k)], x) {
      LinkOutListed(objs, kids, h, k, x);
    }
  }

  lemma LinkOutForest(objs: Objects, kids: Kids, h: Ref, k: nat)
    requires Forest(objs, kids) && h in objs && k < |kids[h]|
    ensures Forest(LinkOut(objs, h, kids[h], k), kids[h := Delete(kids[h], k)])
  {
    LinkOutLists(objs, kids, h, k);
    LinkOutAllListed(objs, kids, h, k);
  }

  lemma LinkOutListed(objs: Objects, kids: Kids, h: Ref, k: nat, x: Ref)
    requires Forest(objs, kids) && h in objs && k < |kids[h]| && x in objs
    ensures Listed(LinkOut(objs, h, kids[h], k), kids[h := Delete(kids[h], k)], x)
  {
    assert Listed(objs, kids, x) && ChildList(objs, h, kids[h]);
    DeleteMembers(kids[h], k, x);
    ChildOf(objs, kids, h, x);
    if 0 < k { ChildOf(objs, kids, h, kids[h][k - 1]); }
  }

  lemma DeleteMembers(ks: seq<Ref>, k: nat, x: Ref)
    requires k < |ks| && forall i, j | 0 <= i < j < |ks| :: ks[i] != ks[j]
    ensures x in Delete(ks, k) <==> x in ks && x != ks[k]
  {
    if x in ks && x != ks[k] {
      var i :| 0 <= i < |ks| && ks[i] == x;
      assert Delete(ks, k)[if i < k then i else i - 1] == x;
    }
  }

  // ---- no cycles -------------------------------------------------------------------

  lemma {:induction false} AdoptedCycle(objs: Objects, rank: map<Ref, nat>, o: Ref, c: Ref, rank': map<Ref, nat>)
    requires Ranked(objs, rank) && o in objs && c in objs && objs[c].parent == 0
    requires Below(objs, rank, o, c)
    requires rank'.Keys == objs.Keys
    requires forall x | x in objs && objs[x].parent != 0 :: rank'[objs[x].parent] < rank'[x]
    ensures rank'[c] <= rank'[o]
    decreases rank[o]
  {
    if o != c { AdoptedCycle(objs, rank, objs[o].parent, c, rank'); }
  }

  /** The depths after detached c moves under h with its whole subtree. */
  ghost function Lift(objs: Objects, rank: map<Ref, nat>, h: Ref, c: Ref): map<Ref, nat>
    requires Ranked(objs, rank) && h in objs
  {
    map o | o in objs :: if Below(objs, rank, o, c) then rank[o] + rank[h] + 1 else rank[o]
  }

  lemma LinkInRanked(objs: Objects, kids: Kids, rank: map<Ref, nat>, h: Ref, c: Ref, k: nat)
    requires CanLink(objs, kids, h, c, k) && Ranked(objs, rank) && !Below(objs, rank, h, c)
    ensures Ranked(LinkIn(objs, h, c, kids[h], k), Lift(objs, rank, h, c))
  {}

  lemma LinkOutRanked(objs: Objects, kids: Kids, rank: map<Ref, nat>, h: Ref, k: nat)
    requires Forest(objs, kids) && Ranked(objs, rank) && h in objs && k < |kids[h]|
    ensures Ranked(LinkOut(objs, h, kids[h], k), rank)
  {}

  // ---- the subtree in the order it is freed ---------------------------------------------

  /** Depths never exceed top. */
  ghost predicate Bounded(rank: map<Ref, nat>, top: nat) { forall o | o in rank :: rank[o] <= top }

  ghost predicate Tree(objs: Objects, kids: Kids, rank: map<Ref, nat>, top: nat) {
    Forest(objs, kids) && Ranked(objs, rank) && Bounded(rank, top)
  }

  lemma ChildDeeper(objs: Objects, kids: Kids, rank: map<Ref, nat>, o: Ref, i: nat)
    requires Forest(objs, kids) && Ranked(objs, rank) && o in objs && i < |kids[o]|
    ensures kids[o][i] in objs && objs[kids[o][i]].parent == o && rank[o] < rank[kids[o][i]]
  {
    assert ChildList(objs, o, kids[o]);
  }

  /** The objects of o's subtree, each after its own subtree. */
  ghost function PostOrder(objs: Objects, kids: Kids, rank: map<Ref, nat>, top: nat, o: Ref): seq<Ref>
    requires Tree(objs, kids, rank, top) && o in objs
    decreases top - rank[o], |kids[o]| + 1
  {
    Children(objs, kids, rank, top, o, |kids[o]|) + [o]
  }

  /** The subtrees of the first n children of o. */
  ghost function Children(objs: Objects, kids: Kids, rank: map<Ref, nat>, top: nat, o: Ref, n: nat): seq<Ref>
    requires Tree(objs, kids, rank, top) && o in objs && n <= |kids[o]|
    decreases top - rank[o], n
  {
    if n == 0 then []
    else
      ChildDeeper(objs, kids, rank, o, n - 1);
      Children(objs, kids, rank, top, o, n - 1) + PostOrder(objs, kids, rank, top, kids[o][n - 1])
  }

  lemma {:induction false} BelowTrans(objs: Objects, rank: map<Ref, nat>, x: Ref, y: Ref, z: Ref)
    requires Ranked(objs, rank) && x in objs && y in objs && Below(objs, rank, x, y) && Below(objs, rank, y, z)
    ensures Below(objs, rank, x, z)
    decreases rank[x]
  {
    if x != y { BelowTrans(objs, rank, objs[x].parent, y, z); }
  }

  lemma {:induction false} BelowDeeper(objs: Objects, rank: map<Ref, nat>, x: Ref, c: Ref)
    requires Ranked(objs, rank) && x in objs && c in objs && Below(objs, rank, x, c)
    ensures rank[c] <= rank[x]
    decreases rank[x]
  {
    if x != c { BelowDeeper(objs, rank, objs[x].parent, c); }
  }

  /** Two ancestors of one object are comparable. */
  lemma {:induction false} BelowBoth(objs: Objects, rank: map<Ref, nat>, x: Ref, c: Ref, d: Ref)
    requires Ranked(objs, rank) && x in objs && Below(objs, rank, x, c) && Below(objs, rank, x, d)
    requires c in objs && d in objs
    ensures Below(objs, rank, c, d) || Below(objs, rank, d, c)
    decreases rank[x]
  {
    if x != c && x != d { BelowBoth(objs, rank, objs[x].parent, c, d); }
  }

  lemma {:induction false} BelowSplits(objs: Objects, kids: Kids, rank: map<Ref, nat>, x: Ref, o: Ref) returns (i: nat)
    requires Forest(objs, kids) && Ranked(objs, rank) && x in objs && o in objs && Below(objs, rank, x, o) && x != o
    ensures i < |kids[o]| && Below(objs, rank, x, kids[o][i])
    decreases rank[x]
  {
    if objs[x].parent == o {
      assert Listed(objs, kids, x);
      i :| 0 <= i < |kids[o]| && kids[o][i] == x;
    } else {
      i := BelowSplits(objs, kids, rank, objs[x].parent, o);
    }
  }

  /** Siblings have disjoint subtrees. */
  lemma SiblingsApart(objs: Objects, kids: Kids, rank: map<Ref, nat>, o: Ref, i: nat, j: nat, x: Ref)
    requires Forest(objs, kids) && Ranked(objs, rank) && o in objs && i < j < |kids[o]| && x in objs
    ensures kids[o][i] in objs && kids[o][j] in objs
    ensures !(Below(objs, rank, x, kids[o][i]) && Below(objs, rank, x, kids[o][j]))
  {
    assert ChildList(objs, o, kids[o]);
    var c, d := kids[o][i], kids[o][j];
    if Below(objs, rank, x, c) && Below(objs, rank, x, d) {
      BelowBoth(objs, rank, x, c, d);
      if Below(objs, rank, c, d) {
        BelowDeeper(objs, rank, o, d);
      } else {
        BelowDeeper(objs, rank, o, c);
      }
    }
  }

  ghost predicate Distinct(s: seq<Ref>) { forall i, j | 0 <= i < j < |s| :: s[i] != s[j] }

  lemma DistinctConcat(a: seq<Ref>, b: seq<Ref>)
    requires Distinct(a) && Distinct(b) && forall x | x in a :: x !in b
    ensures Distinct(a + b)
  {
    forall i, j | 0 <= i < j < |a + b| ensures (a + b)[i] != (a + b)[j] {
      if i < |a| <= j {
        assert a[i] in a && b[j - |a|] in b;
      }
    }
  }

  /** The freeing order lists exactly the subtree. */
  lemma {:induction false} PostOrderExact(objs: Objects, kids: Kids, rank: map<Ref, nat>, top: nat, o: Ref, x: Ref)
    requires Tree(objs, kids, rank, top) && o in objs
    ensures x in PostOrder(objs, kids, rank, top, o) <==> x in objs && Below(objs, rank, x, o)
    decreases top - rank[o], |kids[o]| + 1
  {
    ChildrenExact(objs, kids, rank, top, o, |kids[o]|, x);
    if x in objs && Below(objs, rank, x, o) && x != o {
      var i := BelowSplits(objs, kids, rank, x, o);
      ChildDeeper(objs, kids, rank, o, i);
    }
    if i :| 0 <= i < |kids[o]| && kids[o][i] in objs && x in objs && Below(objs, rank, x, kids[o][i]) {
      ChildDeeper(objs, kids, rank, o, i);
      BelowTrans(objs, rank, x, kids[o][i], o);
    }
  }

  lemma {:induction false} ChildrenExact(
      objs: Objects, kids: Kids, rank: map<Ref, nat>, top: nat, o: Ref, n: nat, x: Ref)
    requires Tree(objs, kids, rank, top) && o in objs && n <= |kids[o]|
    ensures x in Children(objs, kids, rank, top, o, n) <==>
            exists i :: 0 <= i < n && kids[o][i] in objs && x in objs && Below(objs, rank, x, kids[o][i])
    decreases top - rank[o], n
  {
    if n > 0 {
      ChildDeeper(objs, kids, rank, o, n - 1);
      ChildrenExact(objs, kids, rank, top, o, n - 1, x);
      PostOrderExact(objs, kids, rank, top, kids[o][n - 1], x);
    }
  }

  /** No object is listed twice. */
  lemma {:induction false} PostOrderDistinct(objs: Objects, kids: Kids, rank: map<Ref, nat>, top: nat, o: Ref)
    requires Tree(objs, kids, rank, top) && o in objs
    ensures Distinct(PostOrder(objs, kids, rank, top, o))
    decreases top - rank[o], |kids[o]| + 1
  {
    ChildrenDistinct(objs, kids, rank, top, o, |kids[o]|);
    ChildrenExact(objs, kids, rank, top, o, |kids[o]|, o);
    if i :| 0 <= i < |kids[o]| && kids[o][i] in objs && Below(objs, rank, o, kids[o][i]) {
      ChildDeeper(objs, kids, rank, o, i);
      BelowDeeper(objs, rank, o, kids[o][i]);
    }
  }

  lemma {:induction false} ChildrenDistinct(objs: Objects, kids: Kids, rank: map<Ref, nat>, top: nat, o: Ref, n: nat)
    requires Tree(objs, kids, rank, top) && o in objs && n <= |kids[o]|
    ensures Distinct(Children(objs, kids, rank, top, o, n))
    decreases top - rank[o], n
  {
    if n > 0 {
      ChildDeeper(objs, kids, rank, o, n - 1);
      var a, b := Children(objs, kids, rank, top, o, n - 1), PostOrder(objs, kids, rank, top, kids[o][n - 1]);
      ChildrenDistinct(objs, kids, rank, top, o, n - 1);
      PostOrderDistinct(objs, kids, rank, top, kids[o][n - 1]);
      forall x | x in a ensures x !in b {
        ChildrenExact(objs, kids, rank, top, o, n - 1, x);
        PostOrderExact(objs, kids, rank, top, kids[o][n - 1], x);
        var i :| 0 <= i < n - 1 && kids[o][i] in objs && x in objs && Below(objs, rank, x, kids[o][i]);
        SiblingsApart(objs, kids, rank, o, i, n - 1, x);
      }
      DistinctConcat(a, b);
    }
  }

  /** No object comes after its parent. */
  ghost predicate ParentsLast(objs: Objects, xs: seq<Ref>) {
    (forall i | 0 <= i < |xs| :: xs[i] in objs) && forall i, j | 0 <= j <= i < |xs| :: objs[xs[i]].parent != xs[j]
  }

  lemma ParentsLastConcat(objs: Objects, a: seq<Ref>, b: seq<Ref>)
    requires ParentsLast(objs, a) && ParentsLast(objs, b)
    requires forall x, y | x in b && y in a :: objs[x].parent != y
    ensures ParentsLast(objs, a + b)
  {
    forall i, j | 0 <= j <= i < |a + b| ensures objs[(a + b)[i]].parent != (a + b)[j] {
      if j < |a| <= i { assert b[i - |a|] in b && a[j] in a; }
    }
  }

  /** The subtree is freed from the leaves up: every object before its parent, o last of all. */
  lemma {:induction false} PostOrderParents(objs: Objects, kids: Kids, rank: map<Ref, nat>, top: nat, o: Ref)
    requires Tree(objs, kids, rank, top) && o in objs
    ensures ParentsLast(objs, PostOrder(objs, kids, rank, top, o))
    decreases top - rank[o], |kids[o]| + 1
  {
    var a := Children(objs, kids, rank, top, o, |kids[o]|);
    ChildrenParents(objs, kids, rank, top, o, |kids[o]|);
    forall y | y in a ensures objs[o].parent != y {
      ChildrenExact(objs, kids, rank, top, o, |kids[o]|, y);
      var i :| 0 <= i < |kids[o]| && kids[o][i] in objs && y in objs && Below(objs, rank, y, kids[o][i]);
      ChildDeeper(objs, kids, rank, o, i);
      BelowDeeper(objs, rank, y, kids[o][i]);
    }
    ParentsLastConcat(objs, a, [o]);
  }

  lemma {:induction false} ChildrenParents(objs: Objects, kids: Kids, rank: map<Ref, nat>, top: nat, o: Ref, n: nat)
    requires Tree(objs, kids, rank, top) && o in objs && n <= |kids[o]|
    ensures ParentsLast(objs, Children(objs, kids, rank, top, o, n))
    decreases top - rank[o], n
  {
    if n > 0 {
      ChildDeeper(objs, kids, rank, o, n - 1);
      var a, b := Children(objs, kids, rank, top, o, n - 1), PostOrder(objs, kids, rank, top, kids[o][n - 1]);
      ChildrenParents(objs, kids, rank, top, o, n - 1);
      PostOrderParents(objs, kids, rank, top, kids[o][n - 1]);
      forall x, y | x in b && y in a ensures objs[x].parent != y {
        SubtreesApart(objs, kids, rank, top, o, n - 1, x, y);
      }
      ParentsLastConcat(objs, a, b);
    }
  }

  /** The parent of an object of one child's subtree is not in an earlier child's. */
  lemma SubtreesApart(objs: Objects, kids: Kids, rank: map<Ref, nat>, top: nat, o: Ref, n: nat, x: Ref, y: Ref)
    requires Tree(objs, kids, rank, top) && o in objs && n < |kids[o]| && kids[o][n] in objs
    requires x in PostOrder(objs, kids, rank, top, kids[o][n]) && y in Children(objs, kids, rank, top, o, n)
    ensures x in objs && objs[x].parent != y
  {
    PostOrderExact(objs, kids, rank, top, kids[o][n], x);
    ChildrenExact(objs, kids, rank, top, o, n, y);
    var i :| 0 <= i < n && kids[o][i] in objs && y in objs && Below(objs, rank, y, kids[o][i]);
    SiblingsApart(objs, kids, rank, o, i, n, x);
  }
}
