/**
 The tailpred-sentinel list of include/cara/list.h, in word-addressed memory.

 A node at address n keeps its successor in word n and its predecessor in word n + 1. A header
 at l is the three words head, tail, tailpred, and is read as two overlapping nodes: one at l
 (successor head, predecessor tail) and one at l + 1 (successor tail, predecessor tailpred).
 Word l + 1, always null, is the predecessor of the first and the successor of the second.
 */
module MinList {

  const NULL: int := 0

  /** The two sentinel addresses around the nodes. */
  function Chain(l: int, nodes: seq<int>): seq<int> { [l] + nodes + [l + 1] }

  /** The nodes, two words each, and the header, three words, do not overlap. */
  ghost predicate Apart(size: nat, l: int, nodes: seq<int>) {
    && 0 < l && l + 3 <= size
    && (forall i | 0 <= i < |nodes| :: 0 < nodes[i] && nodes[i] + 2 <= size)
    && (forall i | 0 <= i < |nodes| :: nodes[i] + 2 <= l || l + 3 <= nodes[i])
    && (forall i, j | 0 <= i < j < |nodes| :: nodes[i] + 2 <= nodes[j] || nodes[j] + 2 <= nodes[i])
  }

  /** Forward and backward links agree along the chain, sentinels included. */
  ghost predicate Linked(m: seq<int>, c: seq<int>)
    requires forall i | 0 <= i < |c| :: 0 <= c[i] && c[i] + 1 < |m|
  {
    forall i | 0 <= i < |c| - 1 :: m[c[i]] == c[i + 1] && m[c[i + 1] + 1] == c[i]
  }

  /** Memory m holds a list with header l and these nodes. */
  ghost predicate IsList(m: seq<int>, l: int, nodes: seq<int>) {
    Apart(|m|, l, nodes) && m[l + 1] == NULL && Linked(m, Chain(l, nodes))
  }

  predicate InFootprint(a: int, l: int, nodes: seq<int>) {
    l <= a < l + 3 || exists i :: 0 <= i < |nodes| && nodes[i] <= a <= nodes[i] + 1
  }

  /** A list is untouched by writes outside its footprint. */
  lemma FrameList(m: seq<int>, m': seq<int>, l: int, nodes: seq<int>)
    requires IsList(m, l, nodes) && |m| == |m'|
    requires forall a | 0 <= a < |m| && InFootprint(a, l, nodes) :: m'[a] == m[a]
    ensures IsList(m', l, nodes)
  {
    var c := Chain(l, nodes);
    forall i | 0 <= i < |c| - 1 ensures m'[c[i]] == c[i + 1] && m'[c[i + 1] + 1] == c[i] {
      assert InFootprint(c[i], l, nodes);
      assert InFootprint(c[i + 1] + 1, l, nodes);
    }
    assert InFootprint(l + 1, l, nodes);
  }

  /** MinList_Init. */
  method Initialise(mem: array<int>, l: int)
    requires 0 < l && l + 3 <= mem.Length
    modifies mem
    ensures IsList(mem[..], l, [])
    ensures forall a | 0 <= a < mem.Length && !(l <= a < l + 3) :: mem[a] == old(mem[a])
  {
    mem[l] := l + 1;
    mem[l + 1] := NULL;
    mem[l + 2] := l;
  }

  /** MinList_IsEmpty. */
  method IsEmpty(mem: array<int>, l: int, ghost nodes: seq<int>) returns (empty: bool)
    requires IsList(mem[..], l, nodes)
    ensures empty <==> nodes == []
  {
    ghost var c := Chain(l, nodes);
    assert mem[..][c[|c| - 1] + 1] == c[|c| - 2];
    empty := mem[l + 2] == l;
  }

  /** Along a chain, no two positions share a word except the two sentinels, which overlap in
      the null word between them. */
  lemma ChainApart(size: nat, l: int, nodes: seq<int>, i: nat, j: nat)
    requires Apart(size, l, nodes) && i < j < |nodes| + 2
    ensures var c := Chain(l, nodes);
      if i == 0 && j == |nodes| + 1 then c[j] == c[i] + 1
      else c[i] + 2 <= c[j] || c[j] + 2 <= c[i]
    ensures 0 < i ==> Chain(l, nodes)[i] == nodes[i - 1]
    ensures 0 <= Chain(l, nodes)[j] && Chain(l, nodes)[j] + 1 < size
  {}

  /** Node n overlaps neither the header nor a node of the list. */
  ghost predicate Detached(size: nat, l: int, nodes: seq<int>, n: int) {
    && 0 < n && n + 2 <= size && (n + 2 <= l || l + 3 <= n)
    && (forall i | 0 <= i < |nodes| :: n + 2 <= nodes[i] || nodes[i] + 2 <= n)
  }

  function Insert(nodes: seq<int>, k: nat, n: int): seq<int>
    requires k <= |nodes|
  {
    nodes[..k] + [n] + nodes[k..]
  }

  function Delete(nodes: seq<int>, k: nat): seq<int>
    requires k < |nodes|
  {
    nodes[..k] + nodes[k + 1..]
  }

  /** The links at chain positions other than k are not among the words an insertion writes. */
  lemma InsertKeeps(m: seq<int>, l: int, nodes: seq<int>, n: int, k: nat, i: nat)
    requires IsList(m, l, nodes) && k <= |nodes| && i <= |nodes| && i != k && Detached(|m|, l, nodes, n)
    ensures var c := Chain(l, nodes);
      && c[i] !in {n, n + 1, c[k], c[k + 1] + 1} && c[i + 1] + 1 !in {n, n + 1, c[k], c[k + 1] + 1}
  {
    if i < k {
      ChainApart(|m|, l, nodes, i, k);
      ChainApart(|m|, l, nodes, i, k + 1);
      ChainApart(|m|, l, nodes, i + 1, k + 1);
      if i + 1 < k { ChainApart(|m|, l, nodes, i + 1, k); }
    } else {
      ChainApart(|m|, l, nodes, k, i);
      ChainApart(|m|, l, nodes, k, i + 1);
      ChainApart(|m|, l, nodes, k + 1, i + 1);
      if k + 1 < i { ChainApart(|m|, l, nodes, k + 1, i); }
    }
  }

  /** m' is m after linking n between chain positions k and k + 1. */
  ghost predicate LinkedIn(m: seq<int>, m': seq<int>, c: seq<int>, k: nat, n: int)
    requires k + 1 < |c|
  {
    && |m| == |m'| && 0 <= n && n + 1 < |m| && 0 <= c[k] < |m| && 0 <= c[k + 1] + 1 < |m|
    && m'[n + 1] == c[k] && m'[n] == c[k + 1] && m'[c[k + 1] + 1] == n && m'[c[k]] == n
    && forall a | 0 <= a < |m| && a !in {n, n + 1, c[k], c[k + 1] + 1} :: m'[a] == m[a]
  }

  lemma InsertLink(m: seq<int>, m': seq<int>, l: int, nodes: seq<int>, n: int, k: nat, i: nat)
    requires IsList(m, l, nodes) && k <= |nodes| && Detached(|m|, l, nodes, n) && i <= |nodes| + 1
    requires LinkedIn(m, m', Chain(l, nodes), k, n)
    ensures var c' := Chain(l, Insert(nodes, k, n));
      && 0 <= c'[i] < |m| && 0 <= c'[i + 1] + 1 < |m|
      && m'[c'[i]] == c'[i + 1] && m'[c'[i + 1] + 1] == c'[i]
  {
    ChainInsert(l, nodes, n, k, i);
    ChainInsert(l, nodes, n, k, i + 1);
    if i < k {
      InsertKeeps(m, l, nodes, n, k, i);
      ChainApart(|m|, l, nodes, i, i + 1);
    } else if i > k + 1 {
      InsertKeeps(m, l, nodes, n, k, i - 1);
      ChainApart(|m|, l, nodes, i - 1, i);
    }
  }

  lemma ChainInsert(l: int, nodes: seq<int>, n: int, k: nat, i: nat)
    requires k <= |nodes| && i <= |nodes| + 2
    ensures Chain(l, Insert(nodes, k, n))[i]
         == if i <= k then Chain(l, nodes)[i] else if i == k + 1 then n else Chain(l, nodes)[i - 1]
  {}

  lemma InsertApart(size: nat, l: int, nodes: seq<int>, n: int, k: nat)
    requires Apart(size, l, nodes) && k <= |nodes| && Detached(size, l, nodes, n)
    ensures Apart(size, l, Insert(nodes, k, n))
  {}

  /** The null word is none of the words a link between chain positions uses. */
  lemma NullWordKept(size: nat, l: int, nodes: seq<int>, i: nat)
    requires Apart(size, l, nodes) && i <= |nodes|
    ensures Chain(l, nodes)[i] != l + 1 && Chain(l, nodes)[i + 1] + 1 != l + 1
  {}

  /** Linking n between chain positions k and k + 1 inserts it there. */
  lemma LinkedInsert(m: seq<int>, m': seq<int>, l: int, nodes: seq<int>, n: int, k: nat)
    requires IsList(m, l, nodes) && k <= |nodes| && Detached(|m|, l, nodes, n)
    requires LinkedIn(m, m', Chain(l, nodes), k, n)
    ensures IsList(m', l, Insert(nodes, k, n))
  {
    InsertApart(|m|, l, nodes, n, k);
    NullWordKept(|m|, l, nodes, k);
    forall i | 0 <= i <= |nodes| + 1
      ensures var c' := Chain(l, Insert(nodes, k, n));
        && 0 <= c'[i] < |m| && 0 <= c'[i + 1] + 1 < |m|
        && m'[c'[i]] == c'[i + 1] && m'[c'[i + 1] + 1] == c'[i]
    {
      InsertLink(m, m', l, nodes, n, k, i);
    }
  }

  /** m' is m after node nodes[k] is bypassed and its links cleared. */
  ghost predicate LinkedOut(m: seq<int>, m': seq<int>, c: seq<int>, k: nat)
    requires k + 2 < |c|
  {
    && |m| == |m'| && 0 <= c[k] < |m| && 0 <= c[k + 2] + 1 < |m|
    && m'[c[k]] == c[k + 2] && m'[c[k + 2] + 1] == c[k]
    && forall a | 0 <= a < |m| && a !in {c[k], c[k + 2] + 1, c[k + 1], c[k + 1] + 1} :: m'[a] == m[a]
  }

  lemma ChainDelete(l: int, nodes: seq<int>, k: nat, i: nat)
    requires k < |nodes| && i <= |nodes|
    ensures Chain(l, Delete(nodes, k))[i] == if i <= k then Chain(l, nodes)[i] else Chain(l, nodes)[i + 1]
  {}

  lemma DeleteKeeps(m: seq<int>, l: int, nodes: seq<int>, k: nat, i: nat)
    requires IsList(m, l, nodes) && k < |nodes| && i <= |nodes| && i != k && i != k + 1
    ensures var c := Chain(l, nodes);
      && c[i] !in {c[k], c[k + 2] + 1, c[k + 1], c[k + 1] + 1}
      && c[i + 1] + 1 !in {c[k], c[k + 2] + 1, c[k + 1], c[k + 1] + 1}
  {
    if i < k {
      ChainApart(|m|, l, nodes, i, k);
      ChainApart(|m|, l, nodes, i, k + 1);
      ChainApart(|m|, l, nodes, i, k + 2);
      ChainApart(|m|, l, nodes, i + 1, k + 1);
      ChainApart(|m|, l, nodes, i + 1, k + 2);
      if i + 1 < k { ChainApart(|m|, l, nodes, i + 1, k); }
    } else {
      ChainApart(|m|, l, nodes, k, i);
      ChainApart(|m|, l, nodes, k, i + 1);
      ChainApart(|m|, l, nodes, k + 1, i);
      ChainApart(|m|, l, nodes, k + 1, i + 1);
      ChainApart(|m|, l, nodes, k + 2, i + 1);
      if k + 2 < i { ChainApart(|m|, l, nodes, k + 2, i); }
    }
  }

  lemma DeleteLink(m: seq<int>, m': seq<int>, l: int, nodes: seq<int>, k: nat, i: nat)
    requires IsList(m, l, nodes) && k < |nodes| && i < |nodes|
    requires LinkedOut(m, m', Chain(l, nodes), k)
    ensures var c' := Chain(l, Delete(nodes, k));
      && 0 <= c'[i] < |m| && 0 <= c'[i + 1] + 1 < |m|
      && m'[c'[i]] == c'[i + 1] && m'[c'[i + 1] + 1] == c'[i]
  {
    ChainDelete(l, nodes, k, i);
    ChainDelete(l, nodes, k, i + 1);
    if i < k {
      DeleteKeeps(m, l, nodes, k, i);
      ChainApart(|m|, l, nodes, i, i + 1);
    } else if i > k {
      DeleteKeeps(m, l, nodes, k, i + 1);
      ChainApart(|m|, l, nodes, i + 1, i + 2);
    }
  }

  /** Bypassing a node removes it, at either end as in the middle. */
  lemma LinkedDelete(m: seq<int>, m': seq<int>, l: int, nodes: seq<int>, k: nat)
    requires IsList(m, l, nodes) && k < |nodes| && LinkedOut(m, m', Chain(l, nodes), k)
    ensures IsList(m', l, Delete(nodes, k))
  {
    NullWordKept(|m|, l, nodes, k);
    NullWordKept(|m|, l, nodes, k + 1);
    forall i | 0 <= i < |nodes|
      ensures var c' := Chain(l, Delete(nodes, k));
        && 0 <= c'[i] < |m| && 0 <= c'[i + 1] + 1 < |m|
        && m'[c'[i]] == c'[i + 1] && m'[c'[i + 1] + 1] == c'[i]
    {
      DeleteLink(m, m', l, nodes, k, i);
    }
  }

  // ---- the operations ---------------------------------------------------------------

  /** The links of a list at chain position i. */
  lemma LinkAt(m: seq<int>, l: int, nodes: seq<int>, i: nat)
    requires IsList(m, l, nodes) && i <= |nodes|
    ensures var c := Chain(l, nodes);
      && 0 <= c[i] < |m| && 0 <= c[i + 1] + 1 < |m|
      && m[c[i]] == c[i + 1] && m[c[i + 1] + 1] == c[i]
  {
    ChainApart(|m|, l, nodes, i, i + 1);
  }

  /** MinList_AddHead. */
  method AddHead(mem: array<int>, l: int, n: int, ghost nodes: seq<int>)
    requires IsList(mem[..], l, nodes) && Detached(mem.Length, l, nodes, n)
    modifies mem
    ensures IsList(mem[..], l, [n] + nodes)
    ensures forall a | 0 <= a < mem.Length && !InFootprint(a, l, [n] + nodes) :: mem[a] == old(mem[a])
  {
    ghost var m := mem[..];
    LinkAt(m, l, nodes, 0);
    InsertKeepsOwn(m, l, nodes, n, 0);
    mem[n + 1] := l;
    mem[n] := mem[l];
    mem[mem[l] + 1] := n;
    mem[l] := n;
    LinkedInsert(m, mem[..], l, nodes, n, 0);
    assert Insert(nodes, 0, n) == [n] + nodes;
    InsertFootprint(l, nodes, n, 0);
  }

  /** MinList_AddTail. */
  method AddTail(mem: array<int>, l: int, n: int, ghost nodes: seq<int>)
    requires IsList(mem[..], l, nodes) && Detached(mem.Length, l, nodes, n)
    modifies mem
    ensures IsList(mem[..], l, nodes + [n])
    ensures forall a | 0 <= a < mem.Length && !InFootprint(a, l, nodes + [n]) :: mem[a] == old(mem[a])
  {
    ghost var m := mem[..];
    LinkAt(m, l, nodes, |nodes|);
    InsertKeepsOwn(m, l, nodes, n, |nodes|);
    mem[n] := l + 1;
    mem[n + 1] := mem[l + 2];
    mem[mem[l + 2]] := n;
    mem[l + 2] := n;
    LinkedInsert(m, mem[..], l, nodes, n, |nodes|);
    assert Insert(nodes, |nodes|, n) == nodes + [n];
    InsertFootprint(l, nodes, n, |nodes|);
  }

  /** The four words an insertion writes are four different words. */
  lemma InsertKeepsOwn(m: seq<int>, l: int, nodes: seq<int>, n: int, k: nat)
    requires IsList(m, l, nodes) && k <= |nodes| && Detached(|m|, l, nodes, n)
    ensures var c := Chain(l, nodes);
      c[k] !in {n, n + 1, c[k + 1] + 1} && c[k + 1] + 1 !in {n, n + 1}
  {
    ChainApart(|m|, l, nodes, k, k + 1);
  }

  lemma InsertFootprint(l: int, nodes: seq<int>, n: int, k: nat)
    requires k <= |nodes|
    ensures var c := Chain(l, nodes); var nodes' := Insert(nodes, k, n);
      forall a | a in {n, n + 1, c[k], c[k + 1] + 1} :: InFootprint(a, l, nodes')
  {
    var c, nodes' := Chain(l, nodes), Insert(nodes, k, n);
    assert nodes'[k] == n;
    assert k > 0 ==> nodes'[k - 1] == c[k];
    assert k < |nodes| ==> nodes'[k + 1] == c[k + 1];
  }

  /** MinList_Remove: the node alone, wherever it stands. */
  method Remove(mem: array<int>, n: int, ghost l: int, ghost nodes: seq<int>, ghost k: nat)
    requires IsList(mem[..], l, nodes) && k < |nodes| && nodes[k] == n
    modifies mem
    ensures IsList(mem[..], l, Delete(nodes, k)) && mem[n] == NULL && mem[n + 1] == NULL
    ensures forall a | 0 <= a < mem.Length && !InFootprint(a, l, nodes) :: mem[a] == old(mem[a])
  {
    ghost var m := mem[..];
    LinkAt(m, l, nodes, k);
    LinkAt(m, l, nodes, k + 1);
    DeleteKeepsOwn(m, l, nodes, k);
    mem[mem[n + 1]] := mem[n];
    mem[mem[n] + 1] := mem[n + 1];
    mem[n] := NULL;
    mem[n + 1] := NULL;
    LinkedDelete(m, mem[..], l, nodes, k);
    DeleteFootprint(l, nodes, k);
  }

  lemma DeleteKeepsOwn(m: seq<int>, l: int, nodes: seq<int>, k: nat)
    requires IsList(m, l, nodes) && k < |nodes|
    ensures var c := Chain(l, nodes);
      && c[k] !in {c[k + 1], c[k + 1] + 1, c[k + 2] + 1} && c[k + 2] + 1 !in {c[k + 1], c[k + 1] + 1}
  {
    ChainApart(|m|, l, nodes, k, k + 1);
    ChainApart(|m|, l, nodes, k, k + 2);
    ChainApart(|m|, l, nodes, k + 1, k + 2);
  }

  lemma DeleteFootprint(l: int, nodes: seq<int>, k: nat)
    requires k < |nodes|
    ensures var c := Chain(l, nodes);
      forall a | a in {c[k], c[k + 1], c[k + 1] + 1, c[k + 2] + 1} :: InFootprint(a, l, nodes)
  {
    var c := Chain(l, nodes);
    assert nodes[k] == c[k + 1];
    assert k > 0 ==> nodes[k - 1] == c[k];
    assert k + 1 < |nodes| ==> nodes[k + 1] == c[k + 2];
  }

  /** MinList_RemHead. */
  method RemHead(mem: array<int>, l: int, ghost nodes: seq<int>) returns (n: int)
    requires IsList(mem[..], l, nodes)
    modifies mem
    ensures if nodes == [] then n == NULL && mem[..] == old(mem[..])
            else n == nodes[0] && IsList(mem[..], l, nodes[1..])
    ensures forall a | 0 <= a < mem.Length && !InFootprint(a, l, nodes) :: mem[a] == old(mem[a])
  {
    var empty := IsEmpty(mem, l, nodes);
    if empty {
      return NULL;
    }
    LinkAt(mem[..], l, nodes, 0);
    n := mem[l];
    Remove(mem, n, l, nodes, 0);
    assert Delete(nodes, 0) == nodes[1..];
  }

  /** MinList_RemTail. */
  method RemTail(mem: array<int>, l: int, ghost nodes: seq<int>) returns (n: int)
    requires IsList(mem[..], l, nodes)
    modifies mem
    ensures if nodes == [] then n == NULL && mem[..] == old(mem[..])
            else n == nodes[|nodes| - 1] && IsList(mem[..], l, nodes[..|nodes| - 1])
    ensures forall a | 0 <= a < mem.Length && !InFootprint(a, l, nodes) :: mem[a] == old(mem[a])
  {
    var empty := IsEmpty(mem, l, nodes);
    if empty {
      return NULL;
    }
    LinkAt(mem[..], l, nodes, |nodes|);
    n := mem[l + 2];
    Remove(mem, n, l, nodes, |nodes| - 1);
    assert Delete(nodes, |nodes| - 1) == nodes[..|nodes| - 1];
  }

  /** MinList_ForEach: the walk visits the nodes in order and stops at the tail sentinel. */
  method Walk(mem: array<int>, l: int, ghost nodes: seq<int>) returns (visited: seq<int>)
    requires IsList(mem[..], l, nodes)
    ensures visited == nodes
  {
    ghost var m, c := mem[..], Chain(l, nodes);
    visited := [];
    LinkAt(m, l, nodes, 0);
    var n := mem[l];
    while mem[n] != NULL
      invariant |visited| <= |nodes| && visited == nodes[..|visited|] && n == c[|visited| + 1]
      invariant 0 <= n < mem.Length
      decreases |nodes| - |visited|
    {
      visited := visited + [n];
      LinkAt(m, l, nodes, |visited|);
      n := mem[n];
    }
    if |visited| < |nodes| {
      LinkAt(m, l, nodes, |visited| + 1);
    }
  }

  /** The links determine the sequence. */
  lemma RepresentsOne(m: seq<int>, l: int, a: seq<int>, b: seq<int>)
    requires IsList(m, l, a) && IsList(m, l, b)
    ensures a == b
  {
    PrefixAgrees(m, l, a, b, if |a| < |b| then |a| else |b|);
    if |a| < |b| {
      LinkAt(m, l, a, |a|);
      LinkAt(m, l, b, |a|);
    } else if |b| < |a| {
      LinkAt(m, l, a, |b|);
      LinkAt(m, l, b, |b|);
    }
  }

  lemma {:induction false} PrefixAgrees(m: seq<int>, l: int, a: seq<int>, b: seq<int>, k: nat)
    requires IsList(m, l, a) && IsList(m, l, b) && k <= |a| && k <= |b|
    ensures a[..k] == b[..k] && Chain(l, a)[k] == Chain(l, b)[k]
  {
    if k > 0 {
      PrefixAgrees(m, l, a, b, k - 1);
      LinkAt(m, l, a, k - 1);
      LinkAt(m, l, b, k - 1);
      assert a[..k] == a[..k - 1] + [a[k - 1]] && b[..k] == b[..k - 1] + [b[k - 1]];
    }
  }

  // ---- runs of operations --------------------------------------------------------------

  datatype Op = PushHead(n: int) | PushTail(n: int) | Unlink(n: int) | PopHead | PopTail

  function Position(nodes: seq<int>, n: int): (k: nat)
    requires n in nodes
    ensures k < |nodes| && nodes[k] == n
  {
    if nodes[0] == n then 0 else 1 + Position(nodes[1..], n)
  }

  /** What an operation does to the sequence. */
  function After(nodes: seq<int>, op: Op): seq<int> {
    match op
    case PushHead(n) => [n] + nodes
    case PushTail(n) => nodes + [n]
    case Unlink(n) => if n in nodes then Delete(nodes, Position(nodes, n)) else nodes
    case PopHead => if nodes == [] then [] else nodes[1..]
    case PopTail => if nodes == [] then [] else nodes[..|nodes| - 1]
  }

  /** Only detached nodes are added, only linked ones removed. */
  ghost predicate Legal(size: nat, l: int, nodes: seq<int>, op: Op) {
    match op
    case PushHead(n) => Detached(size, l, nodes, n)
    case PushTail(n) => Detached(size, l, nodes, n)
    case Unlink(n) => n in nodes
    case _ => true
  }

  ghost predicate LegalRun(size: nat, l: int, nodes: seq<int>, ops: seq<Op>)
    decreases |ops|
  {
    ops == [] || (Legal(size, l, nodes, ops[0]) && LegalRun(size, l, After(nodes, ops[0]), ops[1..]))
  }

  function AfterRun(nodes: seq<int>, ops: seq<Op>): seq<int>
    decreases |ops|
  {
    if ops == [] then nodes else AfterRun(After(nodes, ops[0]), ops[1..])
  }

  /** Every legal run of operations leaves the memory representing the sequence it computes. */
  method Perform(mem: array<int>, l: int, ops: seq<Op>, ghost nodes: seq<int>)
    requires IsList(mem[..], l, nodes) && LegalRun(mem.Length, l, nodes, ops)
    modifies mem
    ensures IsList(mem[..], l, AfterRun(nodes, ops))
  {
    ghost var now := nodes;
    for i := 0 to |ops|
      invariant IsList(mem[..], l, now) && LegalRun(mem.Length, l, now, ops[i..])
      invariant AfterRun(now, ops[i..]) == AfterRun(nodes, ops)
    {
      assert ops[i..][0] == ops[i] && ops[i..][1..] == ops[i + 1..];
      match ops[i] {
        case PushHead(n) => AddHead(mem, l, n, now);
        case PushTail(n) => AddTail(mem, l, n, now);
        case Unlink(n) => Remove(mem, n, l, now, Position(now, n));
        case PopHead => var _ := RemHead(mem, l, now);
        case PopTail => var _ := RemTail(mem, l, now);
      }
      now := After(now, ops[i]);
    }
  }

  // ---- two lists in one memory -----------------------------------------------------------

  ghost predicate Disjoint(l: int, a: seq<int>, k: int, b: seq<int>) {
    forall x :: !(InFootprint(x, l, a) && InFootprint(x, k, b))
  }

  /** The first node of one list goes to the end of another; neither list disturbs the other, and
      they are disjoint again. */
  method Transfer(mem: array<int>, l: int, k: int, ghost a: seq<int>, ghost b: seq<int>) returns (n: int)
    requires IsList(mem[..], l, a) && IsList(mem[..], k, b) && Disjoint(l, a, k, b)
    modifies mem
    ensures n == if a == [] then NULL else a[0]
    ensures a == [] ==> mem[..] == old(mem[..])
    ensures a != [] ==> var a', b' := a[1..], b + [a[0]];
      IsList(mem[..], l, a') && IsList(mem[..], k, b') && Disjoint(l, a', k, b')
  {
    ghost var m := mem[..];
    n := RemHead(mem, l, a);
    if n == NULL {
      return;
    }
    FrameList(m, mem[..], k, b);
    ghost var m1 := mem[..];
    MovedNode(|m|, l, a, k, b);
    AddTail(mem, k, n, b);
    FrameList(m1, mem[..], l, a[1..]);
  }

  /** The node moved is apart from the list it joins, and from what is left of its own. */
  lemma MovedNode(size: nat, l: int, a: seq<int>, k: int, b: seq<int>)
    requires a != [] && Apart(size, l, a) && Apart(size, k, b) && Disjoint(l, a, k, b)
    ensures Detached(size, k, b, a[0]) && Disjoint(l, a[1..], k, b + [a[0]])
  {
    var n, b' := a[0], b + [a[0]];
    assert InFootprint(n, l, a) && InFootprint(n + 1, l, a);
    assert !InFootprint(n, k, b) && !InFootprint(n + 1, k, b);
    forall i | 0 <= i < |b| ensures n + 2 <= b[i] || b[i] + 2 <= n { assert !(b[i] <= n <= b[i] + 1); }
    forall x ensures !(InFootprint(x, l, a[1..]) && InFootprint(x, k, b')) {
      if InFootprint(x, l, a[1..]) {
        RestInFootprint(size, l, a, x);
        assert forall i | 0 <= i < |b'| :: i == |b| || b'[i] == b[i];
      }
    }
  }

  lemma RestInFootprint(size: nat, l: int, a: seq<int>, x: int)
    requires a != [] && Apart(size, l, a) && InFootprint(x, l, a[1..])
    ensures InFootprint(x, l, a) && !(a[0] <= x <= a[0] + 1)
  {
    if !(l <= x < l + 3) {
      var i :| 0 <= i < |a[1..]| && a[1..][i] <= x <= a[1..][i] + 1;
      assert a[i + 1] <= x <= a[i + 1] + 1;
    }
  }
}
