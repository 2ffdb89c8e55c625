/**
 The single-producer single-consumer ring of include/cara/ring.h.

 Every atomic load or store and every slot copy is a step of its own, and a
 schedule interleaves the producer, the consumer and a third party that only
 calls Ring_Count. Steps are sequentially consistent.
 */
module Ring {
  import opened Options
  import opened Arithmetic

  datatype Slot = Slot(kind: u32, length: u32, payload: u64, reserved: u64)

  // ---- the code as a machine -------------------------------------------

  /** Where the producer stands inside Ring_Enqueue or Ring_Count, with its locals. */
  datatype Producer =
    | PIdle
    | PGotHead(v: Slot, head: u32)
    | PGotTail(v: Slot, head: u32, tail: u32)
    | PWrote(v: Slot, head: u32, tail: u32)
    | PCounting(head: u32)

  /** Where the consumer stands inside Ring_Dequeue or Ring_Count. */
  datatype Consumer =
    | CIdle
    | CGotTail(tail: u32)
    | CGotHead(tail: u32, head: u32)
    | CGotSlot(tail: u32, out: Slot)
    | CCounting(head: u32)

  datatype Observer = OIdle | OCounting(head: u32)

  datatype Machine = Machine(
    capacity: u32, mask: u32, head: u32, tail: u32, slots: seq<Slot>,
    prod: Producer, cons: Consumer, obs: Observer)
  {
    predicate WellFormed() { 0 < capacity && mask == capacity - 1 && |slots| == capacity }
  }

  datatype Event =
    | PLoadHead(v: Slot) | PLoadTail | PWriteSlot | PStoreHead | PCountHead | PCountTail
    | CLoadTail | CLoadHead | CReadSlot | CStoreTail | CCountHead | CCountTail
    | OCountHead | OCountTail

  function Sub32(a: u32, b: u32): u32 { (a - b) % TWO32 }
  function Succ32(a: u32): u32 { (a + 1) % TWO32 }

  /** One step of the code; an event whose thread is elsewhere does nothing. */
  function Next(m: Machine, e: Event): (r: Machine)
    requires m.WellFormed()
    ensures r.WellFormed()
  {
    match (e, m.prod, m.cons, m.obs)
    case (PLoadHead(v), PIdle, _, _) => m.(prod := PGotHead(v, m.head))
    case (PLoadTail, PGotHead(v, h), _, _) =>
      m.(prod := if Sub32(h, m.tail) >= m.capacity then PIdle else PGotTail(v, h, m.tail))
    case (PWriteSlot, PGotTail(v, h, t), _, _) =>
      m.(slots := m.slots[And(h, m.mask) := v], prod := PWrote(v, h, t))
    case (PStoreHead, PWrote(_, h, _), _, _) => m.(head := Succ32(h), prod := PIdle)
    case (PCountHead, PIdle, _, _) => m.(prod := PCounting(m.head))
    case (PCountTail, PCounting(_), _, _) => m.(prod := PIdle)
    case (CLoadTail, _, CIdle, _) => m.(cons := CGotTail(m.tail))
    case (CLoadHead, _, CGotTail(t), _) =>
      m.(cons := if m.head == t then CIdle else CGotHead(t, m.head))
    case (CReadSlot, _, CGotHead(t, _), _) => m.(cons := CGotSlot(t, m.slots[And(t, m.mask)]))
    case (CStoreTail, _, CGotSlot(t, _), _) => m.(tail := Succ32(t), cons := CIdle)
    case (CCountHead, _, CIdle, _) => m.(cons := CCounting(m.head))
    case (CCountTail, _, CCounting(_), _) => m.(cons := CIdle)
    case (OCountHead, _, _, OIdle) => m.(obs := OCounting(m.head))
    case (OCountTail, _, _, OCounting(_)) => m.(obs := OIdle)
    case _ => m
  }

  /** What Ring_Enqueue reports through signal_needed_out when it publishes. */
  predicate SignalNeeded(p: Producer)
    requires p.PWrote?
  {
    p.head == p.tail
  }

  // ---- histories beside the machine --------------------------------------

  /** Unbounded counters: |published| and |consumed|, with the snapshots the threads took. */
  datatype State = State(m: Machine, published: seq<Slot>, consumed: seq<Slot>,
                         tailSeen: nat, headSeen: nat, observed: nat)
  {
    function Occupancy(): int { |published| - |consumed| }
    predicate Empty() { Occupancy() == 0 }

    /** The occupied slots from the oldest element on, read through the slot array. */
    function Live(): seq<Slot>
      requires m.WellFormed() && 0 <= Occupancy()
    {
      seq(Occupancy(), i requires 0 <= i => m.slots[(|consumed| + i) % m.capacity])
    }
  }

  function Step(s: State, e: Event): (r: State)
    requires s.m.WellFormed()
    ensures r.m.WellFormed()
  {
    var n := s.(m := Next(s.m, e));
    match (e, s.m.prod, s.m.cons)
    case (PLoadTail, PGotHead(_, _), _) => n.(tailSeen := |s.consumed|)
    case (PStoreHead, PWrote(v, _, _), _) => n.(published := s.published + [v])
    case (CLoadHead, _, CGotTail(_)) => n.(headSeen := |s.published|)
    case (CCountHead, _, CIdle) => n.(headSeen := |s.published|)
    case (CStoreTail, _, CGotSlot(_, out)) => n.(consumed := s.consumed + [out])
    case (OCountHead, _, _) => if s.m.obs.OIdle? then n.(observed := |s.published|) else n
    case _ => n
  }

  function Run(s: State, es: seq<Event>): (r: State)
    requires s.m.WellFormed()
    ensures r.m.WellFormed()
    decreases |es|
  {
    if es == [] then s else Run(Step(s, es[0]), es[1..])
  }

  lemma {:induction false} RunConcat(s: State, a: seq<Event>, b: seq<Event>)
    requires s.m.WellFormed()
    ensures Run(s, a + b) == Run(Run(s, a), b)
    decreases |a|
  {
    if a == [] {
      assert a + b == b;
    } else {
      RunConcat(Step(s, a[0]), a[1..], b);
      assert (a + b)[1..] == a[1..] + b;
    }
  }

  // ---- Ring_Init ------------------------------------------------------------

  /** Ring_Init: the slot array is the caller's and keeps whatever it held. */
  function Init(capacity: u32, slots: seq<Slot>): (r: Option<State>)
    requires |slots| == capacity
    ensures r.Some? ==> r.value.m.WellFormed()
  {
    if capacity == 0 || And(capacity, capacity - 1) != 0 then None
    else Some(State(Machine(capacity, capacity - 1, 0, 0, slots, PIdle, CIdle, OIdle), [], [], 0, 0, 0))
  }

  lemma InitAcceptsPowersOfTwo(capacity: u32, slots: seq<Slot>)
    requires |slots| == capacity
    ensures Init(capacity, slots).Some? <==> IsPow2(capacity)
  {
    if capacity == 0 {
      forall k: nat ensures capacity != Pow2(k) {}
    } else {
      AndPredecessor(capacity);
    }
  }

  lemma CapacityDividesTwo32(capacity: u32) returns (k: nat)
    requires IsPow2(capacity)
    ensures capacity == Pow2(k) && k < 32 && capacity * Pow2(32 - k) == TWO32
  {
    k :| capacity == Pow2(k);
    Pow2Of32();
    Pow2Increasing(32, k);
    Pow2Add(k, 32 - k);
  }

  lemma Pow2Increasing(a: nat, b: nat)
    ensures a <= b ==> Pow2(a) <= Pow2(b)
  {
    if a < b { Pow2Increasing(a, b - 1); }
  }

  lemma Pow2Of32()
    ensures Pow2(32) == TWO32
  {
    assert Pow2(4) == 16;
    Pow2Add(4, 4);
    Pow2Add(8, 8);
    Pow2Add(16, 16);
  }

  /** The masked 32-bit index and the unbounded index modulo capacity name one slot. */
  lemma SlotIndex(capacity: u32, n: nat)
    requires IsPow2(capacity)
    ensures And(n % TWO32, capacity - 1) == n % capacity
  {
    var k := CapacityDividesTwo32(capacity);
    AndMask(n % TWO32, k);
    ModOfMod(n, capacity, Pow2(32 - k));
  }

  // ---- the invariant ----------------------------------------------------------

  ghost predicate Core(s: State) {
    var H, T := |s.published|, |s.consumed|;
    && s.m.WellFormed() && IsPow2(s.m.capacity)
    && T <= H <= T + s.m.capacity
    && s.consumed == s.published[..T]
    && s.m.head == H % TWO32 && s.m.tail == T % TWO32
    && (forall i | T <= i < H :: s.m.slots[i % s.m.capacity] == s.published[i])
  }

  ghost predicate ProducerInv(s: State) {
    var H, T := |s.published|, |s.consumed|;
    match s.m.prod
    case PIdle => true
    case PGotHead(_, h) => h == s.m.head
    case PGotTail(_, h, t) => ProducerRoom(s, h, t)
    case PWrote(v, h, t) =>
      ProducerRoom(s, h, t) && 0 < s.m.capacity == |s.m.slots| && s.m.slots[H % s.m.capacity] == v
    case PCounting(h) => h == s.m.head
  }

  ghost predicate ProducerRoom(s: State, h: u32, t: u32) {
    h == s.m.head && t == s.tailSeen % TWO32 &&
    s.tailSeen <= |s.consumed| && |s.published| - s.tailSeen < s.m.capacity
  }

  ghost predicate ConsumerInv(s: State) {
    var H, T := |s.published|, |s.consumed|;
    match s.m.cons
    case CIdle => true
    case CGotTail(t) => t == s.m.tail
    case CGotHead(t, h) => t == s.m.tail && h == s.headSeen % TWO32 && T < s.headSeen <= H
    case CGotSlot(t, out) => t == s.m.tail && T < H && out == s.published[T]
    case CCounting(h) => h == s.headSeen % TWO32 && T <= s.headSeen <= H
  }

  ghost predicate ObserverInv(s: State) {
    s.m.obs.OCounting? ==> s.m.obs.head == s.observed % TWO32 && s.observed <= |s.published|
  }

  ghost predicate Inv(s: State) { Core(s) && ProducerInv(s) && ConsumerInv(s) && ObserverInv(s) }

  lemma InitInv(capacity: u32, slots: seq<Slot>)
    requires |slots| == capacity && Init(capacity, slots).Some?
    ensures Inv(Init(capacity, slots).value)
  {
    InitAcceptsPowersOfTwo(capacity, slots);
  }

  /** The slot the producer is about to fill, or has filled, holds no live element. */
  lemma WriteMissesLiveSlots(s: State, i: nat)
    requires Inv(s) && (s.m.prod.PGotTail? || s.m.prod.PWrote?)
    requires |s.consumed| <= i < |s.published|
    ensures i % s.m.capacity != And(s.m.prod.head, s.m.mask) == |s.published| % s.m.capacity
  {
    ResiduesDistinct(i, |s.published|, s.m.capacity);
    SlotIndex(s.m.capacity, |s.published|);
  }

  lemma ProducerLoadsTail(s: State)
    requires Inv(s) && s.m.prod.PGotHead?
    ensures Sub32(s.m.head, s.m.tail) == s.Occupancy()
  {
    WrappedDifference(|s.published|, |s.consumed|, TWO32);
  }

  lemma LoadTailInv(s: State)
    requires Inv(s)
    ensures Inv(Step(s, PLoadTail))
  {
    if s.m.prod.PGotHead? { ProducerLoadsTail(s); }
  }

  lemma WriteSlotInv(s: State)
    requires Inv(s)
    ensures Inv(Step(s, PWriteSlot))
  {
    if s.m.prod.PGotTail? {
      SlotIndex(s.m.capacity, |s.published|);
      forall i | |s.consumed| <= i < |s.published|
        ensures i % s.m.capacity != |s.published| % s.m.capacity
      {
        WriteMissesLiveSlots(s, i);
      }
    }
  }

  lemma StoreHeadInv(s: State)
    requires Inv(s)
    ensures Inv(Step(s, PStoreHead))
  {
    if s.m.prod.PWrote? { StoreHeadCore(s); }
  }

  lemma StoreHeadCore(s: State)
    requires Inv(s) && s.m.prod.PWrote?
    ensures Core(Step(s, PStoreHead))
  {
    var H, T, r := |s.published|, |s.consumed|, Step(s, PStoreHead);
    WrappedSuccessor(H, TWO32);
    assert r.published[..T] == s.published[..T];
    forall i | T <= i < H + 1
      ensures r.m.slots[i % s.m.capacity] == r.published[i]
    {
      if i < H { assert s.m.slots[i % s.m.capacity] == s.published[i]; }
    }
  }

  lemma LoadHeadInv(s: State)
    requires Inv(s)
    ensures Inv(Step(s, CLoadHead))
  {
    if s.m.cons.CGotTail? && !s.Empty() { WrappedDifference(|s.published|, |s.consumed|, TWO32); }
  }

  lemma ReadSlotInv(s: State)
    requires Inv(s)
    ensures Inv(Step(s, CReadSlot))
  {
    if s.m.cons.CGotHead? { SlotIndex(s.m.capacity, |s.consumed|); }
  }

  lemma StoreTailInv(s: State)
    requires Inv(s)
    ensures Inv(Step(s, CStoreTail))
  {
    if s.m.cons.CGotSlot? {
      var T := |s.consumed|;
      WrappedSuccessor(T, TWO32);
      assert s.published[..T + 1] == s.published[..T] + [s.published[T]];
    }
  }

  lemma SnapshotInv(s: State, e: Event)
    requires Inv(s)
    requires || e.PLoadHead? || e.PCountHead? || e.PCountTail? || e.CLoadTail? || e.CCountHead? || e.CCountTail?
             || e.OCountHead? || e.OCountTail?
    ensures Inv(Step(s, e))
  {}

  lemma StepInv(s: State, e: Event)
    requires Inv(s)
    ensures Inv(Step(s, e))
  {
    match e
    case PLoadTail => LoadTailInv(s);
    case PWriteSlot => WriteSlotInv(s);
    case PStoreHead => StoreHeadInv(s);
    case CLoadHead => LoadHeadInv(s);
    case CReadSlot => ReadSlotInv(s);
    case CStoreTail => StoreTailInv(s);
    case _ => SnapshotInv(s, e);
  }

  lemma {:induction false} RunInv(s: State, es: seq<Event>)
    requires Inv(s)
    ensures Inv(Run(s, es))
    decreases |es|
  {
    if es != [] {
      StepInv(s, es[0]);
      RunInv(Step(s, es[0]), es[1..]);
    }
  }

  // ---- calls that run undisturbed ---------------------------------------------------------

  /** An enqueue with nobody else about. */
  lemma EnqueueAlone(s: State, v: Slot)
    requires Inv(s) && s.m.prod.PIdle?
    ensures var a := Step(Step(s, PLoadHead(v)), PLoadTail);
      var r := Step(Step(a, PWriteSlot), PStoreHead);
      && Inv(a) && Inv(r)
      && (Sub32(s.m.head, s.m.tail) >= s.m.capacity <==> s.Occupancy() == s.m.capacity)
      && (s.m.head == s.m.tail <==> s.Empty())
      && (s.Occupancy() == s.m.capacity ==> a.m == s.m && a.published == s.published && a.consumed == s.consumed)
      && (s.Occupancy() < s.m.capacity ==>
            && r.m == s.m.(slots := s.m.slots[And(s.m.head, s.m.mask) := v], head := Succ32(s.m.head))
            && r.published == s.published + [v] && r.consumed == s.consumed)
  {
    ByCounters(s);
    RoomAlone(s, v);
    var a := Step(Step(s, PLoadHead(v)), PLoadTail);
    if a.m.prod.PGotTail? { PutAlone(a); } else { StepInv(a, PWriteSlot); }
  }

  lemma ByCounters(s: State)
    requires Inv(s)
    ensures s.m.head == s.m.tail <==> s.Empty()
    ensures Sub32(s.m.head, s.m.tail) >= s.m.capacity <==> s.Occupancy() == s.m.capacity
  {
    WrappedDifference(|s.published|, |s.consumed|, TWO32);
  }

  lemma RoomAlone(s: State, v: Slot)
    requires Inv(s) && s.m.prod.PIdle?
    ensures var a := Step(Step(s, PLoadHead(v)), PLoadTail);
      && Inv(a) && a.published == s.published && a.consumed == s.consumed
      && a.m == s.m.(prod := if s.Occupancy() == s.m.capacity then PIdle else PGotTail(v, s.m.head, s.m.tail))
  {
    StepInv(s, PLoadHead(v));
    ByCounters(s);
    StepInv(Step(s, PLoadHead(v)), PLoadTail);
  }

  lemma PutAlone(a: State)
    requires Inv(a) && a.m.prod.PGotTail?
    ensures var r := Step(Step(a, PWriteSlot), PStoreHead);
      && Inv(r) && r.published == a.published + [a.m.prod.v] && r.consumed == a.consumed
      && r.m == a.m.(slots := a.m.slots[And(a.m.head, a.m.mask) := a.m.prod.v], head := Succ32(a.m.head), prod := PIdle)
  {
    StepInv(a, PWriteSlot);
    StepInv(Step(a, PWriteSlot), PStoreHead);
  }

  lemma LoadsAlone(s: State)
    requires Inv(s) && s.m.cons.CIdle?
    ensures var a := Step(Step(s, CLoadTail), CLoadHead);
      && Inv(a) && a.published == s.published && a.consumed == s.consumed
      && a.m == s.m.(cons := if s.Empty() then CIdle else CGotHead(s.m.tail, s.m.head))
  {
    StepInv(s, CLoadTail);
    ByCounters(s);
    StepInv(Step(s, CLoadTail), CLoadHead);
  }

  lemma TakesAlone(a: State)
    requires Inv(a) && a.m.cons.CGotHead?
    ensures var r := Step(Step(a, CReadSlot), CStoreTail);
      && Inv(r) && r.published == a.published && r.m == a.m.(tail := Succ32(a.m.tail), cons := CIdle)
      && |a.consumed| < |a.published| && a.m.slots[And(a.m.tail, a.m.mask)] == a.published[|a.consumed|]
      && r.consumed == a.consumed + [a.published[|a.consumed|]]
  {
    StepInv(a, CReadSlot);
    StepInv(Step(a, CReadSlot), CStoreTail);
    SlotIndex(a.m.capacity, |a.consumed|);
  }

  /** A dequeue with nobody else about. */
  lemma DequeueAlone(s: State)
    requires Inv(s) && s.m.cons.CIdle?
    ensures var a := Step(Step(s, CLoadTail), CLoadHead);
      var r := Step(Step(a, CReadSlot), CStoreTail);
      && Inv(a) && Inv(r) && (s.m.head == s.m.tail <==> s.Empty())
      && (s.Empty() ==> a.m == s.m && a.published == s.published && a.consumed == s.consumed)
      && (!s.Empty() ==>
            && r.m == s.m.(tail := Succ32(s.m.tail)) && r.published == s.published
            && |s.consumed| < |s.published| && s.m.slots[And(s.m.tail, s.m.mask)] == s.published[|s.consumed|]
            && r.consumed == s.consumed + [s.published[|s.consumed|]])
  {
    LoadsAlone(s);
    ByCounters(s);
    var a := Step(Step(s, CLoadTail), CLoadHead);
    if s.Empty() {
      StepInv(a, CReadSlot);
      StepInv(Step(a, CReadSlot), CStoreTail);
    } else {
      TakesAlone(a);
    }
  }

  // ---- the theorems -------------------------------------------------------------

  /** A state some schedule reaches from a freshly initialised ring. */
  ghost predicate Reachable(s: State) {
    exists capacity: u32, slots: seq<Slot>, es: seq<Event> ::
      |slots| == capacity && Init(capacity, slots).Some? && s == Run(Init(capacity, slots).value, es)
  }

  lemma ReachableInv(s: State)
    requires Reachable(s)
    ensures Inv(s)
  {
    var capacity: u32, slots: seq<Slot>, es: seq<Event> :|
      |slots| == capacity && Init(capacity, slots).Some? && s == Run(Init(capacity, slots).value, es);
    InitInv(capacity, slots);
    RunInv(Init(capacity, slots).value, es);
  }

  /** Nothing is lost, duplicated or reordered, whatever the schedule and however often
      the 32-bit counters wrapped. */
  lemma Fifo(s: State)
    requires Reachable(s)
    ensures s.m.WellFormed() && 0 <= s.Occupancy() <= s.m.capacity
    ensures s.published == s.consumed + s.Live()
    ensures s.m.head == |s.published| % TWO32 && s.m.tail == |s.consumed| % TWO32
  {
    ReachableInv(s);
  }

  /** The producer's slot is neither live nor the one the consumer copies out. */
  lemma SlotExclusion(s: State)
    requires Reachable(s) && s.m.prod.PGotTail? && s.m.WellFormed()
    ensures forall i | |s.consumed| <= i < |s.published| :: i % s.m.capacity != And(s.m.prod.head, s.m.mask)
    ensures s.m.cons.CGotHead? ==> And(s.m.cons.tail, s.m.mask) != And(s.m.prod.head, s.m.mask)
  {
    ReachableInv(s);
    forall i | |s.consumed| <= i < |s.published|
      ensures i % s.m.capacity != And(s.m.prod.head, s.m.mask)
    {
      WriteMissesLiveSlots(s, i);
    }
    if s.m.cons.CGotHead? {
      SlotIndex(s.m.capacity, |s.consumed|);
      WriteMissesLiveSlots(s, |s.consumed|);
    }
  }

  /** Ring_Enqueue refuses exactly when the ring is full at its tail load, and
      Ring_Dequeue exactly when the ring is empty at its head load. */
  lemma RefusalsAreExact(s: State)
    requires Reachable(s) && s.m.WellFormed()
    ensures s.m.prod.PGotHead? ==>
              (Step(s, PLoadTail).m.prod.PIdle? <==> s.Occupancy() == s.m.capacity)
    ensures s.m.cons.CGotTail? ==>
              (Step(s, CLoadHead).m.cons.CIdle? <==> s.Empty())
  {
    ReachableInv(s);
    if s.m.prod.PGotHead? { ProducerLoadsTail(s); }
    if s.m.cons.CGotTail? {
      WrappedDifference(|s.published|, |s.consumed|, TWO32);
    }
  }

  /** Ring_Count never leaves 0..capacity when an endpoint calls it; the producer's answer
      is the occupancy at its tail load, the consumer's the occupancy at its head load
      less nothing: no dequeue can complete in between. */
  lemma EndpointCount(s: State)
    requires Reachable(s) && s.m.WellFormed()
    ensures s.m.prod.PCounting? ==> Sub32(s.m.prod.head, s.m.tail) == s.Occupancy() <= s.m.capacity
    ensures s.m.cons.CCounting? ==>
              && Sub32(s.m.cons.head, s.m.tail) == s.headSeen - |s.consumed|
              && 0 <= s.headSeen - |s.consumed| <= s.Occupancy() <= s.m.capacity
  {
    ReachableInv(s);
    if s.m.prod.PCounting? { ProducerCount(s); }
    if s.m.cons.CCounting? { ConsumerCount(s); }
  }

  lemma ProducerCount(s: State)
    requires Inv(s) && s.m.prod.PCounting?
    ensures Sub32(s.m.prod.head, s.m.tail) == s.Occupancy() <= s.m.capacity
  {
    WrappedDifference(|s.published|, |s.consumed|, TWO32);
  }

  lemma ConsumerCount(s: State)
    requires Inv(s) && s.m.cons.CCounting?
    ensures Sub32(s.m.cons.head, s.m.tail) == s.headSeen - |s.consumed|
    ensures 0 <= s.headSeen - |s.consumed| <= s.Occupancy() <= s.m.capacity
  {
    WrappedDifference(s.headSeen, |s.consumed|, TWO32);
  }

  /** A third party's Ring_Count between its two loads. What it answers is the difference of the
      histories modulo 2^32. It is the true difference exactly when the consumer has not passed its
      head snapshot; and it stays within capacity exactly when, besides, the consumer has passed the
      snapshot by a whole number of laps of 2^32, or by up to a capacity less than that. */
  lemma ObserverCount(s: State)
    requires Reachable(s) && s.m.WellFormed() && s.m.obs.OCounting?
    ensures var answer, lag := Sub32(s.m.obs.head, s.m.tail), |s.consumed| - s.observed;
      && 0 - s.m.capacity <= lag && answer == -lag % TWO32
      && (answer == -lag <==> lag <= 0)
      && (answer <= s.m.capacity <==> lag <= 0 || lag % TWO32 == 0 || lag % TWO32 >= TWO32 - s.m.capacity)
  {
    ReachableInv(s);
    var lag := |s.consumed| - s.observed;
    ObserverAnswer(s.observed, |s.consumed|);
    LagModulo(lag);
    if lag <= 0 { DivModUnique(-lag, TWO32, 0, -lag); }
  }

  lemma ObserverAnswer(a: nat, b: nat)
    ensures Sub32(a % TWO32, b % TWO32) == (a - b) % TWO32
  {
    var qa, qb := a / TWO32, b / TWO32;
    var q, r := (a - b) / TWO32, (a - b) % TWO32;
    assert a == TWO32 * qa + a % TWO32 && b == TWO32 * qb + b % TWO32 && a - b == TWO32 * q + r;
    DivModUnique(a % TWO32 - b % TWO32, TWO32, q - qa + qb, r);
  }

  lemma LagModulo(lag: int)
    ensures -lag % TWO32 == if lag % TWO32 == 0 then 0 else TWO32 - lag % TWO32
  {
    var q, r := lag / TWO32, lag % TWO32;
    assert lag == TWO32 * q + r;
    if r == 0 { DivModUnique(-lag, TWO32, -q, 0); } else { DivModUnique(-lag, TWO32, -q - 1, TWO32 - r); }
  }

  /** A true signal_needed_out is never spurious. */
  lemma SignalSound(s: State)
    requires Reachable(s) && s.m.prod.PWrote? && SignalNeeded(s.m.prod)
    ensures s.m.WellFormed() && s.Empty() && Step(s, PStoreHead).Occupancy() == 1
  {
    ReachableInv(s);
    SignalComparesSnapshot(s);
  }

  /** Between its tail load and its head store the producer's locals and snapshot stay put. */
  lemma {:induction false} SameCall(s: State, mid: seq<Event>)
    requires Inv(s) && (s.m.prod.PGotTail? || s.m.prod.PWrote?) && PStoreHead !in mid
    ensures var r := Run(s, mid);
      && (r.m.prod.PGotTail? || r.m.prod.PWrote?)
      && r.m.prod.head == s.m.prod.head && r.m.prod.tail == s.m.prod.tail
      && r.tailSeen == s.tailSeen && r.published == s.published
      && |s.consumed| <= |r.consumed|
      && (CStoreTail !in mid ==> r.consumed == s.consumed)
    decreases |mid|
  {
    if mid != [] {
      StepInv(s, mid[0]);
      SameStep(s, mid[0]);
      SameCall(Step(s, mid[0]), mid[1..]);
    }
  }

  lemma SameStep(s: State, e: Event)
    requires Inv(s) && (s.m.prod.PGotTail? || s.m.prod.PWrote?) && e != PStoreHead
    ensures var r := Step(s, e);
      && (r.m.prod.PGotTail? || r.m.prod.PWrote?)
      && r.m.prod.head == s.m.prod.head && r.m.prod.tail == s.m.prod.tail
      && r.tailSeen == s.tailSeen && r.published == s.published
      && |s.consumed| <= |r.consumed| && (e != CStoreTail ==> r.consumed == s.consumed)
  {}

  lemma SignalComparesSnapshot(s: State)
    requires Inv(s) && s.m.prod.PWrote?
    ensures SignalNeeded(s.m.prod) <==> |s.published| == s.tailSeen
  {
    WrappedDifference(|s.published|, s.tailSeen, TWO32);
  }

  lemma SignalAfterLoad(a: State, mid: seq<Event>)
    requires Inv(a) && a.m.prod.PGotTail? && a.tailSeen == |a.consumed| && PStoreHead !in mid
    requires Run(a, mid).m.prod.PWrote?
    ensures SignalNeeded(Run(a, mid).m.prod) <==> Run(a, mid).Empty() && |Run(a, mid).consumed| == |a.consumed|
    ensures CStoreTail !in mid ==> (SignalNeeded(Run(a, mid).m.prod) <==> Run(a, mid).Empty())
  {
    var r := Run(a, mid);
    SameCall(a, mid);
    RunInv(a, mid);
    SignalComparesSnapshot(r);
  }

  /** signal_needed_out decided: it is true exactly when the ring is empty as the element is
      published and no dequeue completed since the tail load. */
  lemma SignalExact(s: State, mid: seq<Event>)
    requires Reachable(s) && s.m.WellFormed() && s.m.prod.PGotHead?
    requires Step(s, PLoadTail).m.prod.PGotTail? && PStoreHead !in mid
    requires Run(Step(s, PLoadTail), mid).m.prod.PWrote?
    ensures var r := Run(Step(s, PLoadTail), mid);
      && (SignalNeeded(r.m.prod) <==> r.Empty() && |r.consumed| == |s.consumed|)
      && (CStoreTail !in mid ==> (SignalNeeded(r.m.prod) <==> r.Empty()))
  {
    ReachableInv(s);
    var a := Step(s, PLoadTail);
    assert a.tailSeen == |a.consumed| == |s.consumed|;
    StepInv(s, PLoadTail);
    SignalAfterLoad(a, mid);
  }

  // ---- two concrete schedules -----------------------------------------------------

  const ZERO: Slot := Slot(0, 0, 0, 0)

  /** A ring of two slots, both holding ZERO throughout. */
  function Two(head: u32, tail: u32, p: Producer, c: Consumer, o: Observer): (m: Machine) {
    Machine(2, 1, head, tail, [ZERO, ZERO], p, c, o)
  }

  lemma Fresh() returns (s: State)
    ensures Reachable(s) && s == State(Two(0, 0, PIdle, CIdle, OIdle), [], [], 0, 0, 0)
  {
    assert And(2, 1) == 0;
    s := Init(2, [ZERO, ZERO]).value;
    assert s == Run(s, []);
  }

  lemma Advance(s: State, e: Event) returns (r: State)
    requires Reachable(s) && s.m.WellFormed()
    ensures r == Step(s, e) && Reachable(r)
  {
    var capacity: u32, slots: seq<Slot>, es: seq<Event> :|
      |slots| == capacity && Init(capacity, slots).Some? && s == Run(Init(capacity, slots).value, es);
    var s0 := Init(capacity, slots).value;
    RunConcat(s0, es, [e]);
    r := Step(s, e);
    assert Run(s, [e]) == Run(r, []) == r;
    assert r == Run(s0, es + [e]);
  }

  lemma EnqueueLoads(s: State) returns (r: State)
    requires Reachable(s) && s.m == Two(0, 0, PIdle, CIdle, s.m.obs) && s.published == s.consumed == []
    ensures Reachable(r) && r.m == Two(0, 0, PGotTail(ZERO, 0, 0), CIdle, s.m.obs) && r.published == r.consumed == []
  {
    r := Advance(s, PLoadHead(ZERO));
    assert r.m == Two(0, 0, PGotHead(ZERO, 0), CIdle, s.m.obs);
    r := Advance(r, PLoadTail);
  }

  lemma EnqueueFirst(s: State) returns (r: State)
    requires Reachable(s) && s.m == Two(0, 0, PIdle, CIdle, s.m.obs) && s.published == s.consumed == []
    ensures Reachable(r) && r.m == Two(1, 0, PIdle, CIdle, s.m.obs) && r.published == [ZERO] && r.consumed == []
  {
    r := EnqueueLoads(s);
    r := Advance(r, PWriteSlot);
    assert r.m == Two(0, 0, PWrote(ZERO, 0, 0), CIdle, s.m.obs);
    r := Advance(r, PStoreHead);
  }

  lemma DequeueLoads(s: State) returns (r: State)
    requires Reachable(s) && s.m == Two(1, 0, s.m.prod, CIdle, s.m.obs)
    requires s.published == [ZERO] && s.consumed == []
    ensures Reachable(r) && r.m == Two(1, 0, s.m.prod, CGotHead(0, 1), s.m.obs)
    ensures r.published == [ZERO] && r.consumed == []
  {
    r := Advance(s, CLoadTail);
    assert r.m == Two(1, 0, s.m.prod, CGotTail(0), s.m.obs);
    r := Advance(r, CLoadHead);
  }

  lemma DequeueFirst(s: State) returns (r: State)
    requires Reachable(s) && s.m == Two(1, 0, s.m.prod, CIdle, s.m.obs)
    requires s.published == [ZERO] && s.consumed == []
    ensures Reachable(r) && r.m == Two(1, 1, s.m.prod, CIdle, s.m.obs) && r.published == r.consumed == [ZERO]
  {
    r := DequeueLoads(s);
    r := Advance(r, CReadSlot);
    assert r.m == Two(1, 0, s.m.prod, CGotSlot(0, ZERO), s.m.obs);
    r := Advance(r, CStoreTail);
  }

  /** The side condition of SignalExact is needed: the second enqueue publishes into an empty
      ring, drained after its tail load, and signals nothing. */
  lemma MissedWakeUp() returns (s: State)
    ensures Reachable(s) && s.m.prod.PWrote? && s.m.WellFormed()
    ensures s.Empty() && !SignalNeeded(s.m.prod)
  {
    s := Fresh();
    s := EnqueueFirst(s);
    s := Advance(s, PLoadHead(ZERO));
    assert s.m == Two(1, 0, PGotHead(ZERO, 1), CIdle, OIdle);
    s := Advance(s, PLoadTail);
    assert s.m == Two(1, 0, PGotTail(ZERO, 1, 0), CIdle, OIdle);
    s := DequeueFirst(s);
    s := Advance(s, PWriteSlot);
  }

  /** EndpointCount does not extend to a third party: between its two loads both endpoints can
      pass its head snapshot, and Ring_Count then answers 2^32 - 1 for a ring of two. */
  lemma ThirdPartyCountWraps() returns (s: State)
    ensures Reachable(s) && s.m.obs.OCounting? && s.m.capacity == 2
    ensures Sub32(s.m.obs.head, s.m.tail) == TWO32 - 1
  {
    s := Fresh();
    s := Advance(s, OCountHead);
    assert s.m == Two(0, 0, PIdle, CIdle, OCounting(0));
    s := EnqueueFirst(s);
    s := DequeueFirst(s);
  }
}
