/**
 The ring as the source writes it: a header whose head and tail are updated in place beside
 a slot array. Each call here runs undisturbed; its ghost state takes the very steps of
 module Ring, so the interleaved theorems speak about this code.
 */
module RingHeader {
  import opened Options
  import opened Arithmetic
  import opened Ring

  class Header {
    var head: u32
    var tail: u32
    var capacity: u32
    var mask: u32
    var slots: array<Slot>
    ghost var s: State

    ghost predicate Valid()
      reads this, slots
    {
      Inv(s) && s.m == Machine(capacity, mask, head, tail, slots[..], PIdle, CIdle, OIdle)
    }

    /** Ring_Init: refuses, and changes nothing, unless the capacity is a power of two. */
    method Initialise(capacity: u32, slots: array<Slot>) returns (ok: bool)
      requires slots.Length == capacity
      modifies this
      ensures ok <==> IsPow2(capacity)
      ensures ok ==> Valid() && this.slots == slots && this.capacity == capacity
                     && s.published == s.consumed == []
      ensures !ok ==> unchanged(this)
    {
      InitAcceptsPowersOfTwo(capacity, slots[..]);
      if capacity == 0 || And(capacity, capacity - 1) != 0 {
        return false;
      }
      head, tail := 0, 0;
      this.capacity, mask, this.slots := capacity, capacity - 1, slots;
      s := Init(capacity, slots[..]).value;
      InitInv(capacity, slots[..]);
      return true;
    }

    /** Ring_Enqueue, undisturbed: here the header's "exactly when" is literally true. */
    method Enqueue(v: Slot) returns (ok: bool, signalNeeded: bool)
      requires Valid()
      modifies this`head, this`s, slots
      ensures Valid()
      ensures ok <==> old(s.Occupancy()) < capacity
      ensures s.published == old(s.published) + (if ok then [v] else [])
      ensures s.consumed == old(s.consumed)
      ensures signalNeeded <==> ok && old(s.Empty())
      ensures !ok ==> slots[..] == old(slots[..])
    {
      EnqueueAlone(s, v);
      var head, tail := this.head, this.tail;
      ghost var loaded := Step(Step(s, PLoadHead(v)), PLoadTail);
      if Sub32(head, tail) >= capacity {
        s := loaded;
        return false, false;
      }
      slots[And(head, mask)] := v;
      this.head := Succ32(head);
      s := Step(Step(loaded, PWriteSlot), PStoreHead);
      return true, head == tail;
    }

    /** Ring_Dequeue, undisturbed: the oldest element, or refusal exactly when empty. */
    method Dequeue() returns (r: Option<Slot>)
      requires Valid()
      modifies this`tail, this`s
      ensures Valid()
      ensures r.None? <==> old(s.Empty())
      ensures r.Some? ==> old(|s.consumed| < |s.published|) && r.value == old(s.published[|s.consumed|])
      ensures s.published == old(s.published)
      ensures s.consumed == old(s.consumed) + (if r.Some? then [r.value] else [])
    {
      DequeueAlone(s);
      var tail, head := this.tail, this.head;
      ghost var loaded := Step(Step(s, CLoadTail), CLoadHead);
      if head == tail {
        s := loaded;
        return None;
      }
      var out := slots[And(tail, mask)];
      this.tail := Succ32(tail);
      s := Step(Step(loaded, CReadSlot), CStoreTail);
      return Some(out);
    }

    /** Ring_Count, Ring_IsEmpty and Ring_IsFull, undisturbed. */
    method Count() returns (n: u32, isEmpty: bool, isFull: bool)
      requires Valid()
      ensures n == s.Occupancy() && (isEmpty <==> s.Empty()) && (isFull <==> s.Occupancy() == capacity)
    {
      WrappedDifference(|s.published|, |s.consumed|, TWO32);
      n := Sub32(head, tail);
      isEmpty, isFull := n == 0, n >= capacity;
    }
  }
}
