/**
 The tick and nanosecond conversions of src/croi/time.c, in 64-bit arithmetic, and its one-shot
 deadline.
 */
module Time {
  import opened Arithmetic

  const GIGA: int := 1_000_000_000

  function Wrap(x: int): u64 { x % TWO64 }

  /** x * a / b by whole multiples of b and a remainder, every operation wrapping: the shape of
      both conversions. */
  function Scale(x: u64, a: u64, b: u64): u64
    requires 0 < b
  {
    var whole := x / b;
    var rem := Wrap(x - Wrap(whole * b));
    Wrap(Wrap(whole * a) + Wrap(rem * a) / b)
  }

  /** Croi_Time_Now at tick t. */
  function Now(t: u64, hz: u64): u64 { if hz == 0 then 0 else Scale(t, GIGA, hz) }

  /** ns_to_ticks. */
  function NsToTicks(ns: u64, hz: u64): u64 { if hz == 0 then 0 else Scale(ns, hz, GIGA) }

  /** The split product and division lose nothing. */
  lemma SplitExact(x: nat, a: nat, b: nat)
    requires 0 < b
    ensures x / b * a + (x % b * a) / b == x * a / b
  {
    var q, r := Divide(x, b);
    var p := r * a;
    var s, m := Divide(p, b);
    SplitProduct(q, b, r, a, x, p);
    SumProduct(b, q * a, s);
    DivModUnique(x * a, b, q * a + s, m);
  }

  lemma SplitProduct(q: nat, b: nat, r: nat, a: nat, x: nat, p: nat)
    requires x == q * b + r && p == r * a
    ensures x * a == b * (q * a) + p
  {
    assert (q * b + r) * a == q * b * a + r * a;
    assert q * b * a == b * (q * a);
  }

  lemma SumProduct(b: nat, u: nat, s: nat)
    ensures b * (u + s) == b * u + s * b
  {}

  lemma SmallWrap(x: int)
    requires 0 <= x < TWO64
    ensures Wrap(x) == x
  {
    DivModUnique(x, TWO64, 0, x);
  }

  /** The subtraction in the source recovers the remainder. */
  lemma RemainderWraps(x: u64, b: u64)
    requires 0 < b
    ensures Wrap(x - Wrap(x / b * b)) == x % b && 0 <= x % b < b
  {
    var q, r := Divide(x, b);
    SmallWrap(q * b);
    SmallWrap(r);
  }

  lemma WrapSum(p: int, q: int)
    ensures Wrap(Wrap(p) + q) == Wrap(p + q)
  {
    var k, r := p / TWO64, p % TWO64;
    var j, s := (r + q) / TWO64, (r + q) % TWO64;
    assert p == TWO64 * k + r && r + q == TWO64 * j + s;
    DivModUnique(p + q, TWO64, k + j, s);
  }

  /** With no overflow in the remainder's product, the result is the exact floor modulo 2^64. */
  lemma ScaleModulo(x: u64, a: u64, b: u64)
    requires 0 < b && (b - 1) * a < TWO64
    ensures Scale(x, a, b) == Wrap(x * a / b)
  {
    RemainderWraps(x, b);
    var r := x % b;
    assert r * a <= (b - 1) * a by { MulMono(r, b - 1, a); }
    assert 0 <= r * a;
    SmallWrap(r * a);
    WrapSum(x / b * a, r * a / b);
    SplitExact(x, a, b);
  }

  /** The exact floor of x * a / b. */
  function Floor(x: nat, a: nat, b: nat): nat
    requires 0 < b
  {
    assert 0 <= x * a;
    x * a / b
  }

  ghost predicate ExactAt(x: u64, a: u64, b: u64)
    requires 0 < b
  {
    Floor(x, a, b) < TWO64 ==> Scale(x, a, b) == Floor(x, a, b)
  }

  /** Every result that fits in 64 bits is the exact floor, and this is so for all operands exactly
      when the product with the largest remainder does not overflow. */
  lemma ScaleExactly(a: u64, b: u64)
    requires 0 < b
    ensures (forall x: u64 :: ExactAt(x, a, b)) <==> (b - 1) * a < TWO64
  {
    if (b - 1) * a < TWO64 {
      forall x: u64 ensures ExactAt(x, a, b) {
        ScaleModulo(x, a, b);
        if Floor(x, a, b) < TWO64 { SmallWrap(Floor(x, a, b)); }
      }
    } else {
      OverflowWitness(a, b);
      assert !ExactAt(b - 1, a, b);
    }
  }

  lemma OverflowWitness(a: u64, b: u64)
    requires 0 < b && TWO64 <= (b - 1) * a
    ensures !ExactAt(b - 1, a, b)
  {
    var p := (b - 1) * a;
    var q, r := Divide(p, b);
    var w := Wrap(p);
    assert w <= p - TWO64 by { WrapBelow(p); }
    var qw, rw := Divide(w, b);
    assert q < a by { SmallerQuotient(p, q, a, b); }
    assert qw < q by { SmallerQuotient(w, qw, q, b); }
    DivModUnique(b - 1, b, 0, b - 1);
    RemainderWraps(b - 1, b);
    SmallWrap(0);
    SmallWrap(qw);
  }

  lemma WrapBelow(p: int)
    requires TWO64 <= p
    ensures 0 <= Wrap(p) <= p - TWO64
  {
    var k, r := p / TWO64, p % TWO64;
    assert p == TWO64 * k + r;
  }

  /** x below q * b has a quotient below q. */
  lemma SmallerQuotient(x: nat, k: nat, q: nat, b: nat)
    requires 0 < b && k * b <= x < q * b
    ensures k < q
  {
    if k >= q { MulMono(q, k, b); }
  }

  // ---- what the two conversions mean ------------------------------------------------

  /** Croi_Time_Now is the exact floor whenever it fits, for every counter below 18.4 GHz. */
  lemma NowExact(t: u64, hz: u64)
    requires 0 < hz && (hz - 1) * GIGA < TWO64 && Floor(t, GIGA, hz) < TWO64
    ensures Now(t, hz) == Floor(t, GIGA, hz)
  {
    ScaleExactly(GIGA, hz);
    assert ExactAt(t, GIGA, hz);
  }

  lemma NsToTicksExact(ns: u64, hz: u64)
    requires 0 < hz && (GIGA - 1) * hz < TWO64 && Floor(ns, hz, GIGA) < TWO64
    ensures NsToTicks(ns, hz) == Floor(ns, hz, GIGA)
  {
    ScaleExactly(hz, GIGA);
    assert ExactAt(ns, hz, GIGA);
  }

  lemma FloorMonotone(x: nat, y: nat, a: nat, b: nat)
    requires 0 < b && x <= y
    ensures Floor(x, a, b) <= Floor(y, a, b)
  {
    MulMono(x, y, a);
    var p, r := Divide(x * a, b);
    var q, s := Divide(y * a, b);
    if q < p { MulMono(q + 1, p, b); }
  }

  /** The clock never goes back. */
  lemma NowMonotone(t: u64, u: u64, hz: u64)
    requires 0 < hz && (hz - 1) * GIGA < TWO64 && Floor(u, GIGA, hz) < TWO64 && t <= u
    ensures Now(t, hz) <= Now(u, hz)
  {
    FloorMonotone(t, u, GIGA, hz);
    NowExact(t, hz);
    NowExact(u, hz);
  }

  lemma NsToTicksMonotone(ns: u64, later: u64, hz: u64)
    requires 0 < hz && (GIGA - 1) * hz < TWO64 && Floor(later, hz, GIGA) < TWO64 && ns <= later
    ensures NsToTicks(ns, hz) <= NsToTicks(later, hz)
  {
    FloorMonotone(ns, later, hz, GIGA);
    NsToTicksExact(ns, hz);
    NsToTicksExact(later, hz);
  }

  /** From ticks to nanoseconds and back loses at most one tick. */
  lemma RoundTrip(t: u64, hz: u64)
    requires 0 < hz <= GIGA && Floor(t, GIGA, hz) < TWO64
    ensures t - 1 <= NsToTicks(Now(t, hz), hz) <= t
  {
    assert (hz - 1) * GIGA < TWO64 && (GIGA - 1) * hz < TWO64;
    NowExact(t, hz);
    var n, r := Divide(t * GIGA, hz);
    var k, s := Divide(n * hz, GIGA);
    assert k <= t by { if k > t { MulMono(t + 1, k, GIGA); } }
    assert t - 1 <= k by { if k < t - 1 { MulMono(k + 1, t - 1, GIGA); } }
    NsToTicksExact(n, hz);
  }

  // ---- the deadline -------------------------------------------------------------------

  /** The tick Croi_Time_SetDeadline arms is the last one at which the clock reads at most d: there
      it has not passed d, one tick later it has reached it. */
  lemma DeadlineTick(d: u64, hz: u64)
    requires 0 < hz && (hz - 1) * GIGA < TWO64 && Floor(d, hz, GIGA) < TWO64
    ensures Now(NsToTicks(d, hz), hz) <= d
    ensures var later := NsToTicks(d, hz) + 1;
      later < TWO64 && Floor(later, GIGA, hz) < TWO64 ==> d <= Now(later, hz)
  {
    NsToTicksExact(d, hz);
    var tick, r := Divide(d * hz, GIGA);
    FloorAtMost(tick, GIGA, hz, d);
    NowExact(tick, hz);
    FloorAtLeast(tick + 1, GIGA, hz, d);
    if tick + 1 < TWO64 && Floor(tick + 1, GIGA, hz) < TWO64 { NowExact(tick + 1, hz); }
  }

  lemma FloorAtMost(x: nat, a: nat, b: nat, d: nat)
    requires 0 < b && x * a <= d * b
    ensures Floor(x, a, b) <= d
  {
    var q, r := Divide(x * a, b);
    if q > d { MulMono(d + 1, q, b); }
  }

  lemma FloorAtLeast(x: nat, a: nat, b: nat, d: nat)
    requires 0 < b && d * b <= x * a
    ensures d <= Floor(x, a, b)
  {
    var q, r := Divide(x * a, b);
    if q < d { MulMono(q + 1, d, b); }
  }

  /** The header promises a trap once the clock reads at least d. The armed tick keeps that promise
      exactly when d is a whole number of ticks; otherwise the trap is early by less than a tick. */
  lemma NeverEarlyExactly(d: u64, hz: u64)
    requires 0 < hz && (hz - 1) * GIGA < TWO64 && Floor(d, hz, GIGA) < TWO64
    ensures d <= Now(NsToTicks(d, hz), hz) <==> d * hz % GIGA == 0
  {
    NsToTicksExact(d, hz);
    var tick, r := Divide(d * hz, GIGA);
    FloorAtMost(tick, GIGA, hz, d);
    NowExact(tick, hz);
    var lo, rl := Divide(tick * GIGA, hz);
    if r == 0 {
      DivModUnique(d * hz, hz, d, 0);
    } else if d <= lo {
      MulMono(d, lo, hz);
    }
  }

  /** A deadline that does trap early: 1 ns at 24 MHz. */
  lemma EarlyTrap()
    ensures NsToTicks(1, 24_000_000) == 0 && Now(0, 24_000_000) == 0
  {}

  // ---- the one-shot flag ----------------------------------------------------------------

  /** g_deadline_fired and the comparator. */
  class Deadline {
    const hz: u64
    var fired: bool
    var armed: bool
    var tick: u64

    /** Croi_Time_Init. */
    constructor (hz: u64)
      ensures this.hz == hz && !fired && !armed
    {
      this.hz, fired, armed, tick := hz, false, false, 0;
    }

    ghost function View(): Flags
      reads this
    {
      Flags(fired, armed)
    }

    /** Croi_Time_SetDeadline. */
    method Set(deadline: u64)
      modifies this
      ensures View() == After(old(View()), SetDeadline).0 && tick == NsToTicks(deadline, hz)
    {
      fired := false;
      armed, tick := true, NsToTicks(deadline, hz);
    }

    /** Croi_Time_CancelDeadline. */
    method Cancel()
      modifies this
      ensures View() == After(old(View()), CancelDeadline).0 && tick == old(tick)
    {
      armed := false;
    }

    /** Croi_Time_DeadlineFired: reads and clears. */
    method Poll() returns (was: bool)
      modifies this
      ensures (View(), was) == After(old(View()), PollFired) && tick == old(tick)
    {
      was := fired;
      fired := false;
    }

    /** Croi_Time_OnTimerTrap; the comparator raises it only while armed. */
    method OnTrap()
      requires armed
      modifies this
      ensures View() == After(old(View()), TimerTrap).0 && tick == old(tick)
    {
      armed := false;
      fired := true;
    }
  }

  datatype Flags = Flags(fired: bool, armed: bool)
  datatype Call = SetDeadline | CancelDeadline | PollFired | TimerTrap

  /** The flags after a call, and what a poll reports; no trap without an armed comparator. */
  function After(f: Flags, c: Call): (Flags, bool) {
    match c
    case SetDeadline => (Flags(false, true), false)
    case CancelDeadline => (f.(armed := false), false)
    case PollFired => (f.(fired := false), f.fired)
    case TimerTrap => if f.armed then (Flags(true, false), false) else (f, false)
  }

  /** The flags after some calls and traps, from Croi_Time_Init on. */
  function FlagsAfter(cs: seq<Call>): Flags {
    if cs == [] then Flags(false, false) else After(FlagsAfter(cs[..|cs| - 1]), cs[|cs| - 1]).0
  }

  /** The deadline that call number s set was neither cancelled nor reached. */
  ghost predicate Pends(cs: seq<Call>, s: nat) {
    s < |cs| && cs[s].SetDeadline? && forall j | s < j < |cs| :: !cs[j].CancelDeadline? && !cs[j].TimerTrap?
  }

  ghost predicate Waiting(cs: seq<Call>) { exists s: nat :: Pends(cs, s) }

  /** Trap number t reached a deadline, and since then none was set and nobody asked. */
  ghost predicate Stands(cs: seq<Call>, t: nat) {
    t < |cs| && cs[t].TimerTrap? && Waiting(cs[..t]) &&
    forall j | t < j < |cs| :: !cs[j].SetDeadline? && !cs[j].PollFired?
  }

  ghost predicate Unreported(cs: seq<Call>) { exists t: nat :: Stands(cs, t) }

  lemma WaitingNext(cs: seq<Call>, c: Call)
    ensures Waiting(cs + [c]) <==> c.SetDeadline? || (Waiting(cs) && !c.CancelDeadline? && !c.TimerTrap?)
  {
    var all := cs + [c];
    if c.SetDeadline? {
      assert Pends(all, |cs|);
    } else {
      if Waiting(cs) && !c.CancelDeadline? && !c.TimerTrap? {
        var s: nat :| Pends(cs, s);
        assert Pends(all, s);
      }
      if Waiting(all) {
        var s: nat :| Pends(all, s);
        assert all[|cs|] == c && forall j | 0 <= j < |cs| :: all[j] == cs[j];
        assert Pends(cs, s);
      }
    }
  }

  lemma UnreportedNext(cs: seq<Call>, c: Call)
    ensures Unreported(cs + [c]) <==>
            || (c.TimerTrap? && Waiting(cs))
            || (Unreported(cs) && !c.SetDeadline? && !c.PollFired?)
  {
    var all := cs + [c];
    assert all[..|cs|] == cs;
    if c.TimerTrap? && Waiting(cs) {
      assert Stands(all, |cs|);
    }
    if Unreported(cs) && !c.SetDeadline? && !c.PollFired? {
      var t: nat :| Stands(cs, t);
      assert all[..t] == cs[..t];
      assert Stands(all, t);
    }
    if Unreported(all) {
      var t: nat :| Stands(all, t);
      if t < |cs| {
        assert all[|cs|] == c && forall j | 0 <= j < |cs| :: all[j] == cs[j];
        assert all[..t] == cs[..t];
        assert Stands(cs, t);
      }
    }
  }

  /** Both flags are a matter of the sequence of calls and traps alone. */
  lemma {:induction false} FlagsExactly(cs: seq<Call>)
    ensures FlagsAfter(cs) == Flags(Unreported(cs), Waiting(cs))
  {
    if cs != [] {
      var front, c := cs[..|cs| - 1], cs[|cs| - 1];
      FlagsExactly(front);
      assert cs == front + [c];
      WaitingNext(front, c);
      UnreportedNext(front, c);
    }
  }

  /** What Croi_Time_DeadlineFired answers: true exactly when a deadline was reached while it was
      waited for, and since then none was set and nobody asked. */
  lemma PollExactly(cs: seq<Call>)
    ensures After(FlagsAfter(cs), PollFired).1 <==> Unreported(cs)
  {
    FlagsExactly(cs);
  }

  function Reports(f: Flags, cs: seq<Call>): nat
    decreases |cs|
  {
    if cs == [] then 0
    else (if After(f, cs[0]).1 then 1 else 0) + Reports(After(f, cs[0]).0, cs[1..])
  }

  function Sets(cs: seq<Call>): nat {
    if cs == [] then 0 else (if cs[0].SetDeadline? then 1 else 0) + Sets(cs[1..])
  }

  function Pending(f: Flags): nat { if f.fired || f.armed then 1 else 0 }

  /** One report at most per deadline set, in every interleaving of calls and traps. */
  lemma {:induction false} OneReportPerDeadline(f: Flags, cs: seq<Call>)
    requires !(f.fired && f.armed)
    ensures Reports(f, cs) <= Pending(f) + Sets(cs)
    decreases |cs|
  {
    if cs != [] {
      OneReportPerDeadline(After(f, cs[0]).0, cs[1..]);
    }
  }
}
