/**
 The library description of tools/lvo-gen: reading it line by line, the pad_run directive, the
 validator, and the coverage tallies.
 */
module LvoGen {
  import opened Options
  import opened LvoText
  import Arithmetic

  datatype Function = Function(row: Row, isPad: bool, ordinal: nat)

  /** The singleton directives a library must carry besides ##bias. */
  datatype Key = LibraryName | Base | BaseType | Owner | Spdx

  datatype Lib = Lib(fields: map<Key, string>, includes: seq<string>, bias: int, funcs: seq<Function>, errors: nat)

  const VECTOR_SIZE := 6
  const RESERVED := 4

  function Empty(): Lib { Lib(map[], [], 0, [], 0) }

  /** The offset the slot at an ordinal must have. */
  function SlotLvo(ordinal: nat, bias: int): int {
    if ordinal < RESERVED then -((ordinal + 1) * VECTOR_SIZE) else -(bias + (ordinal - RESERVED) * VECTOR_SIZE)
  }

  /** With the bias of 30 that follows the reserved slots, all slots are six bytes apart from -6 down. */
  lemma StandardTable(ordinal: nat)
    ensures SlotLvo(ordinal, 30) == 0 - 6 * (ordinal + 1)
  {}

  /** Whatever the bias, the first user slot is there and each next one six bytes below. */
  lemma UserTable(ordinal: nat, bias: int)
    requires RESERVED <= ordinal
    ensures SlotLvo(RESERVED, bias) == -bias && SlotLvo(ordinal + 1, bias) == SlotLvo(ordinal, bias) - 6
  {}

  // ---- reading -------------------------------------------------------------------------

  function Diag(lib: Lib): Lib { lib.(errors := lib.errors + 1) }

  function Append(lib: Lib, r: Row, isPad: bool): Lib {
    lib.(funcs := lib.funcs + [Function(r, isPad, |lib.funcs|)])
  }

  /** A row line. */
  function AddRow(lib: Lib, line: string): Lib {
    var r := ParseRow(line);
    if r.None? then Diag(lib) else Append(lib, r.value, IsPad(r.value.name))
  }

  /** A positive number that fills its field. */
  function Positive(val: string): Option<nat> {
    var n := Long(val);
    if n.None? || n.value.1 != [] || n.value.0 <= 0 then None else Some(n.value.0)
  }

  function SetBias(lib: Lib, val: string): Lib {
    var b := Positive(val);
    if b.None? || b.value % VECTOR_SIZE != 0 then Diag(lib) else lib.(bias := ToInt(b.value))
  }

  function PadRow(lvo: int): Row { Row("_PAD", "void", [], lvo, Local, "Croi_LvoUnimplemented") }

  function PadFunction(ordinal: nat, bias: int): Function { Function(PadRow(SlotLvo(ordinal, bias)), true, ordinal) }

  function Pads(from: nat, count: nat, bias: int): (ps: seq<Function>)
    ensures |ps| == count
  {
    seq(count, i requires 0 <= i => PadFunction(from + i, bias))
  }

  function PadRun(lib: Lib, val: string): Lib {
    var n := Positive(val);
    if lib.bias == 0 || n.None? then Diag(lib) else lib.(funcs := lib.funcs + Pads(|lib.funcs|, n.value, lib.bias))
  }

  function KeyOf(word: string): Option<Key> {
    if word == "library" then Some(LibraryName) else if word == "base" then Some(Base)
    else if word == "base_type" then Some(BaseType) else if word == "owner" then Some(Owner)
    else if word == "spdx" then Some(Spdx) else None
  }

  function Directive(lib: Lib, word: string, val: string): Lib {
    if val == [] then Diag(lib)
    else if KeyOf(word).Some? then lib.(fields := lib.fields[KeyOf(word).value := val])
    else if word == "include" then lib.(includes := lib.includes + [val])
    else if word == "bias" then SetBias(lib, val)
    else if word == "pad_run" then PadRun(lib, val)
    else Diag(lib)
  }

  /** A directive line, from after "##". */
  function DirectiveLine(lib: Lib, s: string): Lib {
    var id := Identifier(Skip(s));
    if id.None? then Diag(lib) else Directive(lib, id.value.0, TrimRight(TrimLeft(id.value.1)))
  }

  function TrimLeft(s: string): string { s[Span(s, White)..] }

  /** One trimmed line. */
  function Feed(lib: Lib, line: string): Lib {
    if line == [] then lib
    else if line[0] != '#' then AddRow(lib, line)
    else if |line| > 1 && line[1] == '#' then DirectiveLine(lib, line[2..])
    else lib
  }

  function FeedAll(lib: Lib, lines: seq<string>): Lib
    decreases |lines|
  {
    if lines == [] then lib else FeedAll(Feed(lib, lines[0]), lines[1..])
  }

  // ---- what reading keeps --------------------------------------------------------------

  /** A row as reading leaves it at its index. */
  predicate Sound(f: Function, i: nat) {
    f.ordinal == i && f.isPad == IsPad(f.row.name)
  }

  predicate Numbered(fs: seq<Function>) { forall i | 0 <= i < |fs| :: Sound(fs[i], i) }

  predicate Inv(lib: Lib) { Numbered(lib.funcs) }

  lemma PadSound(o: nat, bias: int)
    ensures Sound(PadFunction(o, bias), o)
  {
    assert IsPad("_PAD");
  }

  lemma {:induction false} PadsNumbered(lib: Lib, count: nat)
    requires Inv(lib)
    ensures Numbered(lib.funcs + Pads(|lib.funcs|, count, lib.bias))
  {
    var fs := lib.funcs + Pads(|lib.funcs|, count, lib.bias);
    forall i | 0 <= i < |fs|
      ensures Sound(fs[i], i)
    {
      if i >= |lib.funcs| { PadSound(i, lib.bias); }
    }
  }

  lemma RowNumbered(lib: Lib, line: string)
    requires Inv(lib)
    ensures Inv(AddRow(lib, line)) && Extends(lib, AddRow(lib, line))
  {}

  lemma {:induction false} DirectiveLineKeeps(lib: Lib, s: string)
    requires Inv(lib)
    ensures Inv(DirectiveLine(lib, s)) && Extends(lib, DirectiveLine(lib, s))
  {
    var id := Identifier(Skip(s));
    if id.Some? { DirectiveKeeps(lib, id.value.0, TrimRight(TrimLeft(id.value.1))); }
  }

  /** A line only ever adds rows, and never takes an error back. */
  predicate Extends(before: Lib, after: Lib) { before.funcs <= after.funcs && before.errors <= after.errors }

  lemma {:induction false} DirectiveKeeps(lib: Lib, word: string, val: string)
    requires Inv(lib)
    ensures Inv(Directive(lib, word, val)) && Extends(lib, Directive(lib, word, val))
  {
    if Positive(val).Some? { PadsNumbered(lib, Positive(val).value); }
  }

  lemma {:induction false} FeedKeeps(lib: Lib, line: string)
    requires Inv(lib)
    ensures Inv(Feed(lib, line)) && Extends(lib, Feed(lib, line))
  {
    if line == [] {
    } else if line[0] != '#' {
      RowNumbered(lib, line);
    } else if |line| > 1 && line[1] == '#' {
      DirectiveLineKeeps(lib, line[2..]);
    }
  }

  lemma {:induction false} FeedAllKeeps(lib: Lib, lines: seq<string>)
    requires Inv(lib)
    ensures Inv(FeedAll(lib, lines)) && Extends(lib, FeedAll(lib, lines))
    decreases |lines|
  {
    if lines != [] {
      FeedKeeps(lib, lines[0]);
      FeedAllKeeps(Feed(lib, lines[0]), lines[1..]);
    }
  }

  /**
   A row made by pad_run is at the place the finished library demands exactly when the bias was
   never changed again, or the row is one of the four reserved ones.
   */
  lemma {:induction false} PadRunConforms(lib: Lib, val: string, lines: seq<string>, o: nat)
    requires Inv(lib) && lib.bias != 0 && Positive(val).Some?
    requires |lib.funcs| <= o < |lib.funcs| + Positive(val).value
    ensures var done := FeedAll(PadRun(lib, val), lines);
      o < |done.funcs| && done.funcs[o].isPad
      && (done.funcs[o].row.lvo == SlotLvo(o, done.bias) <==> (o < RESERVED || done.bias == lib.bias))
  {
    var padded := PadRun(lib, val);
    PadsNumbered(lib, Positive(val).value);
    FeedAllKeeps(padded, lines);
    assert padded.funcs[o] == PadFunction(o, lib.bias);
    assert FeedAll(padded, lines).funcs[o] == padded.funcs[o];
  }

  // ---- what the validator accepts -----------------------------------------------------------

  function ReservedName(i: nat): string { if i == 0 then "Open" else if i == 1 then "Close" else "Expunge" }

  predicate FieldsPresent(lib: Lib) {
    && LibraryName in lib.fields && Base in lib.fields && BaseType in lib.fields
    && Owner in lib.fields && Spdx in lib.fields && lib.bias != 0
  }

  predicate NamesReserved(fs: seq<Function>)
    requires |fs| >= RESERVED
  {
    && (forall i | 0 <= i < 3 :: fs[i].row.name == ReservedName(i))
    && (fs[3].row.name == "ExtFunc" || IsPad(fs[3].row.name))
  }

  /** The rows of a range of ordinals are at the offsets the bias gives them. */
  predicate PlacedIn(fs: seq<Function>, bias: int, from: nat, to: nat)
    requires to <= |fs|
  {
    forall o | from <= o < to :: fs[o].row.lvo == SlotLvo(o, bias)
  }

  predicate Placed(fs: seq<Function>, bias: int) { PlacedIn(fs, bias, 0, |fs|) }

  predicate Clash(fs: seq<Function>, i: nat, j: nat)
    requires i < j < |fs|
  {
    !fs[i].isPad && fs[i].ordinal >= RESERVED && !fs[j].isPad && fs[i].row.name == fs[j].row.name
  }

  predicate NamesUnique(fs: seq<Function>) { forall i, j | 0 <= i < j < |fs| :: !Clash(fs, i, j) }

  predicate WellFormed(lib: Lib) {
    && FieldsPresent(lib) && |lib.funcs| >= RESERVED
    && NamesReserved(lib.funcs) && Placed(lib.funcs, lib.bias) && NamesUnique(lib.funcs)
  }

  /** What a caller of an accepted library relies on: user slots never share an offset or a name. */
  lemma {:induction false} UserSlotsDistinct(lib: Lib, i: nat, j: nat)
    requires Inv(lib) && WellFormed(lib) && RESERVED <= i < j < |lib.funcs|
    ensures lib.funcs[j].row.lvo < lib.funcs[i].row.lvo <= 0 - lib.bias
    ensures !lib.funcs[i].isPad && !lib.funcs[j].isPad ==> lib.funcs[i].row.name != lib.funcs[j].row.name
  {
    assert lib.funcs[i].row.lvo == SlotLvo(i, lib.bias) && lib.funcs[j].row.lvo == SlotLvo(j, lib.bias);
    assert Sound(lib.funcs[i], i) && !Clash(lib.funcs, i, j);
  }

  predicate OffsetsDistinct(fs: seq<Function>) {
    forall i, j | 0 <= i < j < |fs| :: fs[i].row.lvo != fs[j].row.lvo
  }

  /** The bias puts some user slot on a reserved one. */
  predicate Overlaps(users: nat, bias: int) {
    && users > 0 && bias % VECTOR_SIZE == 0
    && bias <= RESERVED * VECTOR_SIZE && VECTOR_SIZE <= bias + (users - 1) * VECTOR_SIZE
  }

  /**
   The validator does not bound the bias from below, so an accepted library can give a user slot
   the offset of a reserved one. It does exactly when the bias is a multiple of six under 30 and
   there are user slots enough to get past zero.
   */
  lemma OffsetsDistinctExactly(lib: Lib)
    requires WellFormed(lib)
    ensures OffsetsDistinct(lib.funcs) <==> !Overlaps(|lib.funcs| - RESERVED, lib.bias)
  {
    var fs, bias := lib.funcs, lib.bias;
    if Overlaps(|fs| - RESERVED, bias) {
      var o := RESERVED + if bias < VECTOR_SIZE then 1 - bias / VECTOR_SIZE else 0;
      var i := bias / VECTOR_SIZE + (o - RESERVED) - 1;
      assert fs[i].row.lvo == SlotLvo(i, bias) && fs[o].row.lvo == SlotLvo(o, bias);
    } else {
      forall i, j | 0 <= i < j < |fs|
        ensures fs[i].row.lvo != fs[j].row.lvo
      {
        assert fs[i].row.lvo == SlotLvo(i, bias) && fs[j].row.lvo == SlotLvo(j, bias);
        SlotsDistinct(|fs| - RESERVED, bias, i, j);
      }
    }
  }

  lemma SlotsDistinct(users: nat, bias: int, i: nat, j: nat)
    requires !Overlaps(users, bias) && i < j < RESERVED + users
    ensures SlotLvo(i, bias) != SlotLvo(j, bias)
  {}

  /** A bias read is kept exactly when it fits an int. */
  lemma BiasExactly(lib: Lib, val: string)
    requires Positive(val).Some? && Positive(val).value % VECTOR_SIZE == 0
    ensures SetBias(lib, val).bias == Positive(val).value <==> Positive(val).value < 0x8000_0000
    ensures Positive(val).value == 0x1_0000_0002 ==> SetBias(lib, val).bias == 2
  {}

  /** A library with bias 6, which the validator accepts, and whose first user slot is Open's. */
  function Overlapping(): Lib {
    Lib(map[LibraryName := "l", Base := "b", BaseType := "t", Owner := "o", Spdx := "s"], [], 6,
        [OneSlot("Open", 0), OneSlot("Close", 1), OneSlot("Expunge", 2), OneSlot("ExtFunc", 3), OneSlot("User", 4)], 0)
  }

  function OneSlot(name: string, i: nat): Function {
    Function(Row(name, "void", [], SlotLvo(i, 6), Local, "f"), false, i)
  }

  lemma OverlappingAccepted()
    ensures Inv(Overlapping()) && WellFormed(Overlapping()) && !OffsetsDistinct(Overlapping().funcs)
  {
    var fs := Overlapping().funcs;
    assert fs[0] == OneSlot("Open", 0) && fs[4] == OneSlot("User", 4);
    NotPad("Open");
    NotPad("Close");
    NotPad("Expunge");
    NotPad("ExtFunc");
    NotPad("User");
  }

  lemma NotPad(name: string)
    requires |name| >= 4 && name[0] != '_'
    ensures !IsPad(name)
  {
    assert name[..4][0] == name[0];
  }

  // ---- coverage ----------------------------------------------------------------------------

  datatype Kind = ReservedSlot | Stub | ServerSlot | Implemented

  function KindOf(f: Function): Kind {
    if f.ordinal < RESERVED then ReservedSlot else if f.isPad then Stub
    else if f.row.flavour.Server? then ServerSlot else Implemented
  }

  function Tally(fs: seq<Function>, k: Kind): nat {
    if fs == [] then 0 else Tally(fs[..|fs| - 1], k) + if KindOf(fs[|fs| - 1]) == k then 1 else 0
  }

  datatype Coverage = Coverage(impl: nat, server: nat, stub: nat, reserved: nat, highestLvo: int, highestOrd: nat)

  /** Every row is tallied once, and the reserved ones are the first four. */
  lemma {:induction false} TalliesPartition(fs: seq<Function>)
    requires Numbered(fs)
    ensures Tally(fs, ReservedSlot) + Tally(fs, Stub) + Tally(fs, ServerSlot) + Tally(fs, Implemented) == |fs|
    ensures Tally(fs, ReservedSlot) == if |fs| < RESERVED then |fs| else RESERVED
  {
    if fs != [] {
      TalliesPartition(fs[..|fs| - 1]);
      assert Sound(fs[|fs| - 1], |fs| - 1);
    }
  }

  method CovCompute(fs: seq<Function>) returns (c: Coverage)
    ensures c.impl == Tally(fs, Implemented) && c.server == Tally(fs, ServerSlot)
    ensures c.stub == Tally(fs, Stub) && c.reserved == Tally(fs, ReservedSlot)
    ensures fs != [] ==> c.highestLvo == fs[|fs| - 1].row.lvo && c.highestOrd == fs[|fs| - 1].ordinal
    ensures fs == [] ==> c == Coverage(0, 0, 0, 0, 0, 0)
  {
    var impl, server, stub, reserved: nat := 0, 0, 0, 0;
    var i := 0;
    while i < |fs|
      invariant i <= |fs|
      invariant impl == Tally(fs[..i], Implemented) && server == Tally(fs[..i], ServerSlot)
      invariant stub == Tally(fs[..i], Stub) && reserved == Tally(fs[..i], ReservedSlot)
    {
      var f := fs[i];
      assert fs[..i + 1][..i] == fs[..i];
      if f.ordinal < RESERVED {
        reserved := reserved + 1;
      } else if f.isPad {
        stub := stub + 1;
      } else if f.row.flavour.Server? {
        server := server + 1;
      } else {
        impl := impl + 1;
      }
      i := i + 1;
    }
    assert fs[..i] == fs;
    c := Coverage(impl, server, stub, reserved, 0, 0);
    if fs != [] {
      c := c.(highestLvo := fs[|fs| - 1].row.lvo, highestOrd := fs[|fs| - 1].ordinal);
    }
  }

  lemma {:induction false} PercentFacts(done: nat, user: nat)
    requires done <= user && 0 < user
    ensures 0 <= done * 100 / user <= 100 && (done * 100 / user == 100 <==> done == user)
  {
    var q, r := Arithmetic.Divide(done * 100, user);
    if q > 100 { Arithmetic.MulMono(101, q, user); }
    if done == user { Arithmetic.DivModUnique(done * 100, user, 100, 0); }
  }

  /** The percentage of user slots with a body: full exactly when there is no stub. */
  function CovPct(c: Coverage): (pct: nat)
    ensures pct <= 100 && (pct == 100 <==> c.stub == 0)
  {
    var user := c.impl + c.server + c.stub;
    if user == 0 then 100 else PercentFacts(c.impl + c.server, user); (c.impl + c.server) * 100 / user
  }

  /** A run of stub slots, from the first to past the last. */
  datatype Run = Run(first: nat, end: nat)

  predicate IsStub(fs: seq<Function>, i: nat)
    requires i < |fs|
  {
    KindOf(fs[i]) == Stub
  }

  /** A run that cannot be made longer at either end. */
  predicate Maximal(fs: seq<Function>, r: Run) {
    && r.first < r.end <= |fs|
    && (forall i | r.first <= i < r.end :: IsStub(fs, i))
    && (r.first > 0 ==> !IsStub(fs, r.first - 1))
    && (r.end < |fs| ==> !IsStub(fs, r.end))
  }

  predicate InRun(runs: seq<Run>, i: nat) { exists k :: 0 <= k < |runs| && runs[k].first <= i < runs[k].end }

  /** The runs reported for the first n rows: maximal, in order, and missing no stub. */
  predicate Reports(fs: seq<Function>, runs: seq<Run>, n: nat)
    requires n <= |fs|
  {
    && (forall k | 0 <= k < |runs| :: Maximal(fs, runs[k]) && runs[k].end <= n)
    && (forall k, l | 0 <= k < l < |runs| :: runs[k].end < runs[l].first)
    && (forall i | 0 <= i < n && IsStub(fs, i) :: InRun(runs, i))
  }

  function Slots(runs: seq<Run>): int {
    if runs == [] then 0 else Slots(runs[..|runs| - 1]) + (runs[|runs| - 1].end - runs[|runs| - 1].first)
  }

  lemma {:induction false} TallyNone(fs: seq<Function>, n: nat)
    requires n < |fs| && !IsStub(fs, n)
    ensures Tally(fs[..n + 1], Stub) == Tally(fs[..n], Stub)
  {
    assert fs[..n + 1][..n] == fs[..n];
  }

  lemma {:induction false} TallyOne(fs: seq<Function>, n: nat)
    requires n < |fs| && IsStub(fs, n)
    ensures Tally(fs[..n + 1], Stub) == Tally(fs[..n], Stub) + 1
  {
    assert fs[..n + 1][..n] == fs[..n];
  }

  /** A maximal run that ends before a slot, but not just before a stub there. */
  lemma RunBefore(fs: seq<Function>, r: Run, n: nat)
    requires Maximal(fs, r) && r.end <= n < |fs| && IsStub(fs, n)
    ensures r.end < n
  {}

  lemma {:induction false} InRunMore(runs: seq<Run>, r: Run, i: nat)
    requires InRun(runs, i) || r.first <= i < r.end
    ensures InRun(runs + [r], i)
  {
    var more := runs + [r];
    if InRun(runs, i) {
      var k :| 0 <= k < |runs| && runs[k].first <= i < runs[k].end;
      assert more[k] == runs[k];
    } else {
      assert more[|runs|] == r;
    }
  }

  lemma {:induction false} ReportsMore(fs: seq<Function>, runs: seq<Run>, r: Run)
    requires Maximal(fs, r) && Reports(fs, runs, r.first)
    ensures Reports(fs, runs + [r], r.end) && Slots(runs + [r]) == Slots(runs) + (r.end - r.first)
  {
    var more := runs + [r];
    assert more[..|runs|] == runs;
    assert IsStub(fs, r.first);
    forall k | 0 <= k < |runs|
      ensures runs[k].end < r.first
    {
      RunBefore(fs, runs[k], r.first);
    }
    forall i | 0 <= i < r.end && IsStub(fs, i)
      ensures InRun(more, i)
    {
      InRunMore(runs, r, i);
    }
  }

  /** The inner loop: the end of the run of stubs that begins at a slot. */
  method RunEnd(fs: seq<Function>, i: nat) returns (j: nat)
    requires i < |fs| && IsStub(fs, i)
    ensures i < j <= |fs| && (forall m | i <= m < j :: IsStub(fs, m)) && (j < |fs| ==> !IsStub(fs, j))
    ensures Tally(fs[..j], Stub) == Tally(fs[..i], Stub) + (j - i)
  {
    j := i;
    while j < |fs| && fs[j].isPad && fs[j].ordinal >= RESERVED
      invariant i <= j <= |fs| && (forall m | i <= m < j :: IsStub(fs, m))
      invariant Tally(fs[..j], Stub) == Tally(fs[..i], Stub) + (j - i)
    {
      TallyOne(fs, j);
      j := j + 1;
    }
  }

  /** The collapsed stub rows of the coverage page. */
  method StubRuns(fs: seq<Function>) returns (runs: seq<Run>)
    ensures Reports(fs, runs, |fs|) && Slots(runs) == Tally(fs, Stub)
  {
    runs := [];
    var i := 0;
    while i < |fs|
      invariant i <= |fs| && Reports(fs, runs, i) && (0 < i < |fs| && IsStub(fs, i) ==> !IsStub(fs, i - 1))
      invariant Slots(runs) == Tally(fs[..i], Stub)
    {
      if fs[i].ordinal < RESERVED || !fs[i].isPad {
        TallyNone(fs, i);
        i := i + 1;
      } else {
        var j := RunEnd(fs, i);
        ReportsMore(fs, runs, Run(i, j));
        runs := runs + [Run(i, j)];
        i := j;
      }
    }
    assert fs[..i] == fs;
  }
}
