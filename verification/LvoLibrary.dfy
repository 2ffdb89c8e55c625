/**
 The Library record of tools/lvo-gen as it is filled in place: rows appended one at a time, and the
 validator's loops over them.
 */
module LvoLibrary {
  import opened Options
  import opened LvoText
  import opened LvoGen
  import LvoParser

  class Library {
    var fields: map<Key, string>
    var includes: seq<string>
    var bias: int
    var funcs: seq<Function>
    var errors: nat

    ghost function View(): Lib
      reads this
    {
      Lib(fields, includes, bias, funcs, errors)
    }

    constructor ()
      ensures View() == Empty()
    {
      fields, includes, bias, funcs, errors := map[], [], 0, [], 0;
    }

    method Report()
      modifies `errors
      ensures errors == old(errors) + 1
    {
      errors := errors + 1;
    }

    method ReadRow(line: string)
      modifies this
      ensures View() == AddRow(old(View()), line)
    {
      var r := LvoParser.ParseFunc(line);
      if r.None? {
        Report();
      } else {
        funcs := funcs + [Function(r.value, IsPad(r.value.name), |funcs|)];
      }
    }

    /** The loop of ##pad_run: one row at a time, each at the ordinal the table has reached. */
    method AppendPads(count: nat)
      modifies `funcs
      ensures funcs == old(funcs) + Pads(|old(funcs)|, count, bias)
    {
      ghost var was := funcs;
      var i := 0;
      assert was + Pads(|was|, 0, bias) == was;
      while i < count
        invariant i <= count && funcs == was + Pads(|was|, i, bias)
      {
        assert Pads(|was|, i + 1, bias) == Pads(|was|, i, bias) + [PadFunction(|was| + i, bias)];
        var o := |funcs|;
        var lvo := if o < RESERVED then -((o + 1) * VECTOR_SIZE) else -(bias + (o - RESERVED) * VECTOR_SIZE);
        funcs := funcs + [Function(PadRow(lvo), true, |funcs|)];
        i := i + 1;
      }
    }

    method ReadDirective(word: string, val: string)
      modifies this
      ensures View() == Directive(old(View()), word, val)
    {
      if val == [] {
        Report();
      } else if KeyOf(word).Some? {
        fields := fields[KeyOf(word).value := val];
      } else if word == "include" {
        includes := includes + [val];
      } else if word == "bias" {
        var b := Positive(val);
        if b.None? || b.value % VECTOR_SIZE != 0 { Report(); } else { bias := ToInt(b.value); }
      } else if word == "pad_run" {
        var n := Positive(val);
        if bias == 0 || n.None? { Report(); } else { AppendPads(n.value); }
      } else {
        Report();
      }
    }

    method ReadLine(line: string)
      modifies this
      ensures View() == Feed(old(View()), line)
    {
      if line == [] { return; }
      if line[0] != '#' {
        ReadRow(line);
      } else if |line| > 1 && line[1] == '#' {
        var p := LvoParser.SkipBlanks(line[2..]);
        var id := LvoParser.ReadIdent(p);
        if id.None? {
          Report();
        } else {
          var n := LvoParser.Scan(id.value.1, White);
          var val := LvoParser.TrimEnd(id.value.1[n..]);
          ReadDirective(id.value.0, val);
        }
      }
    }

    /** parse_conf, on the trimmed lines of the file. */
    method ReadAll(lines: seq<string>) returns (ok: bool)
      modifies this
      ensures View() == FeedAll(old(View()), lines) && ok == (errors == 0)
    {
      var i := 0;
      assert lines[0..] == lines;
      while i < |lines|
        invariant i <= |lines| && FeedAll(View(), lines[i..]) == FeedAll(old(View()), lines)
      {
        assert lines[i..][1..] == lines[i + 1..];
        ReadLine(lines[i]);
        i := i + 1;
      }
      ok := errors == 0;
    }

    // ---- validate ---------------------------------------------------------------------

    method CheckFields()
      modifies `errors
      ensures errors >= old(errors) && (errors == old(errors) <==> FieldsPresent(old(View())))
    {
      if LibraryName !in fields { Report(); }
      if Base !in fields { Report(); }
      if BaseType !in fields { Report(); }
      if Owner !in fields { Report(); }
      if Spdx !in fields { Report(); }
      if bias == 0 { Report(); }
    }

    method CheckReserved()
      requires |funcs| >= RESERVED
      modifies `errors
      ensures errors >= old(errors) && (errors == old(errors) <==> NamesReserved(funcs))
    {
      ghost var was := errors;
      var i := 0;
      while i < 3
        invariant 0 <= i <= 3 && errors >= was
        invariant errors == was <==> (forall k | 0 <= k < i :: funcs[k].row.name == ReservedName(k))
      {
        if funcs[i].row.name != ReservedName(i) { Report(); }
        i := i + 1;
      }
      if funcs[3].row.name != "ExtFunc" && !IsPad(funcs[3].row.name) { Report(); }
    }

    /** The two loops over the offsets, of the reserved slots and of the user slots. */
    method CheckOffsets(from: nat, to: nat)
      requires from <= to <= |funcs|
      modifies `errors
      ensures errors >= old(errors)
      ensures errors == old(errors) <==> PlacedIn(funcs, bias, from, to)
    {
      ghost var was := errors;
      var o := from;
      while o < to
        invariant from <= o <= to && errors >= was
        invariant errors == was <==> PlacedIn(funcs, bias, from, o)
      {
        assert PlacedIn(funcs, bias, from, o + 1)
          <==> PlacedIn(funcs, bias, from, o) && funcs[o].row.lvo == SlotLvo(o, bias);
        if funcs[o].row.lvo != SlotLvo(o, bias) { Report(); }
        o := o + 1;
      }
    }

    method CheckNamesAfter(i: nat)
      requires i < |funcs|
      modifies `errors
      ensures errors >= old(errors)
      ensures errors == old(errors) <==> (forall j | i < j < |funcs| :: !Clash(funcs, i, j))
    {
      if funcs[i].isPad || funcs[i].ordinal < RESERVED { return; }
      ghost var was := errors;
      var j := i + 1;
      while j < |funcs|
        invariant i < j <= |funcs| && errors >= was
        invariant errors == was <==> (forall k | i < k < j :: !Clash(funcs, i, k))
      {
        assert (forall k | i < k < j + 1 :: !Clash(funcs, i, k))
          <==> (forall k | i < k < j :: !Clash(funcs, i, k)) && !Clash(funcs, i, j);
        if !funcs[j].isPad && funcs[i].row.name == funcs[j].row.name { Report(); }
        j := j + 1;
      }
    }

    method CheckNames()
      modifies `errors
      ensures errors >= old(errors) && (errors == old(errors) <==> NamesUnique(funcs))
    {
      ghost var was := errors;
      var i := 0;
      while i < |funcs|
        invariant i <= |funcs| && errors >= was
        invariant errors == was <==> (forall k, l | 0 <= k < i && k < l < |funcs| :: !Clash(funcs, k, l))
      {
        CheckNamesAfter(i);
        i := i + 1;
      }
    }

    /** A library gets through reading and validation without a diagnostic exactly when it is well formed. */
    method Validate()
      modifies `errors
      ensures errors == 0 <==> old(errors) == 0 && WellFormed(old(View()))
    {
      CheckFields();
      if errors > 0 { return; }
      if |funcs| < RESERVED {
        Report();
        return;
      }
      CheckReserved();
      CheckOffsets(0, RESERVED);
      CheckOffsets(RESERVED, |funcs|);
      CheckNames();
      assert Placed(funcs, bias) <==> PlacedIn(funcs, bias, 0, RESERVED) && PlacedIn(funcs, bias, RESERVED, |funcs|);
    }
  }

  /** Loading a description: what every library that loads guarantees. */
  method Load(lines: seq<string>) returns (lib: Library, ok: bool)
    ensures fresh(lib) && Inv(lib.View())
    ensures ok <==> FeedAll(Empty(), lines).errors == 0 && WellFormed(FeedAll(Empty(), lines))
    ensures ok ==> lib.View() == FeedAll(Empty(), lines) && WellFormed(lib.View())
  {
    lib := new Library();
    var clean := lib.ReadAll(lines);
    FeedAllKeeps(Empty(), lines);
    if clean {
      lib.Validate();
    }
    ok := lib.errors == 0;
  }
}
