/**
 Laws of the AmiCalc keys that hold in every state, whatever the numbers are: what a second operator, a
 leading operator, C and backspace do, and which texts the editing keys can make.
 */
module CalcLaws {
  import opened Calc
  import opened CalcEval

  /** An operator right behind another takes its place. */
  lemma OperatorReplaces<N>(A: Arith<N>, m: Machine<N>, first: char, second: char)
    ensures Operator(A, Operator(A, m, first), second) == Operator(A, m, second)
  {}

  /** An operator with nothing in front of it has a zero in front of it. */
  lemma OperatorLeads<N>(A: Arith<N>, op: char)
    ensures Operator(A, Cleared(A), op) == Operator(A, Cleared(A).(entry := "0"), op).(accum := A.zero)
  {}

  /** After C everything is as from a new calculator, errors and open parentheses included. */
  lemma ClearRestarts<N>(A: Arith<N>, m: Machine<N>, mode: Mode, keys: string)
    ensures Run(A, m, mode, "C" + keys) == Run(A, Cleared(A), mode, keys)
  {
    RunConcat(A, m, mode, "C", keys);
    RunOne(A, m, mode, 'C');
    assert "C"[1..] == "";
  }

  /** Two presses of the inverse key are none. */
  lemma InverseTwice<N>(A: Arith<N>, m: Machine<N>, mode: Mode, keys: string)
    ensures Run(A, m, mode, "I" + keys) == Run(A, m, mode.(inv := !mode.inv), keys)
    ensures Run(A, m, mode, "II" + keys) == Run(A, m, mode, keys)
  {
    assert ("I" + keys)[0] == 'I' && ("I" + keys)[1..] == keys;
    assert ("II" + keys)[0] == 'I' && ("II" + keys)[1..] == "I" + keys;
    assert Run(A, m, mode, "II" + keys) == Run(A, m, mode.(inv := !mode.inv), "I" + keys);
  }

  /** Digits typed on a result begin a new number. */
  lemma ResultLeft<N>(A: Arith<N>, m: Machine<N>, mode: Mode, ds: string)
    requires !m.error && m.justResult && ds != "" && forall c | c in ds :: IsDigitKey(c)
    ensures Run(A, m, mode, ds) == m.(entry := Cut(ds), justResult := false)
  {
    var d := ds[0];
    assert d in ds && forall c | c in ds[1..] :: c in ds;
    assert "" + [d] == [d] && [d] + ds[1..] == ds;
    KeysTyped(A, m.(entry := [d], justResult := false), mode, ds[1..]);
    DigitsTyped([d], ds[1..]);
  }

  /** A function of a finished accumulator shows what it would show for an entry that reads the same, and
      keeps its value. */
  lemma AccumulatorAsEntry<N>(A: Arith<N>, m: Machine<N>, mode: Mode, k: char, e: string)
    requires !m.error && m.entry == "" && m.accumSet && m.op == NO_OP && e != "" && A.parse(e) == m.accum
    ensures var a, b := Unary(A, m, mode, k), Unary(A, m.(entry := e), mode, k);
      (a.error <==> b.error) && (!a.error ==> a == b.(accum := a.accum) && A.format(a.accum) == a.entry)
  {}

  /** Backspace takes back the digit before it. */
  lemma DigitErased<N>(m: Machine<N>, d: char)
    requires !m.error && |Fresh(m).entry| < MAX_ENTRY
    ensures Backspace(Digit(m, d)) == Fresh(m)
  {
    assert (Fresh(m).entry + [d])[..|Fresh(m).entry|] == Fresh(m).entry;
  }

  /** It takes back a point and an exponent behind digits too. */
  lemma MarkErased(s: string)
    requires s != "" && s != "-" && |s| < MAX_ENTRY
    ensures !HasExp(s) && !HasDecimal(s) ==> BackEntry(DecimalEntry(s)) == s
    ensures !HasExp(s) ==> BackEntry(ExpEntry(s)) == s
  {
    assert (s + ".")[..|s|] == s && (s + "e")[..|s|] == s;
  }

  // ---- the texts that can be typed -----------------------------------------------------------------

  /** Where a reader stands in a decimal numeral: before it, after its sign, in its whole part, behind its
      point, behind the e, behind the exponent's sign, in the exponent; or in no numeral at all. */
  datatype Place = Before | Signed | Whole | Point | Mark | MarkSigned | Power | Nowhere

  function Onward(p: Place, c: char): Place {
    if IsDigitKey(c) then
      match p
      case Before => Whole
      case Signed => Whole
      case Mark => Power
      case MarkSigned => Power
      case _ => p
    else if c == '-' then (if p.Before? then Signed else if p.Mark? then MarkSigned else Nowhere)
    else if c == '.' then (if p.Whole? then Point else Nowhere)
    else if c == 'e' then (if p.Whole? || p.Point? then Mark else Nowhere)
    else Nowhere
  }

  function Read(p: Place, s: string): Place { if s == "" then p else Onward(Read(p, s[..|s| - 1]), s[|s| - 1]) }

  /** The beginning of a decimal numeral: an optional '-', digits, at most one point behind digits, at most
      one e, and behind that an optional '-' and digits. */
  predicate IsNumeral(s: string) { Read(Before, s) != Nowhere }

  lemma ReadSnoc(p: Place, s: string, c: char)
    ensures Read(p, s + [c]) == Onward(Read(p, s), c)
  {
    assert (s + [c])[..|s|] == s;
  }

  lemma {:induction false} ReadConcat(p: Place, a: string, b: string)
    ensures Read(p, a + b) == Read(Read(p, a), b)
  {
    if b == "" {
      assert a + b == a;
    } else {
      var front := b[..|b| - 1];
      ReadConcat(p, a, front);
      assert (a + b)[..|a + b| - 1] == a + front;
    }
  }

  lemma {:induction false} NowhereStays(s: string)
    ensures Read(Nowhere, s) == Nowhere
  {
    if s != "" { NowhereStays(s[..|s| - 1]); }
  }

  /** What the place tells of the text read: whether there was an e, and if not whether there was a point. */
  lemma {:induction false} PlaceTells(s: string)
    requires IsNumeral(s)
    ensures var p := Read(Before, s);
      && (HasExp(s) <==> p.Mark? || p.MarkSigned? || p.Power?)
      && (!HasExp(s) ==> ('.' in s <==> p.Point?))
      && (p.Before? <==> s == "") && (p.Signed? <==> s == "-") && 'E' !in s && '+' !in s
  {
    if s != "" {
      var front, c := s[..|s| - 1], s[|s| - 1];
      PlaceTells(front);
      assert s == front + [c];
    }
  }

  lemma {:induction false} DecimalIsPoint(s: string)
    requires !HasExp(s)
    ensures HasDecimal(s) <==> '.' in s
  {
    if s != "" {
      assert !HasExp(s[1..]) by { assert forall c | c in s[1..] :: c in s; }
      DecimalIsPoint(s[1..]);
      assert s == [s[0]] + s[1..];
    }
  }

  lemma DigitNumeral(s: string, d: char)
    requires IsNumeral(s) && IsDigitKey(d)
    ensures IsNumeral(DigitEntry(s, d))
  {
    ReadSnoc(Before, s, d);
  }

  lemma PointNumeral(s: string)
    requires IsNumeral(s)
    ensures IsNumeral(DecimalEntry(s))
  {
    PlaceTells(s);
    if !HasExp(s) {
      DecimalIsPoint(s);
      ReadSnoc(Before, s, '.');
      ZeroNumeral();
      ReadSnoc(Before, "0", '.');
      ReadSnoc(Before, "-0", '.');
      assert "0" + ['.'] == "0." && "-0" + ['.'] == "-0.";
    }
  }

  lemma ExpNumeral(s: string)
    requires IsNumeral(s)
    ensures IsNumeral(ExpEntry(s))
  {
    PlaceTells(s);
    ZeroNumeral();
    ReadSnoc(Before, s, 'e');
    ReadSnoc(Before, "0", 'e');
    ReadSnoc(Before, "-0", 'e');
    assert "0" + ['e'] == "0" + "e" && "-0" + ['e'] == "-0" + "e";
  }

  lemma ZeroNumeral()
    ensures Read(Before, "0") == Whole && Read(Before, "-0") == Whole && Read(Before, "-") == Signed
  {
    ReadSnoc(Before, "", '0');
    ReadSnoc(Before, "-", '0');
    ReadSnoc(Before, "", '-');
    assert "" + ['0'] == "0" && "-" + ['0'] == "-0" && "" + ['-'] == "-";
  }

  lemma ReadOne(p: Place, s: string)
    requires |s| == 1
    ensures Read(p, s) == Onward(p, s[0])
  {
    assert s[..0] == "";
  }

  /** Behind a place where a sign may stand, a text without one reads the same with it. */
  lemma {:induction false} SignAside(p: Place, b: string)
    requires (p.Before? || p.Mark?) && b != "" && b[0] != '-'
    ensures Read(p, b) == Read(Onward(p, '-'), b)
  {
    if |b| == 1 {
      ReadOne(p, b);
      ReadOne(Onward(p, '-'), b);
    } else {
      SignAside(p, b[..|b| - 1]);
    }
  }

  /** A numeral parts at its sign's place, where a sign may stand. */
  lemma SignPlaceReads(s: string, a: string, b: string)
    requires IsNumeral(s) && s == a + b && |a| == SignPlace(s)
    ensures var p := Read(Before, a); (p.Before? || p.Mark?) && Read(p, b) != Nowhere
  {
    ReadConcat(Before, a, b);
    PlaceTells(s);
    if a != "" {
      assert a[|a| - 1] == s[|a| - 1] == 'e';
      MarkOrNowhere(a);
      NowhereStays(b);
    }
  }

  lemma MarkOrNowhere(a: string)
    requires a != "" && a[|a| - 1] == 'e'
    ensures Read(Before, a) == Mark || Read(Before, a) == Nowhere
  {}

  lemma SignNumeral(s: string)
    requires IsNumeral(s)
    ensures IsNumeral(SignEntry(s))
  {
    if s == "" {
      ZeroNumeral();
    } else {
      var i := SignPlace(s);
      var a, b := s[..i], s[i..];
      var p := Read(Before, a);
      SplitAt(s, i);
      SignPlaceReads(s, a, b);
      PlaceTells(s);
      SignTurned(a, b, p);
    }
  }

  lemma SignTurned(a: string, b: string, p: Place)
    requires p == Read(Before, a) && (p.Before? || p.Mark?) && Read(p, b) != Nowhere && '+' !in b
    requires a + b != "" && SignPlace(a + b) == |a|
    ensures IsNumeral(SignEntry(a + b))
  {
    ReadConcat(Before, a, b);
    if b != "" && b[0] == '-' {
      var rest := b[1..];
      assert b == ['-'] + rest;
      SignRemoved(a, rest);
      ReadConcat(Before, a, rest);
      ReadSign(p, rest);
    } else {
      SignAdded(a, b);
      ReadConcat(Before, a, ['-'] + b);
      ReadSign(p, b);
    }
  }

  /** A sign read, and the rest with it or without. */
  lemma ReadSign(p: Place, rest: string)
    requires p.Before? || p.Mark?
    ensures Read(p, ['-'] + rest) == Read(Onward(p, '-'), rest)
    ensures Read(p, ['-'] + rest) != Nowhere ==> Read(p, rest) != Nowhere
    ensures Read(p, rest) != Nowhere && (rest == "" || rest[0] != '-') ==> Read(p, ['-'] + rest) != Nowhere
  {
    ReadConcat(p, ['-'], rest);
    ReadSnoc(p, "", '-');
    assert "" + ['-'] == ['-'];
    if rest != "" {
      if rest[0] != '-' {
        SignAside(p, rest);
      } else {
        ReadConcat(Onward(p, '-'), ['-'], rest[1..]);
        ReadSnoc(Onward(p, '-'), "", '-');
        NowhereStays(rest[1..]);
        assert rest == ['-'] + rest[1..];
      }
    }
  }

  lemma BackNumeral(s: string)
    requires IsNumeral(s)
    ensures IsNumeral(BackEntry(s))
  {}

  /** Whatever editing keys are pressed, what is typed is the beginning of a decimal numeral. */
  lemma {:induction false} TypedNumeral(s: string, keys: string)
    requires IsNumeral(s) && forall k | k in keys :: IsEditKey(k)
    ensures IsNumeral(Typed(s, keys))
    decreases |keys|
  {
    if keys != "" {
      var k := keys[0];
      assert k in keys && forall c | c in keys[1..] :: c in keys;
      EditedNumeral(s, k);
      TypedNumeral(Edited(s, k), keys[1..]);
    }
  }

  lemma EditedNumeral(s: string, k: char)
    requires IsNumeral(s) && IsEditKey(k)
    ensures IsNumeral(Edited(s, k))
  {
    if k == '.' {
      PointNumeral(s);
    } else if k == 'E' {
      ExpNumeral(s);
    } else if k == 'S' {
      SignNumeral(s);
    } else if k == 'B' {
      BackNumeral(s);
    } else {
      DigitNumeral(s, k);
    }
  }
}
