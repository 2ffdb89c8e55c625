/**
 The expression line around functions: a unary key writes its name around the last value of the line,
 which is the operand typed last, but for a parenthesis behind a power or a root.
 */
module CalcUnary {
  import opened Options
  import opened Calc
  import opened CalcEval
  import opened CalcText
  import opened CalcLine

  // ---- balanced texts -------------------------------------------------------------------------

  lemma {:induction false} ClosesConcat(a: string, b: string, n: nat)
    requires n <= |a| + |b|
    ensures Closes(a + b, n) == if n <= |a| then Closes(a, n) + Closes(b, 0) else Closes(b, n - |a|)
    decreases |a| + |b| - n
  {
    if n < |a| + |b| { ClosesConcat(a, b, n + 1); }
  }

  /** As many '(' as ')', and from no place on more of the former. */
  predicate Even(s: string) { Closes(s, 0) == 0 && forall i | 0 <= i <= |s| :: Closes(s, i) >= 0 }

  /** One parenthesis, which its last character closes. */
  predicate Enclosed(s: string) {
    s != "" && s[0] == '(' && Closes(s, 0) == 0 && forall i | 0 < i < |s| :: Closes(s, i) > 0
  }

  lemma EvenConcat(a: string, b: string)
    requires Even(a) && Even(b)
    ensures Even(a + b)
  {
    forall i | 0 <= i <= |a + b| ensures Closes(a + b, i) >= 0 { ClosesConcat(a, b, i); }
    ClosesConcat(a, b, 0);
  }

  lemma {:induction false} PlainCloses(s: string, n: nat)
    requires n <= |s| && '(' !in s && ')' !in s
    ensures Closes(s, n) == 0
    decreases |s| - n
  {
    if n < |s| {
      assert s[n] in s;
      PlainCloses(s, n + 1);
    }
  }

  lemma PlainEven(s: string)
    requires '(' !in s && ')' !in s
    ensures Even(s)
  {
    forall i | 0 <= i <= |s| ensures Closes(s, i) == 0 { PlainCloses(s, i); }
  }

  lemma EnclosedParen(s: string)
    requires Even(s)
    ensures Enclosed("(" + (s + ")")) && Even("(" + (s + ")"))
  {
    var t := s + ")";
    var all := "(" + t;
    assert Closes(")", 1) == 0 && Closes(")", 0) == 1 && Closes("(", 1) == 0 && Closes("(", 0) == -1;
    forall i | 0 <= i <= |t| ensures Closes(t, i) == if i <= |s| then Closes(s, i) + 1 else 0 {
      ClosesConcat(s, ")", i);
    }
    forall i | 0 <= i <= |all| ensures Closes(all, i) == if i == 0 then 0 else Closes(t, i - 1) {
      ClosesConcat("(", t, i);
    }
  }

  lemma {:induction false} OperandEven(o: Operand, inv: bool)
    requires SimpleOperand(o)
    ensures Even(OperandText(o, inv)) && (o.Paren? ==> Enclosed(OperandText(o, inv)))
    decreases o
  {
    match o
    case Literal(ds) =>
      assert forall c | c in Cut(ds) :: c in ds;
      PlainEven(Cut(ds));
    case Paren(c) =>
      ChainEven(c, inv);
      EnclosedParen(ChainText(c, inv));
  }

  lemma {:induction false} ChainEven(c: Chain, inv: bool)
    requires SimpleChain(c)
    ensures Even(ChainText(c, inv))
    decreases c
  {
    OperandEven(c.first, inv);
    TermsEven(c.rest, inv);
    EvenConcat(OperandText(c.first, inv), TermsText(c.rest, inv));
  }

  lemma {:induction false} TermsEven(t: Terms, inv: bool)
    requires SimpleTerms(t)
    ensures Even(TermsText(t, inv))
    decreases t
  {
    if t.More? {
      OperandEven(t.operand, inv);
      TermsEven(t.rest, inv);
      PlainEven([OpOf(t.key, inv)]);
      EvenConcat(OperandText(t.operand, inv), TermsText(t.rest, inv));
      EvenConcat([OpOf(t.key, inv)], OperandText(t.operand, inv) + TermsText(t.rest, inv));
    } else {
      PlainEven("");
    }
  }

  // ---- the last value ------------------------------------------------------------------------------

  lemma OpenOf(base: string, v: string)
    requires Enclosed(v)
    ensures var s := base + v; s[|s| - 1] == ')' && OpenBefore(s, |s| - 1, 1) == |base|
  {
    var s := base + v;
    var n := |s| - 1;
    LastCloses(v);
    assert s[n] == ')';
    ClosesFrom(base, v, 0);
    ClosesFrom(base, v, |v|);
    assert Closes(s, n) == 1 + Closes(s, n + 1);
    OpenBeforeBalances(s, n, 1);
    var r := OpenBefore(s, n, 1);
    if r > |base| { ClosesFrom(base, v, r - |base|); }
  }

  lemma ClosesFrom(base: string, v: string, i: nat)
    requires i <= |v|
    ensures Closes(base + v, |base| + i) == Closes(v, i)
  {
    ClosesConcat(base, v, |base| + i);
  }

  /** A parenthesis has more than one character. */
  lemma LastCloses(v: string)
    requires Enclosed(v)
    ensures |v| > 1 && v[|v| - 1] == ')'
  {
    assert Closes(v, |v|) == 0;
    assert Closes(v, |v| - 1) == if v[|v| - 1] == ')' then 1 else if v[|v| - 1] == '(' then -1 else 0;
  }

  lemma {:induction false} WordStartFront(base: string, v: string, n: nat)
    requires n <= |base|
    ensures WordStart(base + v, n) == WordStart(base, n)
  {
    if n > 0 && IsWordChar(base[n - 1]) { WordStartFront(base, v, n - 1); }
  }

  /** What a unary key writes around its operand: nothing before it, or a name and '('. */
  predicate Written(prefix: string) { prefix == "" || prefix[|prefix| - 1] == '(' }

  lemma WrappingWritten(action: char, inv: bool)
    ensures Written(Wrapping(action, inv).0)
  {}

  /** A parenthesis at the end of the line is wrapped by itself exactly when no word character stands in
      front of it: '^' and the r of a root count as such, and are taken along with what precedes them. */
  lemma ParenWrapped(base: string, v: string, start: int, prefix: string, suffix: string)
    requires Enclosed(v) && Written(prefix) && |base + v| + |prefix| + |suffix| <= MAX_EXPR
    ensures Wrap(Text(base + v, start), prefix, suffix).expr == base + prefix + v + suffix
      <==> prefix == "" || base == "" || !IsWordChar(base[|base| - 1])
  {
    var w := WordStart(base, |base|);
    OpenOf(base, v);
    WordStartFront(base, v, |base|);
    WrapAt(base, v, w, prefix, suffix);
    MovedExactly(base[..w], base[w..], prefix, v + suffix);
  }

  lemma WrapAt(base: string, v: string, w: nat, prefix: string, suffix: string)
    requires w <= |base|
    ensures var s := base + v; s[..w] + prefix + s[w..] + suffix == base[..w] + prefix + base[w..] + (v + suffix)
    ensures base + prefix + v + suffix == base[..w] + base[w..] + prefix + (v + suffix)
  {}

  /** A name put before a word or behind it: the same exactly when one of them is empty. */
  lemma MovedExactly(a: string, x: string, prefix: string, b: string)
    requires Written(prefix) && forall i | 0 <= i < |x| :: IsWordChar(x[i])
    ensures a + prefix + x + b == a + x + prefix + b <==> prefix == "" || x == ""
  {
    if x == "" {
      assert a + x == a && a + prefix + x == a + prefix;
    } else if prefix == "" {
      assert a + prefix == a && a + x + prefix == a + x;
    } else {
      var n := |a| + |prefix| + |x| - 1;
      assert (a + prefix + x + b)[n] == x[|x| - 1] && (a + x + prefix + b)[n] == '(';
    }
  }

  /** A text that an operand can follow: nothing, an operator or '(', and a '-' only behind a value. */
  predicate Front(base: string) {
    base == "" || EndsValue(base[|base| - 1]) ||
    (base[|base| - 1] == '-' && |base| > 1 && (IsDigitKey(base[|base| - 2]) || base[|base| - 2] == ')'))
  }

  lemma {:induction false} NumberStartDigits(base: string, v: string, n: nat)
    requires Front(base) && (forall i | 0 <= i < |v| :: IsDigitKey(v[i])) && |base| <= n <= |base + v|
    ensures NumberStart(base + v, n) == |base|
    decreases n
  {
    if n > |base| {
      assert (base + v)[n - 1] == v[n - 1 - |base|];
      NumberStartDigits(base, v, n - 1);
    } else if n > 0 {
      assert (base + v)[n - 1] == base[n - 1] && (n > 1 ==> (base + v)[n - 2] == base[n - 2]);
    }
  }

  /** A number at the end of the line is always wrapped by itself. */
  lemma NumberWrapped(base: string, v: string, start: int, prefix: string, suffix: string)
    requires Front(base) && v != "" && (forall i | 0 <= i < |v| :: IsDigitKey(v[i]))
    requires |base + v| + |prefix| + |suffix| <= MAX_EXPR
    ensures Wrap(Text(base + v, start), prefix, suffix).expr == base + prefix + v + suffix
  {
    var s := base + v;
    assert s[|s| - 1] == v[|v| - 1];
    NumberStartDigits(base, v, |s|);
    assert s[..|base|] == base && s[|base|..] == v;
  }

  /** A unary key after an operand, in any state that is ready for one: its name is written around exactly
      that operand, unless the operand is a parenthesis behind a power or a root. */
  lemma FunctionShownExactly<N>(A: Arith<N>, s: State<N>, base: string, o: Operand, k: char)
    requires SimpleOperand(o) && Blank(s, base) && Front(base) && IsUnaryKey(k)
    requires !RunState(A, s, OperandKeys(o)).m.error
    requires var w := Wrapping(k, s.mode.inv); |base + OperandText(o, s.mode.inv)| + |w.0| + |w.1| <= MAX_EXPR
    ensures var w, v := Wrapping(k, s.mode.inv), OperandText(o, s.mode.inv);
      (RunState(A, s, OperandKeys(o) + [k]).t.expr == base + w.0 + v + w.1) <==>
      (o.Literal? || w.0 == "" || base == "" || base[|base| - 1] !in "^r")
  {
    var end, v, w := RunState(A, s, OperandKeys(o)), OperandText(o, s.mode.inv), Wrapping(k, s.mode.inv);
    RunStateConcat(A, s, OperandKeys(o), [k]);
    RunStateOne(A, end, k);
    OperandShown(A, s, base, o, end);
    SimpleOperandGood(o);
    OperandPlain(o);
    ModeProjects(A, s, OperandKeys(o));
    UnaryText(A, end, base + v, k);
    WrappingWritten(k, s.mode.inv);
    OperandWrapped(base, o, s.mode.inv, w.0, w.1);
  }

  lemma OperandWrapped(base: string, o: Operand, inv: bool, prefix: string, suffix: string)
    requires SimpleOperand(o) && Front(base) && Written(prefix)
    requires |base + OperandText(o, inv)| + |prefix| + |suffix| <= MAX_EXPR
    ensures var v := OperandText(o, inv);
      (Wrap(Text(base + v, NO_START), prefix, suffix).expr == base + prefix + v + suffix) <==>
      (o.Literal? || prefix == "" || base == "" || base[|base| - 1] !in "^r")
  {
    var v := OperandText(o, inv);
    if o.Literal? {
      assert forall i | 0 <= i < |v| :: v[i] in o.keys;
      NumberWrapped(base, v, NO_START, prefix, suffix);
    } else {
      OperandEven(o, inv);
      ParenWrapped(base, v, NO_START, prefix, suffix);
    }
  }

  lemma UnaryText<N>(A: Arith<N>, s: State<N>, text: string, k: char)
    requires Shows(s, text) && IsUnaryKey(k)
    ensures PressState(A, s, k).t.expr
         == Wrap(Text(text, NO_START), Wrapping(k, s.mode.inv).0, Wrapping(k, s.mode.inv).1).expr
  {
    UnaryState(A, s, k);
    ApplyText(A, s.t, s.m, s.mode.inv, k, text);
  }

  lemma UnaryState<N>(A: Arith<N>, s: State<N>, k: char)
    requires IsUnaryKey(k)
    ensures PressState(A, s, k) == AfterUnary(A, s, k)
  {
    UnaryIsOther(k);
  }

  lemma UnaryIsOther(k: char)
    requires IsUnaryKey(k)
    ensures !IsDigitKey(k) && k != '.' && !IsBinaryKey(k) && k !in "=ESB()I"
  {}

  lemma ApplyText<N>(A: Arith<N>, t: Text, m: Machine<N>, inv: bool, k: char, text: string)
    requires m.entry != "" && text != "" && t.expr == text && |text| <= MAX_EXPR
    requires t.start == NO_START || (0 <= t.start <= |text| && text[t.start..] == m.entry)
    ensures ApplyUnary(A, t, m, inv, k).expr == Wrap(Text(text, NO_START), Wrapping(k, inv).0, Wrapping(k, inv).1).expr
  {
    SettleShown(t, m.entry, text);
  }

  /** 2P(3)N applies the sine to 3 and shows it around the power. */
  lemma SineMisplaced<N>(A: Arith<N>, mode: Mode)
    requires !mode.inv
    ensures RunState(A, State(Cleared(A), Empty(), mode), "2P(3)N").t.expr == "sin(2^(3))"
  {
    var start := State(Cleared(A), Empty(), mode);
    TwoToThe(A, mode);
    RunStateConcat(A, start, "2P", "(3)N");
    assert "2P" + "(3)N" == "2P(3)N";
    SineOfThree(A, RunState(A, start, "2P"));
  }

  lemma SineOfThree<N>(A: Arith<N>, s: State<N>)
    requires Blank(s, "2^") && !s.mode.inv && s.m.parens == []
    ensures RunState(A, s, "(3)N").t.expr == "sin(2^(3))"
  {
    var end := RunState(A, s, "(3)");
    ThreeShown(A, s, end);
    RunStateConcat(A, s, "(3)", "N");
    RunStateOne(A, end, 'N');
    assert "(3)" + "N" == "(3)N";
    UnaryText(A, end, "2^(3)", 'N');
    SineWrapped();
  }

  lemma ThreeShown<N>(A: Arith<N>, s: State<N>, end: State<N>)
    requires Blank(s, "2^") && !s.mode.inv && s.m.parens == [] && end == RunState(A, s, "(3)")
    ensures Shows(end, "2^(3)") && end.mode == s.mode
  {
    var three := Paren(Number("3"));
    DigitIsNumber('3');
    assert OperandKeys(three) == "(3)";
    assert OperandText(three, false) == "(3)" by { assert Cut("3") + "" == "3"; }
    ParenAlone(A, s);
    OperandShown(A, s, "2^", three, end);
    assert "2^" + "(3)" == "2^(3)";
    ModeProjects(A, s, "(3)");
  }

  lemma SineWrapped()
    ensures Wrap(Text("2^(3)", NO_START), "sin(", ")").expr == "sin(2^(3))"
  {
    var s := "2^(3)";
    assert OpenBefore(s, 4, 1) == OpenBefore(s, 3, 1) == 2;
    assert WordStart(s, 2) == WordStart(s, 1) == WordStart(s, 0) == 0;
    assert s[..0] == "" && s[0..] == s && "" + "sin(" + s + ")" == "sin(2^(3))";
  }

  lemma TwoToThe<N>(A: Arith<N>, mode: Mode)
    requires !mode.inv
    ensures var s := RunState(A, State(Cleared(A), Empty(), mode), "2P");
      Blank(s, "2^") && s.mode == mode && s.m.parens == []
  {
    var start := State(Cleared(A), Empty(), mode);
    var s1 := PressState(A, start, '2');
    assert "2P"[1..] == "P" && start.m.entry + ['2'] == "2";
    RunStateOne(A, s1, 'P');
    DigitShown(A, start, "", '2');
    assert "" + "2" == "2" && "2"[0..] == "2" && "2" + ['^'] == "2^";
    OperatorShown(A, s1, "2", 'P');
  }

  /** A number in a parenthesis never fails where there is room for it. */
  lemma ParenAlone<N>(A: Arith<N>, s: State<N>)
    requires !s.m.error && |s.m.parens| < MAX_PAREN_DEPTH
    ensures !RunState(A, s, "(3)").m.error
  {
    DigitIsNumber('3');
    ParenRun(A, s.m, s.mode, Number("3"));
    RunProjects(A, s, "(3)");
    assert OperandKeys(Paren(Number("3"))) == "(3)";
  }
}
