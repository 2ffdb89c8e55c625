/**
 The calculator against an evaluator of expression trees: numbers as they are typed, functions of one
 operand, left-to-right chains of operators, and parentheses. Pressing the keys of any tree and then
 '=' gives the value of the tree.
 */
module CalcEval {
  import opened Options
  import opened Arithmetic
  import opened Calc

  /** A number by the keys that type it, a parenthesis, or a unary key after its operand. */
  datatype Operand = Literal(keys: string) | Paren(chain: Chain) | Function(key: char, arg: Operand)
  datatype Chain = Chain(first: Operand, rest: Terms)
  datatype Terms = End | More(key: char, operand: Operand, rest: Terms)

  /** The keys that edit the number being typed. */
  predicate IsEditKey(k: char) { IsDigitKey(k) || k == '.' || k == 'E' || k == 'S' || k == 'B' }

  predicate GoodOperand(o: Operand) {
    match o
    case Literal(keys) => (forall k | k in keys :: IsEditKey(k)) && Typed("", keys) != ""
    case Paren(c) => GoodChain(c)
    case Function(k, arg) => IsUnaryKey(k) && GoodOperand(arg)
  }

  predicate GoodChain(c: Chain) { GoodOperand(c.first) && GoodTerms(c.rest) }

  predicate GoodTerms(t: Terms) {
    match t
    case End => true
    case More(k, o, rest) => IsBinaryKey(k) && GoodOperand(o) && GoodTerms(rest)
  }

  // ---- the keys of a tree ------------------------------------------------------------------

  function OperandKeys(o: Operand): string {
    match o
    case Literal(keys) => keys
    case Paren(c) => "(" + (ChainKeys(c) + ")")
    case Function(k, arg) => OperandKeys(arg) + [k]
  }

  function ChainKeys(c: Chain): string { OperandKeys(c.first) + TermsKeys(c.rest) }

  function TermsKeys(t: Terms): string {
    match t
    case End => ""
    case More(k, o, rest) => [k] + (OperandKeys(o) + TermsKeys(rest))
  }

  // ---- the value of a tree -------------------------------------------------------------------

  /** The number being typed after one more key. */
  function Edited(s: string, k: char): string {
    if k == '.' then DecimalEntry(s)
    else if k == 'E' then ExpEntry(s)
    else if k == 'S' then SignEntry(s)
    else if k == 'B' then BackEntry(s)
    else DigitEntry(s, k)
  }

  function Typed(s: string, keys: string): string
    decreases |keys|
  {
    if keys == "" then s else Typed(Edited(s, keys[0]), keys[1..])
  }

  /** A parenthesis and a function are rounded through the display. */
  function OperandValue<N>(A: Arith<N>, mode: Mode, o: Operand): Option<N>
    decreases o
  {
    match o
    case Literal(keys) => Some(A.parse(Typed("", keys)))
    case Paren(c) => Rounded(A, ChainValue(A, mode, c))
    case Function(k, arg) => Applied(A, mode, k, OperandValue(A, mode, arg))
  }

  function Rounded<N>(A: Arith<N>, v: Option<N>): Option<N> {
    if v.None? then None else Some(A.parse(A.format(v.value)))
  }

  function ChainValue<N>(A: Arith<N>, mode: Mode, c: Chain): Option<N>
    decreases c
  {
    TermsValue(A, mode, OperandValue(A, mode, c.first), c.rest)
  }

  /** The operators of a chain all bind alike, from the left. */
  function TermsValue<N>(A: Arith<N>, mode: Mode, lhs: Option<N>, t: Terms): Option<N>
    decreases t
  {
    match t
    case End => lhs
    case More(k, o, rest) => TermsValue(A, mode, Apply(A, lhs, OpOf(k, mode.inv), OperandValue(A, mode, o)), rest)
  }

  function Apply<N>(A: Arith<N>, lhs: Option<N>, op: char, rhs: Option<N>): Option<N> {
    if lhs.None? || rhs.None? then None else Compute(A, lhs.value, op, rhs.value)
  }

  lemma {:induction false} NoneSpreads<N>(A: Arith<N>, mode: Mode, t: Terms)
    ensures TermsValue(A, mode, None, t) == None
  {
    if t.More? { NoneSpreads(A, mode, t.rest); }
  }

  // ---- how deep a tree nests -----------------------------------------------------------------

  function OperandNesting(o: Operand): nat {
    match o
    case Literal(_) => 0
    case Paren(c) => 1 + ChainNesting(c)
    case Function(_, arg) => OperandNesting(arg)
  }

  function ChainNesting(c: Chain): nat { Max(OperandNesting(c.first), TermsNesting(c.rest)) }

  function TermsNesting(t: Terms): nat {
    if t.End? then 0 else Max(OperandNesting(t.operand), TermsNesting(t.rest))
  }

  /** A value the calculator can reach: none when the nesting is past its limit. */
  function Within<N>(depth: nat, nesting: nat, v: Option<N>): Option<N> {
    if depth + nesting > MAX_PAREN_DEPTH then None else v
  }

  // ---- the machine between keys ----------------------------------------------------------------

  /** Ready for an operand: nothing typed, and an accumulator just when an operator waits. */
  ghost predicate Ready<N>(m: Machine<N>, parens: seq<Frame<N>>) {
    && !m.error && !m.justResult && m.entry == "" && m.parens == parens && |parens| <= MAX_PAREN_DEPTH
    && (m.accumSet <==> m.op != NO_OP)
  }

  /** Holding a finished operand: the keys so far stand for v, or will turn out to have no value. */
  ghost predicate Holds<N>(A: Arith<N>, m: Machine<N>, parens: seq<Frame<N>>, v: Option<N>) {
    if m.error then v == None
    else
      && m.entry != "" && m.parens == parens && |parens| <= MAX_PAREN_DEPTH
      && (m.accumSet <==> m.op != NO_OP) && Pending(A, m) == v
  }

  /** The value of what waits in front, continued with an operand. */
  function Continued<N>(A: Arith<N>, m: Machine<N>, v: Option<N>): Option<N> {
    if m.op == NO_OP then v else Apply(A, Some(m.accum), m.op, v)
  }

  lemma {:induction false} ModeKept(mode: Mode, keys: string)
    requires 'I' !in keys
    ensures ModeRun(mode, keys) == mode
    decreases |keys|
  {
    if keys != "" {
      assert keys[0] != 'I' && 'I' !in keys[1..];
      ModeKept(mode, keys[1..]);
    }
  }

  /** Keys that neither toggle the mode nor clear. */
  predicate Plain(keys: string) { 'I' !in keys && 'C' !in keys }

  lemma {:induction false} OperandPlain(o: Operand)
    requires GoodOperand(o)
    ensures Plain(OperandKeys(o))
  {
    match o
    case Literal(_) =>
    case Paren(c) => ChainPlain(c);
    case Function(_, arg) => OperandPlain(arg);
  }

  lemma {:induction false} ChainPlain(c: Chain)
    requires GoodChain(c)
    ensures Plain(ChainKeys(c))
  {
    OperandPlain(c.first);
    TermsPlain(c.rest);
  }

  lemma {:induction false} TermsPlain(t: Terms)
    requires GoodTerms(t)
    ensures Plain(TermsKeys(t))
  {
    if t.More? {
      OperandPlain(t.operand);
      TermsPlain(t.rest);
    }
  }

  /** Two stretches of plain keys, one after the other. */
  lemma {:induction false} RunTwo<N>(A: Arith<N>, m: Machine<N>, mode: Mode, a: string, b: string)
    requires Plain(a)
    ensures Run(A, m, mode, a + b) == Run(A, Run(A, m, mode, a), mode, b)
  {
    RunConcat(A, m, mode, a, b);
    ModeKept(mode, a);
  }

  lemma {:induction false} RunOne<N>(A: Arith<N>, m: Machine<N>, mode: Mode, k: char)
    requires k != 'I'
    ensures Run(A, m, mode, [k]) == Press(A, m, mode, k)
  {
    assert [k][1..] == "";
  }

  // ---- one key ---------------------------------------------------------------------------------

  lemma {:induction false} KeysTyped<N>(A: Arith<N>, m: Machine<N>, mode: Mode, keys: string)
    requires !m.error && !m.justResult && (forall k | k in keys :: IsEditKey(k))
    ensures Run(A, m, mode, keys) == m.(entry := Typed(m.entry, keys))
    decreases |keys|
  {
    if keys != "" {
      var k := keys[0];
      assert k in keys && forall c | c in keys[1..] :: c in keys;
      assert Press(A, m, mode, k) == m.(entry := Edited(m.entry, k));
      KeysTyped(A, m.(entry := Edited(m.entry, k)), mode, keys[1..]);
    }
  }

  /** Of a run of digits the first MAX_ENTRY are the number. */
  lemma {:induction false} DigitsTyped(s: string, ds: string)
    requires |s| <= MAX_ENTRY && (forall c | c in ds :: IsDigitKey(c))
    ensures Typed(s, ds) == Cut(s + ds)
    decreases |ds|
  {
    if ds == "" {
      assert s + ds == s;
    } else {
      var d := ds[0];
      assert d in ds && forall c | c in ds[1..] :: c in ds;
      DigitsTyped(DigitEntry(s, d), ds[1..]);
      assert s + ds == s + [d] + ds[1..];
    }
  }

  function Cut(s: string): string { if |s| <= MAX_ENTRY then s else s[..MAX_ENTRY] }

  lemma OperatorPressed<N>(A: Arith<N>, m: Machine<N>, parens: seq<Frame<N>>, op: char, v: Option<N>)
    requires Holds(A, m, parens, v) && op != NO_OP
    ensures v.None? ==> Operator(A, m, op).error
    ensures v.Some? ==>
      var m' := Operator(A, m, op); Ready(m', parens) && m'.op == op && m'.accum == v.value
  {}

  lemma ClosePressed<N>(A: Arith<N>, m: Machine<N>, parens: seq<Frame<N>>, f: Frame<N>, v: Option<N>)
    requires Holds(A, m, parens + [f], v)
    ensures ParenClose(A, m).error <==> v.None?
    ensures v.Some? ==> ParenClose(A, m) == Resumed(A, parens, f, v.value)
  {
    assert (parens + [f])[..|parens|] == parens;
  }

  lemma EqualsPressed<N>(A: Arith<N>, m: Machine<N>, v: Option<N>)
    requires Holds(A, m, [], v)
    ensures v.None? ==> Equals(A, m).error
    ensures v.Some? ==> Finished(A, Equals(A, m), v.value)
  {}

  /** The display after '='. */
  ghost predicate Finished<N>(A: Arith<N>, m: Machine<N>, v: N) {
    !m.error && m.accumSet && m.accum == v && m.op == NO_OP && m.entry == A.format(v) && m.justResult && m.parens == []
  }

  // ---- whole trees -----------------------------------------------------------------------------

  /** From m the keys of an operand of value v led to m'. */
  ghost predicate Entered<N>(A: Arith<N>, m: Machine<N>, m': Machine<N>, v: Option<N>) {
    if m'.error then v == None
    else m' == m.(entry := m'.entry, justResult := m'.justResult) && m'.entry != "" && v == Some(A.parse(m'.entry))
  }

  lemma EnteredHolds<N>(A: Arith<N>, m: Machine<N>, m': Machine<N>, v: Option<N>)
    requires Ready(m, m.parens) && Entered(A, m, m', v)
    ensures Holds(A, m', m.parens, Continued(A, m, v))
  {}

  lemma {:induction false} OperandHeld<N>(A: Arith<N>, m: Machine<N>, mode: Mode, o: Operand)
    requires GoodOperand(o) && Ready(m, m.parens)
    ensures Entered(A, m, Run(A, m, mode, OperandKeys(o)),
      Within(|m.parens|, OperandNesting(o), OperandValue(A, mode, o)))
    decreases o
  {
    match o
    case Literal(keys) => KeysTyped(A, m, mode, keys);
    case Paren(c) => ParenRun(A, m, mode, c);
    case Function(k, arg) =>
      OperandHeld(A, m, mode, arg);
      OperandPlain(arg);
      FunctionHeld(A, m, mode, k, OperandKeys(arg),
                   Within(|m.parens|, OperandNesting(arg), OperandValue(A, mode, arg)));
  }

  lemma FunctionHeld<N>(A: Arith<N>, m: Machine<N>, mode: Mode, k: char, keys: string, x: Option<N>)
    requires IsUnaryKey(k) && Plain(keys) && Entered(A, m, Run(A, m, mode, keys), x)
    ensures Entered(A, m, Run(A, m, mode, keys + [k]), Applied(A, mode, k, x))
  {
    RunTwo(A, m, mode, keys, [k]);
    RunUnary(A, Run(A, m, mode, keys), mode, k);
    UnaryPressed(A, m, Run(A, m, mode, keys), mode, k, x);
  }

  lemma RunUnary<N>(A: Arith<N>, m: Machine<N>, mode: Mode, k: char)
    requires IsUnaryKey(k)
    ensures Run(A, m, mode, [k]) == Unary(A, m, mode, k)
  {
    RunOne(A, m, mode, k);
  }

  lemma UnaryPressed<N>(A: Arith<N>, m: Machine<N>, m': Machine<N>, mode: Mode, k: char, x: Option<N>)
    requires Entered(A, m, m', x)
    ensures Entered(A, m, Unary(A, m', mode, k), Applied(A, mode, k, x))
  {}

  function Applied<N>(A: Arith<N>, mode: Mode, k: char, x: Option<N>): Option<N> {
    if x.None? then None else Rounded(A, UnaryValue(A, k, mode, x.value))
  }

  /** What '(' puts aside. */
  function Suspended<N>(A: Arith<N>, m: Machine<N>): Frame<N> {
    if ImplicitMul(m) then Frame(A.parse(m.entry), true, '*') else Frame(m.accum, m.accumSet, m.op)
  }

  /** A frame taken up again with a value on the display. */
  function Resumed<N>(A: Arith<N>, parens: seq<Frame<N>>, f: Frame<N>, v: N): Machine<N> {
    Machine(A.format(v), f.accum, f.accumSet, f.op, false, true, parens)
  }

  /** A parenthesis after anything: it fails when it nests too deep or has no value, and otherwise
      resumes what was suspended. */
  lemma {:induction false} ParenRun<N>(A: Arith<N>, m: Machine<N>, mode: Mode, c: Chain)
    requires GoodChain(c) && !m.error
    ensures var r, v := Run(A, m, mode, OperandKeys(Paren(c))), ParenValue(A, |m.parens|, mode, c);
      && (r.error <==> v.None?)
      && (v.Some? ==> r == Resumed(A, m.parens, Suspended(A, m), v.value))
    decreases c, 1
  {
    var inside := ParenOpen(A, m);
    ChainPlain(c);
    ParenSteps(A, m, mode, ChainKeys(c));
    if |m.parens| >= MAX_PAREN_DEPTH {
      ErrorSticks(A, inside, mode, ChainKeys(c));
    } else {
      ChainHeld(A, inside, mode, c);
      ClosePressed(A, Run(A, inside, mode, ChainKeys(c)), m.parens, Suspended(A, m),
                   ParenValue(A, |m.parens|, mode, c));
    }
  }

  lemma ParenSteps<N>(A: Arith<N>, m: Machine<N>, mode: Mode, keys: string)
    requires Plain(keys)
    ensures Run(A, m, mode, "(" + (keys + ")")) == ParenClose(A, Run(A, ParenOpen(A, m), mode, keys))
  {
    RunOne(A, m, mode, '(');
    RunTwo(A, m, mode, "(", keys + ")");
    RunTwo(A, ParenOpen(A, m), mode, keys, ")");
    RunOne(A, Run(A, ParenOpen(A, m), mode, keys), mode, ')');
  }

  /** The value inside a parenthesis that opens at a depth. */
  function ParenValue<N>(A: Arith<N>, depth: nat, mode: Mode, c: Chain): Option<N> {
    Within(depth, 1 + ChainNesting(c), ChainValue(A, mode, c))
  }

  lemma {:induction false} ChainHeld<N>(A: Arith<N>, m: Machine<N>, mode: Mode, c: Chain)
    requires GoodChain(c) && Ready(m, m.parens) && m.op == NO_OP
    ensures Holds(A, Run(A, m, mode, ChainKeys(c)), m.parens,
      Within(|m.parens|, ChainNesting(c), ChainValue(A, mode, c)))
    decreases c, 0
  {
    OperandHeld(A, m, mode, c.first);
    EnteredHolds(A, m, Run(A, m, mode, OperandKeys(c.first)),
                 Within(|m.parens|, OperandNesting(c.first), OperandValue(A, mode, c.first)));
    OperandPlain(c.first);
    RunTwo(A, m, mode, OperandKeys(c.first), TermsKeys(c.rest));
    TermsHeld(A, Run(A, m, mode, OperandKeys(c.first)), mode, m.parens,
              OperandNesting(c.first), OperandValue(A, mode, c.first), c.rest);
  }

  /** n is the nesting of the chain so far, and v its value. */
  lemma {:induction false} TermsHeld<N>(
      A: Arith<N>, m: Machine<N>, mode: Mode, parens: seq<Frame<N>>, n: nat, v: Option<N>, t: Terms)
    requires GoodTerms(t) && Holds(A, m, parens, Within(|parens|, n, v))
    ensures Holds(A, Run(A, m, mode, TermsKeys(t)), parens,
      Within(|parens|, Max(n, TermsNesting(t)), TermsValue(A, mode, v, t)))
    decreases t
  {
    match t
    case End =>
    case More(k, o, rest) =>
      var op, keys := OpOf(k, mode.inv), OperandKeys(o);
      var m1 := Operator(A, m, op);
      OperandPlain(o);
      TermsPlain(t);
      OperatorPressed(A, m, parens, op, Within(|parens|, n, v));
      if Within(|parens|, n, v).None? {
        ErrorSticks(A, m1, mode, keys + TermsKeys(rest));
        NoneSpreads(A, mode, t);
      } else {
        OperandHeld(A, m1, mode, o);
        var m2 := Run(A, m1, mode, keys);
        EnteredHolds(A, m1, m2, Within(|parens|, OperandNesting(o), OperandValue(A, mode, o)));
        TermsHeld(A, m2, mode, parens, Max(n, OperandNesting(o)), Apply(A, v, op, OperandValue(A, mode, o)), rest);
        RunTwo(A, m1, mode, keys, TermsKeys(rest));
      }
      RunOne(A, m, mode, k);
      RunTwo(A, m, mode, [k], keys + TermsKeys(rest));
  }

  // ---- a parenthesis right behind a number -------------------------------------------------------

  /**
   A parenthesis right behind a number, in any state: where '(' supplies the missing '*' the number
   is a factor, and otherwise it is lost, as if it had never been entered.
   */
  lemma ParenAfterNumber<N>(A: Arith<N>, m: Machine<N>, mode: Mode, c: Chain)
    requires GoodChain(c) && !m.error && m.entry != ""
    ensures var r := Run(A, m, mode, OperandKeys(Paren(c)));
      var r' := Run(A, if ImplicitMul(m) then Operator(A, m, '*') else m.(entry := ""), mode, OperandKeys(Paren(c)));
      if ParenValue(A, |m.parens|, mode, c).None? then r.error && r'.error else r == r'
  {
    ParenRun(A, m, mode, c);
    ParenRun(A, if ImplicitMul(m) then Operator(A, m, '*') else m.(entry := ""), mode, c);
  }

  /**
   If it has a value, it is the same as with '*' pressed exactly when nothing at all waits in front,
   or a product waits that the number would not have changed.
   */
  lemma ParenMultipliesExactly<N>(A: Arith<N>, m: Machine<N>, mode: Mode, c: Chain)
    requires GoodChain(c) && !m.error && m.entry != "" && ParenValue(A, |m.parens|, mode, c).Some?
    ensures Run(A, m, mode, OperandKeys(Paren(c))) == Run(A, m, mode, "*" + OperandKeys(Paren(c)))
      <==> ImplicitMul(m) || (m.accumSet && m.op == '*' && A.mul(m.accum, A.parse(m.entry)) == m.accum)
  {
    var keys, times := OperandKeys(Paren(c)), Operator(A, m, '*');
    RunOne(A, m, mode, '*');
    RunTwo(A, m, mode, "*", keys);
    ParenRun(A, m, mode, c);
    if times.error {
      ChainPlain(c);
      ErrorSticks(A, times, mode, keys);
    } else {
      ParenRun(A, times, mode, c);
    }
  }

  /** After '=' a parenthesis and another '=' give the parenthesis, whatever the result before was. */
  lemma ParenAfterResult<N>(A: Arith<N>, m: Machine<N>, mode: Mode, v: N, c: Chain)
    requires GoodChain(c) && Finished(A, m, v) && ParenValue(A, 0, mode, c).Some?
    ensures Finished(A, Run(A, m, mode, OperandKeys(Paren(c)) + "="), Rounded(A, ChainValue(A, mode, c)).value)
  {
    ParenRun(A, m, mode, c);
    ChainPlain(c);
    RunTwo(A, m, mode, OperandKeys(Paren(c)), "=");
    RunOne(A, Run(A, m, mode, OperandKeys(Paren(c))), mode, '=');
  }

  /** Behind a waiting operator the parenthesis takes the place of the number. */
  lemma ParenAfterOperator<N>(A: Arith<N>, m: Machine<N>, mode: Mode, c: Chain)
    requires GoodChain(c) && ParenValue(A, 0, mode, c).Some?
    requires !m.error && m.parens == [] && m.accumSet && m.op != NO_OP
    ensures Compute(A, m.accum, m.op, Rounded(A, ChainValue(A, mode, c)).value).Some? ==>
      Run(A, m, mode, OperandKeys(Paren(c)) + "=").accum
        == Compute(A, m.accum, m.op, Rounded(A, ChainValue(A, mode, c)).value).value
  {
    ParenRun(A, m, mode, c);
    ChainPlain(c);
    RunTwo(A, m, mode, OperandKeys(Paren(c)), "=");
    RunOne(A, Run(A, m, mode, OperandKeys(Paren(c))), mode, '=');
  }

  function Number(keys: string): Chain { Chain(Literal(keys), End) }

  lemma DigitIsNumber(d: char)
    requires IsDigitKey(d)
    ensures GoodChain(Number([d])) && Typed("", [d]) == [d] && ChainKeys(Number([d])) == [d]
  {
    assert Edited("", d) == [d] by { assert "" + [d] == [d]; }
    assert Typed("", [d]) == Typed([d], "") by { assert [d][1..] == ""; }
    assert [d] + "" == [d];
  }

  /** 5=(3)= gives 3. */
  lemma FiveIsLost<N>(A: Arith<N>, mode: Mode)
    ensures Run(A, Cleared(A), mode, "5=(3)=").accum == A.parse(A.format(A.parse("3")))
  {
    DigitIsNumber('5');
    DigitIsNumber('3');
    var five, three := Number("5"), Number("3");
    KeysEvaluate(A, mode, five);
    var m := Run(A, Cleared(A), mode, "5=");
    ParenAfterResult(A, m, mode, A.parse("5"), three);
    assert OperandKeys(Paren(three)) + "=" == "(3)=";
    RunTwo(A, Cleared(A), mode, "5=", "(3)=");
    assert "5=" + "(3)=" == "5=(3)=";
  }

  lemma OnePlusTwo<N>(A: Arith<N>, mode: Mode)
    ensures Run(A, Cleared(A), mode, "1+2")
         == Cleared(A).(entry := "2", accum := A.parse("1"), accumSet := true, op := '+')
  {
    var m := Cleared(A).(accum := A.parse("1"), accumSet := true, op := '+');
    DigitIsNumber('1');
    DigitIsNumber('2');
    KeysTyped(A, Cleared(A), mode, "1");
    KeysTyped(A, m, mode, "2");
    RunOne(A, Cleared(A).(entry := "1"), mode, '+');
    RunTwo(A, Cleared(A), mode, "1", "+");
    RunTwo(A, Cleared(A), mode, "1+", "2");
    assert "1" + "+" == "1+" && "1+" + "2" == "1+2";
  }

  lemma PlusThree<N>(A: Arith<N>, m: Machine<N>, mode: Mode)
    requires !m.error && m.parens == [] && m.accumSet && m.op == '+'
    ensures Run(A, m, mode, "(3)=").accum == A.add(m.accum, A.parse(A.format(A.parse("3"))))
  {
    DigitIsNumber('3');
    ParenAfterOperator(A, m, mode, Number("3"));
    assert OperandKeys(Paren(Number("3"))) + "=" == "(3)=";
  }

  /** 1+2(3)= gives 4. */
  lemma TwoIsLost<N>(A: Arith<N>, mode: Mode)
    ensures Run(A, Cleared(A), mode, "1+2(3)=").accum == A.add(A.parse("1"), A.parse(A.format(A.parse("3"))))
  {
    OnePlusTwo(A, mode);
    RunTwo(A, Cleared(A), mode, "1+2", "(3)=");
    assert "1+2" + "(3)=" == "1+2(3)=";
    PlusThree(A, Run(A, Cleared(A), mode, "1+2"), mode);
  }

  /**
   From a cleared calculator the keys of a tree and '=' end in an error exactly when the tree nests
   more than eight deep or some operation in it fails, and otherwise leave the tree's value in the
   accumulator and on the display.
   */
  lemma {:induction false} KeysEvaluate<N>(A: Arith<N>, mode: Mode, c: Chain)
    requires GoodChain(c)
    ensures var m, v := Run(A, Cleared(A), mode, ChainKeys(c) + "="), ChainValue(A, mode, c);
      && (m.error <==> ChainNesting(c) > MAX_PAREN_DEPTH || v.None?)
      && (!m.error ==> Finished(A, m, v.value))
  {
    var m := Run(A, Cleared(A), mode, ChainKeys(c));
    ChainHeld(A, Cleared(A), mode, c);
    ChainPlain(c);
    RunTwo(A, Cleared(A), mode, ChainKeys(c), "=");
    RunOne(A, m, mode, '=');
    EqualsPressed(A, m, Within(0, ChainNesting(c), ChainValue(A, mode, c)));
  }
}
