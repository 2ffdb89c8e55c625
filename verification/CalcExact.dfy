/**
 The calculator against real arithmetic: over any numbers that stand for reals, pressing the keys of a
 tree computes what the tree says, each step rounded the way the numbers round and each parenthesis and
 function shortened the way the display does.
 */
module CalcExact {
  import opened Options
  import opened Calc
  import opened CalcEval
  import opened CalcReal
  import CalcLaws

  // ---- the real value of a tree ---------------------------------------------------------------------

  /** What the display keeps. */
  function Shown<N>(R: Reading<N>, o: Outcome): Outcome { if o.Value? then Kept(R, R.shown(o.x)) else o }

  function RealOperand<N>(R: Reading<N>, mode: Mode, o: Operand): Outcome
    decreases o
  {
    match o
    case Literal(keys) => Kept(R, R.read(Typed("", keys)))
    case Paren(c) => Shown(R, RealChain(R, mode, c))
    case Function(k, arg) =>
      var x := RealOperand(R, mode, arg);
      if x.Value? then Shown(R, RealUnary(R, k, mode, x.x)) else x
  }

  function RealChain<N>(R: Reading<N>, mode: Mode, c: Chain): Outcome
    decreases c
  {
    RealTerms(R, mode, RealOperand(R, mode, c.first), c.rest)
  }

  function RealTerms<N>(R: Reading<N>, mode: Mode, x: Outcome, t: Terms): Outcome
    decreases t
  {
    match t
    case End => x
    case More(k, o, rest) => RealTerms(R, mode, RealApply(R, mode, x, k, RealOperand(R, mode, o)), rest)
  }

  lemma {:induction false} OperandMeans<N(!new)>(A: Arith<N>, R: Reading<N>, mode: Mode, o: Operand)
    requires StandsFor(A, R) && GoodOperand(o)
    ensures Means(R, OperandValue(A, mode, o), RealOperand(R, mode, o))
    decreases o
  {
    match o
    case Literal(keys) => assert R.Gives(A.parse(Typed("", keys)), R.read(Typed("", keys)));
    case Paren(c) =>
      ChainMeans(A, R, mode, c);
      ShownMeans(A, R, ChainValue(A, mode, c), RealChain(R, mode, c));
    case Function(k, arg) =>
      var v, x := OperandValue(A, mode, arg), RealOperand(R, mode, arg);
      OperandMeans(A, R, mode, arg);
      if x.Value? {
        UnaryMeans(A, R, k, mode, v.value);
        ShownMeans(A, R, UnaryValue(A, k, mode, v.value), RealUnary(R, k, mode, x.x));
      }
  }

  lemma ShownMeans<N(!new)>(A: Arith<N>, R: Reading<N>, v: Option<N>, o: Outcome)
    requires Texts(A, R) && Means(R, v, o)
    ensures Means(R, Rounded(A, v), Shown(R, o))
  {
    if o.Value? { assert R.Gives(A.parse(A.format(v.value)), R.shown(o.x)); }
  }

  lemma {:induction false} ChainMeans<N(!new)>(A: Arith<N>, R: Reading<N>, mode: Mode, c: Chain)
    requires StandsFor(A, R) && GoodChain(c)
    ensures Means(R, ChainValue(A, mode, c), RealChain(R, mode, c))
    decreases c
  {
    OperandMeans(A, R, mode, c.first);
    TermsMean(A, R, mode, OperandValue(A, mode, c.first), RealOperand(R, mode, c.first), c.rest);
  }

  lemma {:induction false} TermsMean<N(!new)>(
      A: Arith<N>, R: Reading<N>, mode: Mode, v: Option<N>, x: Outcome, t: Terms)
    requires StandsFor(A, R) && GoodTerms(t) && Means(R, v, x)
    ensures Means(R, TermsValue(A, mode, v, t), RealTerms(R, mode, x, t))
    decreases t
  {
    if t.More? {
      var w, y := OperandValue(A, mode, t.operand), RealOperand(R, mode, t.operand);
      OperandMeans(A, R, mode, t.operand);
      if x.Value? && y.Value? { ComputeMeans(A, R, mode, v.value, t.key, w.value); }
      TermsMean(A, R, mode, Apply(A, v, OpOf(t.key, mode.inv), w), RealApply(R, mode, x, t.key, y), t.rest);
    }
  }

  /**
   The keys of any tree and '=', within the range of the numbers: an error exactly when it nests over
   eight deep or some operation in it has no real value, and otherwise the accumulator stands for the
   tree's real value.
   */
  lemma KeysCompute<N(!new)>(A: Arith<N>, R: Reading<N>, mode: Mode, c: Chain)
    requires StandsFor(A, R) && GoodChain(c) && !RealChain(R, mode, c).Beyond?
    ensures var m, o := Run(A, Cleared(A), mode, ChainKeys(c) + "="), RealChain(R, mode, c);
      && (m.error <==> ChainNesting(c) > MAX_PAREN_DEPTH || o.Undefined?)
      && (!m.error ==> m.accumSet && R.stands(m.accum) && R.value(m.accum) == o.x)
  {
    KeysEvaluate(A, mode, c);
    ChainMeans(A, R, mode, c);
  }

  // ---- powers and roots by their keys -------------------------------------------------------------

  /** Two numbers with the power key between them. */
  function PowerChain(a: string, b: string): Chain { Chain(Literal(a), More('P', Literal(b), End)) }

  /** A real that is a number. */
  predicate Keeps<N>(R: Reading<N>, x: real) { R.fits(x) && R.round(x) == x }

  /** A number typed, and kept as it is written. */
  predicate Plainly<N>(R: Reading<N>, keys: string, x: real) {
    GoodOperand(Literal(keys)) && R.read(Typed("", keys)) == x && Keeps(R, x)
  }

  /** a P n = with a whole n is a multiplied n times. */
  lemma KeysPower<N(!new)>(A: Arith<N>, R: Reading<N>, mode: Mode, a: string, b: string, x: real, n: nat)
    requires StandsFor(A, R) && !mode.inv && Plainly(R, a, x) && Plainly(R, b, n as real) && R.fits(Power(x, n))
    ensures var m := Run(A, Cleared(A), mode, a + (['P'] + b) + "=");
      !m.error && R.stands(m.accum) && R.value(m.accum) == R.round(Power(x, n))
  {
    var c := PowerChain(a, b);
    assert R.Whole(x, n);
    PowerChainKeys(a, b);
    PowerChainValue(R, mode, a, b, x, n as real);
    KeysCompute(A, R, mode, c);
  }

  /** In inverse mode a P n = is, rounded, the number whose n-th power is a, if one over n is exact. */
  lemma KeysRoot<N(!new)>(
      A: Arith<N>, R: Reading<N>, mode: Mode, a: string, b: string, x: real, n: nat, e: real, y: real)
    requires StandsFor(A, R) && mode.inv && 0 < n && Plainly(R, a, x) && Plainly(R, b, n as real)
    requires e == Over(1.0, n as real) && Keeps(R, e)
    requires y >= 0.0 && Power(y, n) == x && R.fits(y)
    ensures var m := Run(A, Cleared(A), mode, a + (['P'] + b) + "=");
      !m.error && R.stands(m.accum) && R.value(m.accum) == R.round(y)
  {
    var c := PowerChain(a, b);
    PowerSign(y, n);
    assert R.Root(x, n);
    RootUnique(R.power(x, e).x, y, n);
    PowerChainKeys(a, b);
    PowerChainValue(R, mode, a, b, x, n as real);
    KeysCompute(A, R, mode, c);
  }

  lemma PowerChainKeys(a: string, b: string)
    ensures ChainKeys(PowerChain(a, b)) == a + (['P'] + b)
  {
    var t := More('P', Literal(b), End);
    assert TermsKeys(End) == "" && b + "" == b;
    assert TermsKeys(t) == ['P'] + (OperandKeys(Literal(b)) + TermsKeys(End));
  }

  lemma PowerChainValue<N>(R: Reading<N>, mode: Mode, a: string, b: string, x: real, y: real)
    requires Plainly(R, a, x) && Plainly(R, b, y)
    ensures GoodChain(PowerChain(a, b)) && ChainNesting(PowerChain(a, b)) == 0
    ensures RealChain(R, mode, PowerChain(a, b)) == RealPower(R, x, y, mode.inv)
  {
    var t := More('P', Literal(b), End);
    assert GoodTerms(End) && TermsNesting(End) == 0;
    assert GoodTerms(t) && TermsNesting(t) == 0;
    assert RealOperand(R, mode, Literal(b)) == Value(y) && RealOperand(R, mode, Literal(a)) == Value(x);
    assert RealTerms(R, mode, Value(x), t) == RealTerms(R, mode, RealPower(R, x, y, mode.inv), End);
  }

  lemma {:induction false} PowerSign(y: real, n: nat)
    requires y >= 0.0
    ensures Power(y, n) >= 0.0
  {
    if n > 0 { PowerSign(y, n - 1); }
  }

  lemma {:induction false} PowerIncreases(y: real, z: real, n: nat)
    requires 0.0 <= y < z && 0 < n
    ensures Power(y, n) < Power(z, n)
  {
    if n == 1 {
      assert Power(y, 1) == y * Power(y, 0) && Power(z, 1) == z * Power(z, 0);
    } else {
      PowerIncreases(y, z, n - 1);
      PowerSign(y, n - 1);
      ProductIncreases(y, z, Power(y, n - 1), Power(z, n - 1));
    }
  }

  lemma ProductIncreases(a: real, b: real, p: real, q: real)
    requires 0.0 <= a < b && 0.0 <= p < q
    ensures a * p < b * q
  {
    assert a * p <= a * q && a * q < b * q;
  }

  lemma RootUnique(y: real, z: real, n: nat)
    requires y >= 0.0 && z >= 0.0 && 0 < n && Power(y, n) == Power(z, n)
    ensures y == z
  {
    if y < z { PowerIncreases(y, z, n); } else if z < y { PowerIncreases(z, y, n); }
  }

  /** a k = without a second number uses the first one twice. */
  lemma KeysRepeat<N(!new)>(A: Arith<N>, R: Reading<N>, mode: Mode, a: string, k: char, x: real)
    requires StandsFor(A, R) && Plainly(R, a, x) && IsBinaryKey(k)
    requires !RealApply(R, mode, Value(x), k, Value(x)).Beyond?
    ensures var m, o := Run(A, Cleared(A), mode, a + [k] + "="), RealApply(R, mode, Value(x), k, Value(x));
      (m.error <==> o.Undefined?) && (!m.error ==> R.stands(m.accum) && R.value(m.accum) == o.x)
  {
    var v := A.parse(Typed("", a));
    TypedMeans(A, R, a, x);
    RepeatRun(A, mode, a, k);
    ComputeMeans(A, R, mode, v, k, v);
  }

  lemma TypedMeans<N(!new)>(A: Arith<N>, R: Reading<N>, a: string, x: real)
    requires Texts(A, R) && Plainly(R, a, x)
    ensures var v := A.parse(Typed("", a)); R.stands(v) && R.value(v) == x
  {
    assert R.Gives(A.parse(Typed("", a)), R.read(Typed("", a)));
  }

  lemma RepeatRun<N>(A: Arith<N>, mode: Mode, a: string, k: char)
    requires GoodOperand(Literal(a)) && IsBinaryKey(k)
    ensures var m, v := Run(A, Cleared(A), mode, a + [k] + "="), A.parse(Typed("", a));
      var r := Compute(A, v, OpOf(k, mode.inv), v);
      (m.error <==> r.None?) && (r.Some? ==> m.accum == r.value)
  {
    var v := A.parse(Typed("", a));
    var m := Cleared(A).(accum := v, accumSet := true, op := OpOf(k, mode.inv));
    KeysTyped(A, Cleared(A), mode, a);
    OperandPlain(Literal(a));
    RunOne(A, Cleared(A).(entry := Typed("", a)), mode, k);
    RunTwo(A, Cleared(A), mode, a, [k]);
    RunTwo(A, Cleared(A), mode, a + [k], "=");
    RunOne(A, m, mode, '=');
  }

  lemma PlainDigit<N>(R: Reading<N>, d: char, x: real)
    requires IsDigitKey(d) && R.read([d]) == x && Keeps(R, x)
    ensures Plainly(R, [d], x)
  {
    DigitIsNumber(d);
  }

  lemma SmallPowers()
    ensures Power(2.0, 3) == 8.0 && Power(3.0, 2) == 9.0 && Over(1.0, 2 as real) == 0.5
  {
    assert Power(2.0, 1) == 2.0 * Power(2.0, 0) && Power(2.0, 2) == 2.0 * Power(2.0, 1);
    assert Power(3.0, 1) == 3.0 * Power(3.0, 0) && Power(3.0, 2) == 3.0 * Power(3.0, 1);
  }

  function TwoPThree(): string { ['2'] + (['P'] + ['3']) + "=" }

  /** 2P3= is 8, and I9P2= is 3. */
  lemma TwoCubed<N(!new)>(A: Arith<N>, R: Reading<N>, mode: Mode, keys: string)
    requires StandsFor(A, R) && !mode.inv && R.read("2") == 2.0 && R.read("3") == 3.0 && keys == TwoPThree()
    requires Keeps(R, 2.0) && Keeps(R, 3.0) && Keeps(R, 8.0)
    ensures !Run(A, Cleared(A), mode, keys).error && R.value(Run(A, Cleared(A), mode, keys).accum) == 8.0
  {
    PlainDigit(R, '2', 2.0);
    PlainDigit(R, '3', 3.0);
    SmallPowers();
    KeysPower(A, R, mode, ['2'], ['3'], 2.0, 3);
  }

  function NinePTwo(): string { ['9'] + (['P'] + ['2']) + "=" }

  lemma RootOfNine<N(!new)>(A: Arith<N>, R: Reading<N>, mode: Mode, keys: string)
    requires StandsFor(A, R) && !mode.inv && R.read("9") == 9.0 && R.read("2") == 2.0 && keys == NinePTwo()
    requires Keeps(R, 9.0) && Keeps(R, 2.0) && Keeps(R, 0.5) && Keeps(R, 3.0)
    ensures var m := Run(A, Cleared(A), mode, "I" + keys); !m.error && R.value(m.accum) == 3.0
  {
    NineByTwo(A, R, mode.(inv := true), keys);
    InverseRun(A, mode, keys);
  }

  lemma InverseRun<N>(A: Arith<N>, mode: Mode, keys: string)
    ensures Run(A, Cleared(A), mode, "I" + keys) == Run(A, Cleared(A), mode.(inv := !mode.inv), keys)
  {
    CalcLaws.InverseTwice(A, Cleared(A), mode, keys);
  }

  lemma NineByTwo<N(!new)>(A: Arith<N>, R: Reading<N>, mode: Mode, keys: string)
    requires StandsFor(A, R) && mode.inv && R.read("9") == 9.0 && R.read("2") == 2.0
    requires keys == NinePTwo() && Keeps(R, 9.0) && Keeps(R, 2.0) && Keeps(R, 0.5) && Keeps(R, 3.0)
    ensures !Run(A, Cleared(A), mode, keys).error && R.value(Run(A, Cleared(A), mode, keys).accum) == 3.0
  {
    PlainDigit(R, '9', 9.0);
    PlainDigit(R, '2', 2.0);
    SmallPowers();
    KeysRoot(A, R, mode, ['9'], ['2'], 9.0, 2, 0.5, 3.0);
  }

  // ---- functions by their keys ------------------------------------------------------------------------

  /** A number with keys of functions after it. */
  function FunctionChain(a: string, k: char): Chain { Chain(Function(k, Literal(a)), End) }

  /** A real that numbers and display keep as it is. */
  predicate Exact<N>(R: Reading<N>, y: real) { Keeps(R, y) && R.shown(y) == y }

  /** A function key after a number, and '='. */
  lemma KeysFunction<N(!new)>(A: Arith<N>, R: Reading<N>, mode: Mode, a: string, k: char, x: real, y: real)
    requires StandsFor(A, R) && IsUnaryKey(k) && Plainly(R, a, x) && RealUnary(R, k, mode, x) == Value(y) && Exact(R, y)
    ensures var m := Run(A, Cleared(A), mode, a + [k] + "="); !m.error && R.stands(m.accum) && R.value(m.accum) == y
  {
    var c := FunctionChain(a, k);
    FunctionChainValue(R, mode, a, k, x, y);
    KeysCompute(A, R, mode, c);
  }

  lemma FunctionChainValue<N>(R: Reading<N>, mode: Mode, a: string, k: char, x: real, y: real)
    requires IsUnaryKey(k) && Plainly(R, a, x) && RealUnary(R, k, mode, x) == Value(y) && Exact(R, y)
    ensures var c := FunctionChain(a, k);
      GoodChain(c) && ChainNesting(c) == 0 && ChainKeys(c) == a + [k] && RealChain(R, mode, c) == Value(y)
  {
    assert GoodTerms(End) && TermsNesting(End) == 0 && TermsKeys(End) == "";
    assert RealOperand(R, mode, Literal(a)) == Value(x);
    assert RealOperand(R, mode, Function(k, Literal(a))) == Value(y);
    assert OperandKeys(Function(k, Literal(a))) == a + [k] && a + [k] + "" == a + [k];
    assert OperandNesting(Literal(a)) == 0;
  }

  /** The square root's square is the number. */
  lemma KeysSquareRoot<N(!new)>(A: Arith<N>, R: Reading<N>, mode: Mode, a: string, x: real)
    requires StandsFor(A, R) && !mode.inv && Plainly(R, a, x) && x >= 0.0 && Exact(R, R.lib.sqrt(x))
    ensures var m := Run(A, Cleared(A), mode, a + "Q" + "=");
      !m.error && R.stands(m.accum) && R.value(m.accum) >= 0.0 && Times(R.value(m.accum), R.value(m.accum)) == x
  {
    assert R.lib.Rooted(x);
    KeysFunction(A, R, mode, a, 'Q', x, R.lib.sqrt(x));
  }

  /** The natural logarithm is what the exponential function takes back to the number. */
  lemma KeysLogarithm<N(!new)>(A: Arith<N>, R: Reading<N>, mode: Mode, a: string, x: real)
    requires StandsFor(A, R) && !mode.inv && Plainly(R, a, x) && x > 0.0 && Exact(R, R.lib.log(x))
    ensures var m := Run(A, Cleared(A), mode, a + "L" + "=");
      !m.error && R.stands(m.accum) && R.lib.exp(R.value(m.accum)) == x
  {
    assert R.lib.Logarithmic(x);
    KeysFunction(A, R, mode, a, 'L', x, R.lib.log(x));
  }

  function Fact(n: nat): nat { if n < 2 then 1 else n * Fact(n - 1) }

  lemma {:induction false} ProductIsFact<N>(R: Reading<N>, n: nat)
    requires forall i: nat | i <= n :: Exact(R, Fact(i) as real)
    ensures RealProduct(R, n) == Value(Fact(n) as real)
  {
    if n >= 2 {
      ProductIsFact(R, n - 1);
      assert Exact(R, Fact(n) as real);
      FactStep(n);
    }
  }

  lemma FactStep(n: nat)
    requires n >= 2
    ensures Times(Fact(n - 1) as real, n as real) == Fact(n) as real
  {
    assert (n * Fact(n - 1)) as real == n as real * Fact(n - 1) as real;
  }

  /** n F = is the factorial of n. */
  lemma KeysFactorial<N(!new)>(A: Arith<N>, R: Reading<N>, mode: Mode, a: string, n: nat)
    requires StandsFor(A, R) && n <= MAX_FACTORIAL && Plainly(R, a, n as real)
    requires forall i: nat | i <= n :: Exact(R, Fact(i) as real)
    ensures var m := Run(A, Cleared(A), mode, a + "F" + "="); !m.error && R.value(m.accum) == Fact(n) as real
  {
    FactorialValue(R, mode, n);
    KeysFunction(A, R, mode, a, 'F', n as real, Fact(n) as real);
  }

  lemma FactorialValue<N>(R: Reading<N>, mode: Mode, n: nat)
    requires n <= MAX_FACTORIAL && forall i: nat | i <= n :: Exact(R, Fact(i) as real)
    ensures RealUnary(R, 'F', mode, n as real) == Value(Fact(n) as real) && Exact(R, Fact(n) as real)
  {
    assert (n as real).Floor == n;
    ProductIsFact(R, n);
  }
}
