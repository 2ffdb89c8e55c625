/**
 Numbers that stand for reals: what AmiCalc's operators and functions compute with them, against real
 arithmetic. Every step is rounded the way the numbers round; nothing is said of what goes beyond their
 range.
 */
module CalcReal {
  import opened Options
  import opened Arithmetic
  import opened Calc

  /** A real, nothing at all (a division by zero, a power that is no real), or something out of range. */
  datatype Outcome = Value(x: real) | Undefined | Beyond

  function Times(x: real, y: real): real { x * y }

  function Over(x: real, y: real): real
    requires y != 0.0
  {
    x / y
  }

  /** The functions of real numbers that the C library stands for. */
  datatype Library = Library(
    exp: real -> real, log: real -> real, sqrt: real -> real, sin: real -> real, cos: real -> real, tan: real -> real,
    asin: real -> real, acos: real -> real, atan: real -> real, pi: real)
  {
    /** The logarithm undoes the exponential function, which is positive. */
    ghost predicate Logarithmic(x: real) { exp(x) > 0.0 && log(exp(x)) == x && (x > 0.0 ==> exp(log(x)) == x) }

    ghost predicate Rooted(x: real) { x >= 0.0 ==> sqrt(x) >= 0.0 && Times(sqrt(x), sqrt(x)) == x }

    ghost predicate Circular(x: real) {
      && Times(sin(x), sin(x)) + Times(cos(x), cos(x)) == 1.0 && (cos(x) != 0.0 ==> tan(x) == Over(sin(x), cos(x)))
      && (-1.0 <= x <= 1.0 ==> sin(asin(x)) == x && cos(acos(x)) == x) && tan(atan(x)) == x
    }

    /** What tells them apart. */
    ghost predicate Laws() {
      && (forall x :: Logarithmic(x)) && (forall x :: Rooted(x)) && (forall x :: Circular(x))
      && pi > 0.0 && sin(0.0) == 0.0 && cos(0.0) == 1.0 && cos(pi) == -1.0
    }
  }

  /**
   Which numbers stand for reals and for which; the decimal that a text spells; what the display keeps
   of a real; the power of a base and an exponent, and the other functions; the range of the numbers,
   and the real a real in it is rounded to.
   */
  datatype Reading<!N> = Reading(
    stands: N -> bool, value: N -> real, read: string -> real, shown: real -> real,
    power: (real, real) -> Outcome, lib: Library, fits: real -> bool, round: real -> real)
  {
    /** n is what the real x becomes, if that is in range. */
    predicate Gives(n: N, x: real) { fits(x) ==> stands(n) && value(n) == round(x) }

    /** A whole exponent multiplies the base with itself. */
    ghost predicate Whole(x: real, n: nat) { power(x, n as real) == Value(Power(x, n)) }

    /** One over a whole exponent takes the root of a base that is not negative. */
    ghost predicate Root(x: real, n: nat)
      requires 0 < n
    {
      var p := power(x, Over(1.0, n as real)); p.Value? && p.x >= 0.0 && Power(p.x, n) == x
    }

    /** The power is the power: these two facts tell base and exponent apart. */
    ghost predicate Powers() {
      (forall x, n: nat :: Whole(x, n)) && (forall x, n: nat | x >= 0.0 && 0 < n :: Root(x, n))
    }
  }

  /** x multiplied n times. */
  function Power(x: real, n: nat): real { if n == 0 then 1.0 else x * Power(x, n - 1) }

  ghost predicate Sums<N(!new)>(A: Arith<N>, R: Reading<N>) {
    && (forall a, b | R.stands(a) && R.stands(b) :: R.Gives(A.add(a, b), R.value(a) + R.value(b)))
    && (forall a, b | R.stands(a) && R.stands(b) :: R.Gives(A.sub(a, b), R.value(a) - R.value(b)))
  }

  ghost predicate Products<N(!new)>(A: Arith<N>, R: Reading<N>) {
    && (forall a, b | R.stands(a) && R.stands(b) :: R.Gives(A.mul(a, b), Times(R.value(a), R.value(b))))
    && (forall a, b | R.stands(a) && R.stands(b) && R.value(b) != 0.0 ::
          R.Gives(A.div(a, b), Over(R.value(a), R.value(b))))
  }

  ghost predicate Zeros<N(!new)>(A: Arith<N>, R: Reading<N>) {
    forall a | R.stands(a) :: A.isZero(a) <==> R.value(a) == 0.0
  }

  ghost predicate PowersAndRoots<N(!new)>(A: Arith<N>, R: Reading<N>) {
    && R.Powers()
    && (forall a | R.stands(a) :: !A.isNaN(a))
    && (forall a, b | R.stands(a) && R.stands(b) :: PowerGives(A, R, a, b))
    && (forall a | R.stands(a) && R.value(a) != 0.0 :: R.Gives(A.inverse(a), Over(1.0, R.value(a))))
  }

  /** pow(a, b) is the power of the base a and the exponent b. */
  predicate PowerGives<N>(A: Arith<N>, R: Reading<N>, a: N, b: N) {
    match R.power(R.value(a), R.value(b))
    case Value(x) => R.Gives(A.pow(a, b), x)
    case Undefined => A.isNaN(A.pow(a, b))
    case Beyond => true
  }

  ghost predicate Texts<N(!new)>(A: Arith<N>, R: Reading<N>) {
    && (forall s :: R.Gives(A.parse(s), R.read(s)))
    && (forall a | R.stands(a) :: R.Gives(A.parse(A.format(a)), R.shown(R.value(a))))
  }

  /** Comparisons and casts, and that whole numbers of up to three digits as the code writes them are exact. */
  ghost predicate Casts<N(!new)>(A: Arith<N>, R: Reading<N>) {
    && R.stands(A.zero) && R.value(A.zero) == 0.0
    && (forall a, b | R.stands(a) && R.stands(b) :: A.less(a, b) <==> R.value(a) < R.value(b))
    && (forall a, b | R.stands(a) && R.stands(b) :: A.same(a, b) <==> R.value(a) == R.value(b))
    && (forall n | -180 <= n <= 180 :: R.stands(A.of(n)) && R.value(A.of(n)) == n as real)
    && (forall a | R.stands(a) && 0.0 <= R.value(a) < LONG_LIMIT :: A.trunc(a) == R.value(a).Floor)
  }

  const LONG_LIMIT: real := 9223372036854775808.0

  ghost predicate Logarithms<N(!new)>(A: Arith<N>, R: Reading<N>) {
    && (forall a | R.stands(a) :: R.Gives(A.exp(a), R.lib.exp(R.value(a))))
    && (forall a | R.stands(a) && R.value(a) > 0.0 :: R.Gives(A.log(a), R.lib.log(R.value(a))))
    && (forall a | R.stands(a) && R.value(a) >= 0.0 :: R.Gives(A.sqrt(a), R.lib.sqrt(R.value(a))))
  }

  ghost predicate Angles<N(!new)>(A: Arith<N>, R: Reading<N>) {
    && R.Gives(A.pi, R.lib.pi)
    && (forall a | R.stands(a) :: R.Gives(A.sin(a), R.lib.sin(R.value(a))) && R.Gives(A.cos(a), R.lib.cos(R.value(a))))
    && (forall a | R.stands(a) && R.lib.cos(R.value(a)) != 0.0 :: R.Gives(A.tan(a), R.lib.tan(R.value(a))))
    && (forall a | R.stands(a) && -1.0 <= R.value(a) <= 1.0 ::
          R.Gives(A.asin(a), R.lib.asin(R.value(a))) && R.Gives(A.acos(a), R.lib.acos(R.value(a))))
    && (forall a | R.stands(a) :: R.Gives(A.atan(a), R.lib.atan(R.value(a))))
  }

  ghost predicate StandsFor<N(!new)>(A: Arith<N>, R: Reading<N>) {
    && Sums(A, R) && Products(A, R) && Zeros(A, R) && PowersAndRoots(A, R) && Texts(A, R)
    && R.lib.Laws() && Casts(A, R) && Logarithms(A, R) && Angles(A, R)
  }

  // ---- the operators --------------------------------------------------------------------------------

  function Kept<N>(R: Reading<N>, x: real): Outcome { if R.fits(x) then Value(R.round(x)) else Beyond }

  /** What a real outcome becomes. */
  function KeptOutcome<N>(R: Reading<N>, o: Outcome): Outcome { if o.Value? then Kept(R, o.x) else o }

  /** The power of x by y, or in inverse mode the y-th root of x: the power by one over y. */
  function RealPower<N>(R: Reading<N>, x: real, y: real, root: bool): Outcome {
    if !root then KeptOutcome(R, R.power(x, y))
    else if y == 0.0 then Undefined
    else
      var e := Kept(R, Over(1.0, y));
      if e.Value? then KeptOutcome(R, R.power(x, e.x)) else e
  }

  /** The key k between two reals. */
  function RealApply<N>(R: Reading<N>, mode: Mode, x: Outcome, k: char, y: Outcome): Outcome {
    if x.Beyond? || y.Beyond? then Beyond
    else if x.Undefined? || y.Undefined? then Undefined
    else
      match k
      case '+' => Kept(R, x.x + y.x)
      case '-' => Kept(R, x.x - y.x)
      case '*' => Kept(R, Times(x.x, y.x))
      case 'P' => RealPower(R, x.x, y.x, mode.inv)
      case _ => if y.x == 0.0 then Undefined else Kept(R, Over(x.x, y.x))
  }

  /** A number stands for the real, and there is none where the real is undefined. */
  predicate Means<N>(R: Reading<N>, v: Option<N>, o: Outcome) {
    match o
    case Value(x) => v.Some? && R.stands(v.value) && R.value(v.value) == x
    case Undefined => v.None?
    case Beyond => true
  }

  /** compute_op, by the key and the mode that select the operation: a division by zero, a root of order
      zero and a power that is no real fail, and everything else is the real operation, rounded. */
  lemma ComputeMeans<N(!new)>(A: Arith<N>, R: Reading<N>, mode: Mode, a: N, k: char, b: N)
    requires StandsFor(A, R) && IsBinaryKey(k) && R.stands(a) && R.stands(b)
    ensures Means(R, Compute(A, a, OpOf(k, mode.inv), b), RealApply(R, mode, Value(R.value(a)), k, Value(R.value(b))))
  {
    if k == '+' || k == '-' {
      SumMeans(A, R, mode, a, k, b);
    } else if k == 'P' {
      PowerMeans(A, R, mode, a, b);
    } else {
      ProductMeans(A, R, mode, a, k, b);
    }
  }

  lemma PowerMeans<N(!new)>(A: Arith<N>, R: Reading<N>, mode: Mode, a: N, b: N)
    requires PowersAndRoots(A, R) && Zeros(A, R) && R.stands(a) && R.stands(b)
    ensures Means(R, Compute(A, a, OpOf('P', mode.inv), b),
                  RealApply(R, mode, Value(R.value(a)), 'P', Value(R.value(b))))
  {
    if !mode.inv {
      assert PowerGives(A, R, a, b);
    } else if R.value(b) != 0.0 {
      assert R.Gives(A.inverse(b), Over(1.0, R.value(b)));
      if R.fits(Over(1.0, R.value(b))) { assert PowerGives(A, R, a, A.inverse(b)); }
    }
  }

  lemma SumMeans<N(!new)>(A: Arith<N>, R: Reading<N>, mode: Mode, a: N, op: char, b: N)
    requires Sums(A, R) && (op == '+' || op == '-') && R.stands(a) && R.stands(b)
    ensures Means(R, Compute(A, a, op, b), RealApply(R, mode, Value(R.value(a)), op, Value(R.value(b))))
  {
    var x, y := R.value(a), R.value(b);
    if op == '+' { assert R.Gives(A.add(a, b), x + y); } else { assert R.Gives(A.sub(a, b), x - y); }
  }

  lemma ProductMeans<N(!new)>(A: Arith<N>, R: Reading<N>, mode: Mode, a: N, op: char, b: N)
    requires Products(A, R) && Zeros(A, R) && (op == '*' || op == '/') && R.stands(a) && R.stands(b)
    ensures Means(R, Compute(A, a, op, b), RealApply(R, mode, Value(R.value(a)), op, Value(R.value(b))))
  {
    var x, y := R.value(a), R.value(b);
    if op == '*' {
      assert R.Gives(A.mul(a, b), Times(x, y));
    } else if y != 0.0 {
      assert R.Gives(A.div(a, b), Over(x, y));
    }
  }

  /** compute_op, whatever the numbers: a failure is an unknown operator, a zero divisor or root, or a
      power that is not a number, and only the last of these touches the result cell. */
  lemma ComputeFails<N>(A: Arith<N>, a: N, op: char, b: N, out: N)
    ensures var (ok, cell) := ComputeOp(A, a, op, b, out);
      && (!ok <==> || op !in "+-*/^r" || (op in "/r" && A.isZero(b)) || (op in "^r" && A.isNaN(cell)))
      && (!ok && cell != out ==> op in "^r" && A.isNaN(cell))
  {}

  // ---- functions of one number ---------------------------------------------------------------------

  function RealTimes<N>(R: Reading<N>, x: Outcome, y: Outcome): Outcome {
    if x.Value? && y.Value? then Kept(R, Times(x.x, y.x)) else Beyond
  }

  /** A division that nothing guards. */
  function RealOver<N>(R: Reading<N>, x: Outcome, y: Outcome): Outcome {
    if x.Value? && y.Value? && y.x != 0.0 then Kept(R, Over(x.x, y.x)) else Beyond
  }

  function RealMap<N>(R: Reading<N>, f: real -> real, x: Outcome): Outcome {
    if x.Value? then Kept(R, f(x.x)) else Beyond
  }

  function RealAngle<N>(R: Reading<N>, deg: bool, x: real): Outcome {
    if deg then RealTimes(R, Value(x), RealOver(R, Kept(R, R.lib.pi), Value(180.0))) else Value(x)
  }

  function RealTurned<N>(R: Reading<N>, deg: bool, o: Outcome): Outcome {
    if deg then RealTimes(R, o, RealOver(R, Value(180.0), Kept(R, R.lib.pi))) else o
  }

  function RealLog<N>(R: Reading<N>, x: real): Outcome { if x <= 0.0 then Undefined else Kept(R, R.lib.log(x)) }

  function RealTangent<N>(R: Reading<N>, x: Outcome): Outcome {
    if x.Value? && R.lib.cos(x.x) != 0.0 then Kept(R, R.lib.tan(x.x)) else Beyond
  }

  function RealProduct<N>(R: Reading<N>, n: nat): Outcome {
    if n < 2 then Value(1.0) else RealTimes(R, RealProduct(R, n - 1), Value(n as real))
  }

  /** Of whole numbers up to 170. */
  function RealFactorial<N>(R: Reading<N>, x: real): Outcome {
    if x >= LONG_LIMIT then Beyond
    else if x < 0.0 || x.Floor > MAX_FACTORIAL || x.Floor as real != x then Undefined
    else RealProduct(R, x.Floor)
  }

  /** The function a key stands for: the natural logarithm, the decimal one, the exponential function, the
      square root, a hundredth, the factorial, sine, cosine and tangent, or in inverse mode what undoes it. */
  function RealUnary<N>(R: Reading<N>, k: char, mode: Mode, x: real): Outcome {
    match k
    case 'L' => if mode.inv then Kept(R, R.lib.exp(x)) else RealLog(R, x)
    case 'G' =>
      if mode.inv then KeptOutcome(R, R.power(10.0, x))
      else if x <= 0.0 then Undefined
      else RealOver(R, RealLog(R, x), RealLog(R, 10.0))
    case 'X' => if mode.inv then RealLog(R, x) else Kept(R, R.lib.exp(x))
    case 'Q' => if mode.inv then Kept(R, Times(x, x)) else if x < 0.0 then Undefined else Kept(R, R.lib.sqrt(x))
    case '%' => RealOver(R, Value(x), Value(100.0))
    case 'F' => RealFactorial(R, x)
    case 'N' =>
      if !mode.inv then RealMap(R, R.lib.sin, RealAngle(R, mode.deg, x))
      else if -1.0 <= x <= 1.0 then RealTurned(R, mode.deg, Kept(R, R.lib.asin(x))) else Undefined
    case 'O' =>
      if !mode.inv then RealMap(R, R.lib.cos, RealAngle(R, mode.deg, x))
      else if -1.0 <= x <= 1.0 then RealTurned(R, mode.deg, Kept(R, R.lib.acos(x))) else Undefined
    case _ =>
      if mode.inv then RealTurned(R, mode.deg, Kept(R, R.lib.atan(x))) else RealTangent(R, RealAngle(R, mode.deg, x))
  }

  /** A number that was computed without a check. */
  predicate Carries<N>(R: Reading<N>, n: N, o: Outcome) { o.Value? ==> R.stands(n) && R.value(n) == o.x }

  lemma CheckedMeans<N(!new)>(A: Arith<N>, R: Reading<N>, n: N, o: Outcome)
    requires PowersAndRoots(A, R) && Carries(R, n, o) && !o.Undefined?
    ensures Means(R, Checked(A, n), o)
  {}

  lemma TimesCarries<N(!new)>(A: Arith<N>, R: Reading<N>, a: N, x: Outcome, b: N, y: Outcome)
    requires Products(A, R) && Carries(R, a, x) && Carries(R, b, y)
    ensures Carries(R, A.mul(a, b), RealTimes(R, x, y))
  {
    if x.Value? && y.Value? { assert R.Gives(A.mul(a, b), Times(x.x, y.x)); }
  }

  lemma OverCarries<N(!new)>(A: Arith<N>, R: Reading<N>, a: N, x: Outcome, b: N, y: Outcome)
    requires Products(A, R) && Carries(R, a, x) && Carries(R, b, y)
    ensures Carries(R, A.div(a, b), RealOver(R, x, y))
  {
    if x.Value? && y.Value? && y.x != 0.0 { assert R.Gives(A.div(a, b), Over(x.x, y.x)); }
  }

  lemma OfCarries<N(!new)>(A: Arith<N>, R: Reading<N>, n: int)
    requires Casts(A, R) && -180 <= n <= 180
    ensures R.stands(A.of(n)) && R.value(A.of(n)) == n as real && Carries(R, A.of(n), Value(n as real))
  {}

  lemma LogMeans<N(!new)>(A: Arith<N>, R: Reading<N>, a: N)
    requires PowersAndRoots(A, R) && Casts(A, R) && Logarithms(A, R) && R.stands(a)
    ensures Means(R, Logarithm(A, a), RealLog(R, R.value(a)))
    ensures AtMost(A, a, A.zero) <==> R.value(a) <= 0.0
    ensures R.value(a) > 0.0 ==> Carries(R, A.log(a), RealLog(R, R.value(a)))
  {
    if R.value(a) > 0.0 { assert R.Gives(A.log(a), R.lib.log(R.value(a))); }
  }

  lemma DecimalLogMeans<N(!new)>(A: Arith<N>, R: Reading<N>, mode: Mode, a: N)
    requires PowersAndRoots(A, R) && Products(A, R) && Casts(A, R) && Logarithms(A, R) && R.stands(a) && !mode.inv
    ensures Means(R, UnaryValue(A, 'G', mode, a), RealUnary(R, 'G', mode, R.value(a)))
  {
    LogMeans(A, R, a);
    OfCarries(A, R, 10);
    LogMeans(A, R, A.of(10));
    if R.value(a) > 0.0 {
      var x, y := RealLog(R, R.value(a)), RealLog(R, 10.0);
      OverCarries(A, R, A.log(a), x, A.log(A.of(10)), y);
      CheckedMeans(A, R, A.div(A.log(a), A.log(A.of(10))), RealOver(R, x, y));
    }
  }

  lemma ExpMeans<N(!new)>(A: Arith<N>, R: Reading<N>, a: N)
    requires PowersAndRoots(A, R) && Logarithms(A, R) && R.stands(a)
    ensures Means(R, Checked(A, A.exp(a)), Kept(R, R.lib.exp(R.value(a))))
  {
    assert R.Gives(A.exp(a), R.lib.exp(R.value(a)));
    CheckedMeans(A, R, A.exp(a), Kept(R, R.lib.exp(R.value(a))));
  }

  lemma TenMeans<N(!new)>(A: Arith<N>, R: Reading<N>, mode: Mode, a: N)
    requires PowersAndRoots(A, R) && Casts(A, R) && R.stands(a) && mode.inv
    ensures Means(R, UnaryValue(A, 'G', mode, a), RealUnary(R, 'G', mode, R.value(a)))
  {
    OfCarries(A, R, 10);
    assert PowerGives(A, R, A.of(10), a);
  }

  lemma SquareMeans<N(!new)>(A: Arith<N>, R: Reading<N>, mode: Mode, a: N)
    requires PowersAndRoots(A, R) && Products(A, R) && Casts(A, R) && Logarithms(A, R) && R.stands(a)
    ensures Means(R, UnaryValue(A, 'Q', mode, a), RealUnary(R, 'Q', mode, R.value(a)))
  {
    var x := R.value(a);
    if mode.inv {
      assert R.Gives(A.mul(a, a), Times(x, x));
    } else if x >= 0.0 {
      assert R.Gives(A.sqrt(a), R.lib.sqrt(x));
    }
  }

  lemma PercentMeans<N(!new)>(A: Arith<N>, R: Reading<N>, mode: Mode, a: N)
    requires PowersAndRoots(A, R) && Products(A, R) && Casts(A, R) && R.stands(a)
    ensures Means(R, UnaryValue(A, '%', mode, a), RealUnary(R, '%', mode, R.value(a)))
  {
    OfCarries(A, R, 100);
    OverCarries(A, R, a, Value(R.value(a)), A.of(100), Value(100.0));
    CheckedMeans(A, R, A.div(a, A.of(100)), RealOver(R, Value(R.value(a)), Value(100.0)));
  }

  lemma {:induction false} ProductCarries<N(!new)>(A: Arith<N>, R: Reading<N>, n: nat)
    requires Products(A, R) && Casts(A, R) && n <= MAX_FACTORIAL
    ensures Carries(R, Product(A, n), RealProduct(R, n)) && !RealProduct(R, n).Undefined?
  {
    OfCarries(A, R, 1);
    if n >= 2 {
      ProductCarries(A, R, n - 1);
      OfCarries(A, R, n);
      TimesCarries(A, R, Product(A, n - 1), RealProduct(R, n - 1), A.of(n), Value(n as real));
    }
  }

  lemma FactorialMeans<N(!new)>(A: Arith<N>, R: Reading<N>, a: N)
    requires PowersAndRoots(A, R) && Products(A, R) && Casts(A, R) && R.stands(a)
    ensures Means(R, Factorial(A, a), RealFactorial(R, R.value(a)))
  {
    var x := R.value(a);
    if 0.0 <= x < LONG_LIMIT && x.Floor <= MAX_FACTORIAL {
      var n: nat := x.Floor;
      OfCarries(A, R, n);
      ProductCarries(A, R, n);
      CheckedMeans(A, R, Product(A, n), RealProduct(R, n));
    }
  }

  lemma AngleCarries<N(!new)>(A: Arith<N>, R: Reading<N>, deg: bool, a: N)
    requires Products(A, R) && Casts(A, R) && Angles(A, R) && R.stands(a)
    ensures Carries(R, Angle(A, deg, a), RealAngle(R, deg, R.value(a))) && !RealAngle(R, deg, R.value(a)).Undefined?
  {
    if deg {
      OfCarries(A, R, 180);
      OverCarries(A, R, A.pi, Kept(R, R.lib.pi), A.of(180), Value(180.0));
      TimesCarries(A, R, a, Value(R.value(a)), A.div(A.pi, A.of(180)), RealOver(R, Kept(R, R.lib.pi), Value(180.0)));
    }
  }

  lemma TurnedCarries<N(!new)>(A: Arith<N>, R: Reading<N>, deg: bool, a: N, o: Outcome)
    requires Products(A, R) && Casts(A, R) && Angles(A, R) && Carries(R, a, o) && !o.Undefined?
    ensures Carries(R, Turned(A, deg, a), RealTurned(R, deg, o)) && !RealTurned(R, deg, o).Undefined?
  {
    if deg {
      OfCarries(A, R, 180);
      OverCarries(A, R, A.of(180), Value(180.0), A.pi, Kept(R, R.lib.pi));
      TimesCarries(A, R, a, o, A.div(A.of(180), A.pi), RealOver(R, Value(180.0), Kept(R, R.lib.pi)));
    }
  }

  /** Sine, cosine and tangent of an angle in the chosen unit. */
  lemma AngleMeans<N(!new)>(A: Arith<N>, R: Reading<N>, k: char, mode: Mode, a: N)
    requires PowersAndRoots(A, R) && Products(A, R) && Casts(A, R) && Angles(A, R) && R.stands(a)
    requires (k == 'N' || k == 'O' || k == 'T') && !mode.inv
    ensures Means(R, UnaryValue(A, k, mode, a), RealUnary(R, k, mode, R.value(a)))
  {
    var b, o := Angle(A, mode.deg, a), RealAngle(R, mode.deg, R.value(a));
    AngleCarries(A, R, mode.deg, a);
    if o.Value? {
      if k == 'N' {
        assert R.Gives(A.sin(b), R.lib.sin(o.x));
      } else if k == 'O' {
        assert R.Gives(A.cos(b), R.lib.cos(o.x));
      } else if R.lib.cos(o.x) != 0.0 {
        assert R.Gives(A.tan(b), R.lib.tan(o.x));
      }
    }
  }

  lemma InUnitMeans<N(!new)>(A: Arith<N>, R: Reading<N>, a: N)
    requires Casts(A, R) && R.stands(a)
    ensures InUnit(A, a) <==> -1.0 <= R.value(a) <= 1.0
  {
    OfCarries(A, R, -1);
    OfCarries(A, R, 1);
  }

  /** What undoes them, in the chosen unit. */
  lemma ArcMeans<N(!new)>(A: Arith<N>, R: Reading<N>, k: char, mode: Mode, a: N)
    requires PowersAndRoots(A, R) && Products(A, R) && Casts(A, R) && Angles(A, R) && R.stands(a)
    requires (k == 'N' || k == 'O' || k == 'T') && mode.inv
    ensures Means(R, UnaryValue(A, k, mode, a), RealUnary(R, k, mode, R.value(a)))
  {
    var x := R.value(a);
    InUnitMeans(A, R, a);
    if k == 'T' {
      assert R.Gives(A.atan(a), R.lib.atan(x));
      ArcTurned(A, R, mode.deg, A.atan(a), Kept(R, R.lib.atan(x)));
    } else if -1.0 <= x <= 1.0 {
      assert R.Gives(A.asin(a), R.lib.asin(x)) && R.Gives(A.acos(a), R.lib.acos(x));
      if k == 'N' {
        ArcTurned(A, R, mode.deg, A.asin(a), Kept(R, R.lib.asin(x)));
      } else {
        ArcTurned(A, R, mode.deg, A.acos(a), Kept(R, R.lib.acos(x)));
      }
    }
  }

  lemma ArcTurned<N(!new)>(A: Arith<N>, R: Reading<N>, deg: bool, a: N, o: Outcome)
    requires PowersAndRoots(A, R) && Products(A, R) && Casts(A, R) && Angles(A, R) && Carries(R, a, o) && !o.Undefined?
    ensures Means(R, Checked(A, Turned(A, deg, a)), RealTurned(R, deg, o))
  {
    TurnedCarries(A, R, deg, a, o);
    CheckedMeans(A, R, Turned(A, deg, a), RealTurned(R, deg, o));
  }

  /** handle_unary's switch: every function is the real one in its mode and unit, rounded step by step, and
      fails exactly outside its domain. */
  lemma UnaryMeans<N(!new)>(A: Arith<N>, R: Reading<N>, k: char, mode: Mode, a: N)
    requires StandsFor(A, R) && IsUnaryKey(k) && R.stands(a)
    ensures Means(R, UnaryValue(A, k, mode, a), RealUnary(R, k, mode, R.value(a)))
  {
    if k == 'N' || k == 'O' || k == 'T' {
      if mode.inv { ArcMeans(A, R, k, mode, a); } else { AngleMeans(A, R, k, mode, a); }
    } else if k == 'G' {
      if mode.inv { TenMeans(A, R, mode, a); } else { DecimalLogMeans(A, R, mode, a); }
    } else if k == 'L' || k == 'X' {
      LogMeans(A, R, a);
      ExpMeans(A, R, a);
    } else if k == 'Q' {
      SquareMeans(A, R, mode, a);
    } else if k == '%' {
      PercentMeans(A, R, mode, a);
    } else {
      FactorialMeans(A, R, a);
    }
  }
}
