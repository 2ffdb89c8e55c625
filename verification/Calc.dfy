/**
 The AmiCalc key machine on values: the number being typed, the accumulator with its pending
 operator, and the stack of suspended parentheses. Numbers are abstract: a calculator is built over
 any arithmetic with a reader (strtod), a printer ("%.15g") and partial operations.
 */
module Calc {
  import opened Options

  /** What "%.15g" can print: short, never empty, no terminator inside. */
  type Numeral = s: string | 1 <= |s| <= 24 && '\0' !in s witness "0"

  datatype Arith<!N> = Arith(
    zero: N, add: (N, N) -> N, sub: (N, N) -> N, mul: (N, N) -> N, div: (N, N) -> N, pow: (N, N) -> N,
    inverse: N -> N, isZero: N -> bool, isNaN: N -> bool,
    parse: string -> N, format: N -> Numeral,
    // comparisons, the casts between integers and numbers, and the C library
    less: (N, N) -> bool, same: (N, N) -> bool, of: int -> N, trunc: N -> int, pi: N,
    exp: N -> N, log: N -> N, sqrt: N -> N, sin: N -> N, cos: N -> N, tan: N -> N,
    asin: N -> N, acos: N -> N, atan: N -> N)

  const MAX_ENTRY := 64
  const MAX_PAREN_DEPTH := 8
  const NO_OP := '\0'

  datatype Frame<N> = Frame(accum: N, accumSet: bool, op: char)

  datatype Machine<N> = Machine(
    entry: string, accum: N, accumSet: bool, op: char, error: bool, justResult: bool, parens: seq<Frame<N>>)

  datatype Mode = Mode(inv: bool, deg: bool)

  function Cleared<N>(A: Arith<N>): Machine<N> { Machine("", A.zero, false, NO_OP, false, false, []) }

  function Fail<N>(m: Machine<N>): Machine<N> { m.(error := true) }

  // ---- arithmetic ------------------------------------------------------------------------

  /** compute_op: whether it succeeds, and what the result cell holds afterwards. */
  function ComputeOp<N>(A: Arith<N>, lhs: N, op: char, rhs: N, out: N): (bool, N) {
    match op
    case '+' => (true, A.add(lhs, rhs))
    case '-' => (true, A.sub(lhs, rhs))
    case '*' => (true, A.mul(lhs, rhs))
    case '/' => if A.isZero(rhs) then (false, out) else (true, A.div(lhs, rhs))
    case '^' => var p := A.pow(lhs, rhs); (!A.isNaN(p), p)
    case 'r' => if A.isZero(rhs) then (false, out) else var p := A.pow(lhs, A.inverse(rhs)); (!A.isNaN(p), p)
    case _ => (false, out)
  }

  function Compute<N>(A: Arith<N>, lhs: N, op: char, rhs: N): Option<N> {
    var r := ComputeOp(A, lhs, op, rhs, lhs);
    if r.0 then Some(r.1) else None
  }

  /** eval_pending: the value the keys typed so far stand for. */
  function Pending<N>(A: Arith<N>, m: Machine<N>): Option<N> {
    if m.entry == "" && !m.accumSet then None
    else
      var value := if m.entry != "" then A.parse(m.entry) else m.accum;
      if m.op != NO_OP && m.accumSet then Compute(A, m.accum, m.op, value) else Some(value)
  }

  // ---- editing the entry -----------------------------------------------------------------

  function Fresh<N>(m: Machine<N>): Machine<N> {
    if m.justResult then m.(entry := "", justResult := false) else m
  }

  function DigitEntry(s: string, d: char): string { if |s| >= MAX_ENTRY then s else s + [d] }

  function Digit<N>(m: Machine<N>, d: char): Machine<N> {
    if m.error then m else var f := Fresh(m); f.(entry := DigitEntry(f.entry, d))
  }

  predicate HasExp(s: string) { 'e' in s || 'E' in s }

  predicate HasDecimal(s: string) { s != [] && s[0] != 'e' && s[0] != 'E' && (s[0] == '.' || HasDecimal(s[1..])) }

  function DecimalEntry(s: string): string {
    if HasExp(s) || HasDecimal(s) then s
    else if s == "" then "0."
    else if s == "-" then "-0."
    else if |s| >= MAX_ENTRY then s
    else s + "."
  }

  function Decimal<N>(m: Machine<N>): Machine<N> {
    if m.error then m else var f := Fresh(m); f.(entry := DecimalEntry(f.entry))
  }

  function ExpEntry(s: string): string {
    if HasExp(s) then s
    else
      var b := if s == "" then "0" else if s == "-" then "-0" else s;
      if |b| >= MAX_ENTRY then b else b + "e"
  }

  function Exponent<N>(m: Machine<N>): Machine<N> {
    if m.error then m else m.(justResult := false, entry := ExpEntry(m.entry))
  }

  function IndexOf(s: string, c: char): (i: nat)
    ensures i <= |s| && (i < |s| ==> s[i] == c) && (i == |s| <==> c !in s)
  {
    if s == [] then 0 else if s[0] == c then 0 else 1 + IndexOf(s[1..], c)
  }

  function InsertChar(s: string, pos: nat, c: char): string
    requires pos <= |s|
  {
    if |s| >= MAX_ENTRY then s else s[..pos] + [c] + s[pos..]
  }

  function RemoveChar(s: string, pos: nat): string
    requires pos < |s|
  {
    s[..pos] + s[pos + 1..]
  }

  /** The place of the sign that +/- turns over: the exponent's if there is one. */
  function SignPlace(s: string): (i: nat)
    ensures i <= |s|
  {
    if 'e' in s then IndexOf(s, 'e') + 1 else if 'E' in s then IndexOf(s, 'E') + 1 else 0
  }

  function SignEntry(s: string): string {
    var i := SignPlace(s);
    if s == "" then "-"
    else if i < |s| && s[i] == '-' then RemoveChar(s, i)
    else if 0 < i < |s| && s[i] == '+' then s[i := '-']
    else InsertChar(s, i, '-')
  }

  function Sign<N>(m: Machine<N>): Machine<N> {
    if m.error then m else m.(justResult := false, entry := SignEntry(m.entry))
  }

  function BackEntry(s: string): string { if s == "" then s else s[..|s| - 1] }

  function Backspace<N>(m: Machine<N>): Machine<N> {
    if m.error || m.entry == "" then m else m.(entry := BackEntry(m.entry), justResult := false)
  }

  function SetResult<N>(A: Arith<N>, m: Machine<N>, v: N): Machine<N> {
    m.(entry := A.format(v), justResult := true)
  }

  // ---- operators and parentheses --------------------------------------------------------------

  function Operator<N>(A: Arith<N>, m: Machine<N>, op: char): Machine<N> {
    if m.error then m
    else if m.entry == "" then
      (if m.accumSet then m else m.(accum := A.zero, accumSet := true)).(op := op, justResult := false)
    else
      var value := A.parse(m.entry);
      if m.accumSet && m.op != NO_OP then
        var r := ComputeOp(A, m.accum, m.op, value, m.accum);
        if r.0 then m.(accum := r.1, entry := "", op := op, justResult := false) else m.(accum := r.1, error := true)
      else m.(accum := value, accumSet := true, entry := "", op := op, justResult := false)
  }

  predicate ImplicitMul<N>(m: Machine<N>) { m.entry != "" && m.op == NO_OP && !m.accumSet }

  function ParenOpen<N>(A: Arith<N>, m: Machine<N>): Machine<N> {
    if m.error then m
    else if |m.parens| >= MAX_PAREN_DEPTH then Fail(m)
    else
      var f := if ImplicitMul(m) then Frame(A.parse(m.entry), true, '*') else Frame(m.accum, m.accumSet, m.op);
      Machine("", A.zero, false, NO_OP, false, false, m.parens + [f])
  }

  function ParenClose<N>(A: Arith<N>, m: Machine<N>): Machine<N> {
    if m.error then m
    else if m.parens == [] || Pending(A, m).None? then Fail(m)
    else
      var f, below := m.parens[|m.parens| - 1], m.parens[..|m.parens| - 1];
      SetResult(A, Machine(m.entry, f.accum, f.accumSet, f.op, false, false, below), Pending(A, m).value)
  }

  function Equals<N>(A: Arith<N>, m: Machine<N>): Machine<N> {
    if m.error then m
    else if m.parens != [] then Fail(m)
    else if !m.accumSet && m.entry == "" then m.(entry := "0", justResult := true)
    else
      var value := if m.entry != "" then A.parse(m.entry) else m.accum;
      var lhs := if m.accumSet then m.accum else A.zero;
      var r := if m.op == NO_OP then (true, value) else ComputeOp(A, lhs, m.op, value, lhs);
      var done := m.(accum := r.1, accumSet := true);
      if r.0 then SetResult(A, done, r.1).(op := NO_OP) else Fail(done)
  }

  // ---- functions of one number -------------------------------------------------------------

  function Checked<N>(A: Arith<N>, v: N): Option<N> { if A.isNaN(v) then None else Some(v) }

  function ToRadians<N>(A: Arith<N>, v: N): N { A.mul(v, A.div(A.pi, A.of(180))) }

  function ToDegrees<N>(A: Arith<N>, v: N): N { A.mul(v, A.div(A.of(180), A.pi)) }

  /** An angle as the functions take it. */
  function Angle<N>(A: Arith<N>, deg: bool, v: N): N { if deg then ToRadians(A, v) else v }

  /** An angle as it is shown. */
  function Turned<N>(A: Arith<N>, deg: bool, v: N): N { if deg then ToDegrees(A, v) else v }

  predicate AtMost<N>(A: Arith<N>, a: N, b: N) { A.less(a, b) || A.same(a, b) }

  function Logarithm<N>(A: Arith<N>, v: N): Option<N> { if AtMost(A, v, A.zero) then None else Checked(A, A.log(v)) }

  function DecimalLogarithm<N>(A: Arith<N>, v: N): Option<N> {
    if AtMost(A, v, A.zero) then None else Checked(A, A.div(A.log(v), A.log(A.of(10))))
  }

  /** The product of 1 to n, as the loop multiplies it. */
  function Product<N>(A: Arith<N>, n: int): N
    decreases n
  {
    if n < 2 then A.of(1) else A.mul(Product(A, n - 1), A.of(n))
  }

  const MAX_FACTORIAL := 170

  function Factorial<N>(A: Arith<N>, v: N): Option<N> {
    var n := A.trunc(v);
    if A.less(v, A.zero) || !A.same(v, A.of(n)) || n > MAX_FACTORIAL then None else Checked(A, Product(A, n))
  }

  predicate InUnit<N>(A: Arith<N>, v: N) { !A.less(v, A.of(-1)) && !A.less(A.of(1), v) }

  /** The function a key stands for, in a mode. */
  function UnaryValue<N>(A: Arith<N>, k: char, mode: Mode, v: N): Option<N> {
    match k
    case 'L' => if mode.inv then Checked(A, A.exp(v)) else Logarithm(A, v)
    case 'G' => if mode.inv then Checked(A, A.pow(A.of(10), v)) else DecimalLogarithm(A, v)
    case 'X' => if mode.inv then Logarithm(A, v) else Checked(A, A.exp(v))
    case 'Q' =>
      if mode.inv then Checked(A, A.mul(v, v)) else if A.less(v, A.zero) then None else Checked(A, A.sqrt(v))
    case '%' => Checked(A, A.div(v, A.of(100)))
    case 'F' => Factorial(A, v)
    case 'N' =>
      if !mode.inv then Checked(A, A.sin(Angle(A, mode.deg, v)))
      else if InUnit(A, v) then Checked(A, Turned(A, mode.deg, A.asin(v))) else None
    case 'O' =>
      if !mode.inv then Checked(A, A.cos(Angle(A, mode.deg, v)))
      else if InUnit(A, v) then Checked(A, Turned(A, mode.deg, A.acos(v))) else None
    case _ => Checked(A, if mode.inv then Turned(A, mode.deg, A.atan(v)) else A.tan(Angle(A, mode.deg, v)))
  }

  /** get_current_value: the entry, or failing that a finished accumulator. */
  function CurrentValue<N>(A: Arith<N>, m: Machine<N>): Option<N> {
    if m.entry != "" then Some(A.parse(m.entry)) else if m.accumSet && m.op == NO_OP then Some(m.accum) else None
  }

  /** The current value replaced by its image, or an error if it has none. */
  function Imaged<N>(A: Arith<N>, m: Machine<N>, r: Option<N>): Machine<N> {
    if r.None? then Fail(m)
    else if m.entry != "" then SetResult(A, m, r.value)
    else SetResult(A, m, r.value).(accum := r.value)
  }

  function Unary<N>(A: Arith<N>, m: Machine<N>, mode: Mode, action: char): Machine<N> {
    if m.error || CurrentValue(A, m).None? then m
    else Imaged(A, m, UnaryValue(A, action, mode, CurrentValue(A, m).value))
  }

  // ---- keys ------------------------------------------------------------------------------------

  predicate IsDigitKey(k: char) { '0' <= k <= '9' }
  predicate IsBinaryKey(k: char) { k == '+' || k == '-' || k == '*' || k == '/' || k == 'P' }
  predicate IsUnaryKey(k: char) {
    k == 'L' || k == 'G' || k == 'X' || k == 'Q' || k == '%' || k == 'F' || k == 'N' || k == 'O' || k == 'T'
  }

  /** The operator a key stands for: the power key is a root in inverse mode. */
  function OpOf(k: char, inv: bool): char { if k == 'P' then (if inv then 'r' else '^') else k }

  function ModeAfter(mode: Mode, k: char): Mode { if k == 'I' then mode.(inv := !mode.inv) else mode }

  /** handle_action, as far as numbers go. */
  function Press<N>(A: Arith<N>, m: Machine<N>, mode: Mode, k: char): Machine<N> {
    if IsDigitKey(k) then Digit(m, k)
    else if IsBinaryKey(k) then Operator(A, m, OpOf(k, mode.inv))
    else if k == '=' then Equals(A, m)
    else if k == '.' then Decimal(m)
    else if k == 'E' then Exponent(m)
    else if k == 'S' then Sign(m)
    else if k == 'B' then Backspace(m)
    else if k == '(' then ParenOpen(A, m)
    else if k == ')' then ParenClose(A, m)
    else if IsUnaryKey(k) then Unary(A, m, mode, k)
    else if k == 'C' then Cleared(A)
    else m
  }

  function Run<N>(A: Arith<N>, m: Machine<N>, mode: Mode, keys: string): Machine<N>
    decreases |keys|
  {
    if keys == "" then m else Run(A, Press(A, m, mode, keys[0]), ModeAfter(mode, keys[0]), keys[1..])
  }

  function ModeRun(mode: Mode, keys: string): Mode
    decreases |keys|
  {
    if keys == "" then mode else ModeRun(ModeAfter(mode, keys[0]), keys[1..])
  }

  // ---- what every run keeps -------------------------------------------------------------------

  predicate Clean(s: string) { |s| <= MAX_ENTRY && '\0' !in s }

  predicate Inv<N>(m: Machine<N>) { Clean(m.entry) && |m.parens| <= MAX_PAREN_DEPTH }

  lemma SignKeeps(s: string)
    requires Clean(s)
    ensures Clean(SignEntry(s))
  {}

  lemma TypingKeeps<N>(m: Machine<N>, k: char)
    requires Inv(m) && k != '\0'
    ensures Inv(Digit(m, k)) && Inv(Backspace(m))
  {}

  lemma ExpKeeps(s: string)
    requires Clean(s)
    ensures Clean(ExpEntry(s))
  {}

  lemma DecimalKeeps<N>(m: Machine<N>)
    requires Inv(m)
    ensures Inv(Decimal(m))
  {}

  lemma {:induction false} EditKeeps<N>(A: Arith<N>, m: Machine<N>, mode: Mode, k: char)
    requires Inv(m) && (IsDigitKey(k) || k == '.' || k == 'E' || k == 'S' || k == 'B')
    ensures Inv(Press(A, m, mode, k))
  {
    if k == '.' {
      DecimalKeeps(m);
    } else if k == 'E' {
      ExpKeeps(m.entry);
    } else if k == 'S' {
      SignKeeps(m.entry);
    } else {
      TypingKeeps(m, k);
    }
  }

  lemma ValueKeeps<N>(A: Arith<N>, m: Machine<N>, mode: Mode, k: char, op: char)
    requires Inv(m)
    ensures Inv(Operator(A, m, op)) && Inv(Equals(A, m)) && Inv(Unary(A, m, mode, k)) && Inv(Cleared(A))
    ensures Inv(ParenOpen(A, m)) && Inv(ParenClose(A, m))
  {}

  lemma {:induction false} PressKeeps<N>(A: Arith<N>, m: Machine<N>, mode: Mode, k: char)
    requires Inv(m)
    ensures Inv(Press(A, m, mode, k))
  {
    if IsDigitKey(k) || k == '.' || k == 'E' || k == 'S' || k == 'B' {
      EditKeeps(A, m, mode, k);
    } else {
      ValueKeeps(A, m, mode, k, OpOf(k, mode.inv));
    }
  }

  lemma {:induction false} RunKeeps<N>(A: Arith<N>, m: Machine<N>, mode: Mode, keys: string)
    requires Inv(m)
    ensures Inv(Run(A, m, mode, keys))
    decreases |keys|
  {
    if keys != "" {
      PressKeeps(A, m, mode, keys[0]);
      RunKeeps(A, Press(A, m, mode, keys[0]), ModeAfter(mode, keys[0]), keys[1..]);
    }
  }

  /** An error stays until C. */
  lemma {:induction false} ErrorSticks<N>(A: Arith<N>, m: Machine<N>, mode: Mode, keys: string)
    requires m.error && 'C' !in keys
    ensures Run(A, m, mode, keys) == m
    decreases |keys|
  {
    if keys != "" {
      assert keys[0] != 'C' && 'C' !in keys[1..];
      ErrorSticks(A, m, ModeAfter(mode, keys[0]), keys[1..]);
    }
  }

  lemma {:induction false} RunConcat<N>(A: Arith<N>, m: Machine<N>, mode: Mode, a: string, b: string)
    ensures Run(A, m, mode, a + b) == Run(A, Run(A, m, mode, a), ModeRun(mode, a), b)
    decreases |a|
  {
    if a == "" {
      assert a + b == b;
    } else {
      assert (a + b)[0] == a[0] && (a + b)[1..] == a[1..] + b;
      RunConcat(A, Press(A, m, mode, a[0]), ModeAfter(mode, a[0]), a[1..], b);
    }
  }

  lemma {:induction false} IndexOfPrefix(s: string, t: string, c: char)
    requires c in s
    ensures IndexOf(s + t, c) == IndexOf(s, c)
  {
    assert (s + t)[0] == s[0];
    if s[0] != c {
      assert (s + t)[1..] == s[1..] + t;
      IndexOfPrefix(s[1..], t, c);
    }
  }

  /** The sign's place depends only on what is before it, whatever signs follow. */
  lemma {:induction false} SignPlaceKept(s: string, t: string, u: string)
    requires s + t != "" && SignPlace(s + t) == |s| && (forall c | c in u :: c == '-' || c in t)
    ensures SignPlace(s + u) == |s|
  {
    var w := s + t;
    if 'e' in w {
      assert w[|s| - 1] == 'e' && s[|s| - 1] == 'e';
      IndexOfPrefix(s, t, 'e');
      IndexOfPrefix(s, u, 'e');
    } else if 'E' in w {
      assert w[|s| - 1] == 'E' && s[|s| - 1] == 'E';
      assert 'e' !in s && 'e' !in t && 'e' !in s + u;
      IndexOfPrefix(s, t, 'E');
      IndexOfPrefix(s, u, 'E');
    } else {
      assert 'e' !in t && 'E' !in t && 'e' !in s + u && 'E' !in s + u;
    }
  }

  /** No sign at the front of what follows the sign's place; only an exponent can have a '+'. */
  predicate Unsigned(b: string, i: nat) { b == "" || (b[0] != '-' && (i == 0 || b[0] != '+')) }

  predicate OneSign(s: string) {
    var i := SignPlace(s);
    var b := s[i..];
    Unsigned(b, i) || (b[0] == '-' && Unsigned(b[1..], i))
  }

  lemma {:induction false} SignRemoved(a: string, b: string)
    requires SignPlace(a + (['-'] + b)) == |a|
    ensures SignEntry(a + (['-'] + b)) == a + b
  {
    var s := a + (['-'] + b);
    assert s[|a|] == '-' && s[..|a|] == a && s[|a| + 1..] == b;
  }

  lemma {:induction false} SignReplaced(a: string, b: string)
    requires SignPlace(a + (['+'] + b)) == |a| > 0
    ensures SignEntry(a + (['+'] + b)) == a + (['-'] + b)
  {
    var s := a + (['+'] + b);
    assert s[|a|] == '+' && s[|a| := '-'] == a + (['-'] + b);
  }

  lemma {:induction false} SignAdded(a: string, b: string)
    requires SignPlace(a + b) == |a| && Unsigned(b, |a|) && a + b != ""
    ensures SignEntry(a + b) == if |a + b| >= MAX_ENTRY then a + b else a + (['-'] + b)
  {
    var s := a + b;
    assert s[..|a|] == a && s[|a|..] == b && (|a| < |s| ==> s[|a|] == b[0]);
    assert a + ['-'] + b == a + (['-'] + b);
  }

  lemma SplitAt(s: string, i: nat)
    requires i <= |s|
    ensures s == s[..i] + s[i..] && (i < |s| ==> s[i..] == [s[i]] + s[i..][1..])
  {}

  lemma {:induction false} MinusTwice(a: string, b: string)
    requires SignPlace(a + (['-'] + b)) == |a| && |a| + |b| < MAX_ENTRY
    ensures SignEntry(a + b) == a + (['-'] + b) <==> Unsigned(b, |a|)
  {
    if a + b == "" {
      assert a == "" && b == "" && a + (['-'] + b) == "-";
    } else {
      SignPlaceKept(a, ['-'] + b, b);
      if Unsigned(b, |a|) {
        SignAdded(a, b);
      } else {
        SplitAt(b, 0);
        if b[0] == '-' { SignRemoved(a, b[1..]); } else { SignReplaced(a, b[1..]); }
      }
    }
  }

  /** An exponent printed with a '+' comes back without it. */
  lemma PlusIsLost()
    ensures SignEntry(SignEntry("1e+5")) == "1e5"
  {
    assert "1e" + (['+'] + "5") == "1e+5" && "1e" + (['-'] + "5") == "1e-5" && "1e" + "5" == "1e5";
    assert "1e+5"[1] == 'e' && "1e-5"[1] == 'e';
    SignReplaced("1e", "5");
    SignRemoved("1e", "5");
  }

  /** Pressing +/- twice gives the entry back exactly when it carries at most one sign there. */
  lemma {:induction false} SignTwiceExactly(s: string)
    requires |s| <= MAX_ENTRY
    ensures SignEntry(SignEntry(s)) == s <==> OneSign(s)
  {
    var i := SignPlace(s);
    var a, b := s[..i], s[i..];
    SplitAt(s, i);
    if s == "" {
      assert SignEntry("-") == "";
    } else if Unsigned(b, i) {
      SignAdded(a, b);
      if |s| < MAX_ENTRY {
        SignPlaceKept(a, b, ['-'] + b);
        SignRemoved(a, b);
      }
    } else if b[0] == '-' {
      SignRemoved(a, b[1..]);
      MinusTwice(a, b[1..]);
    } else {
      SignReplaced(a, b[1..]);
      SignPlaceKept(a, b, ['-'] + b[1..]);
      SignRemoved(a, b[1..]);
    }
  }
}
