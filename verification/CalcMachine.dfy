/**
 AmiCalc's CalcState as a mutable object: the handle_* functions on its fields, the expr_* editor on
 its line, and handle_action over both. Num and Line are the values of Calc and CalcText it stands for.
 */
module CalcMachine {
  import opened Options
  import opened Calc
  import opened CalcText
  import opened CalcBuffer
  import CalcEval

  // ---- searches -------------------------------------------------------------------------------

  method FindOpen(s: string, n: nat) returns (r: int)
    requires n <= |s|
    ensures r == OpenBefore(s, n, 1)
  {
    var i: int, depth: nat := n - 1, 1;
    while i >= 0
      invariant -1 <= i < n && depth > 0 && OpenBefore(s, i + 1, depth) == OpenBefore(s, n, 1)
      decreases i
    {
      if s[i] == ')' {
        depth := depth + 1;
      } else if s[i] == '(' {
        depth := depth - 1;
        if depth == 0 { return i; }
      }
      i := i - 1;
    }
    r := -1;
  }

  method FindWord(s: string, n: nat) returns (r: nat)
    requires n <= |s|
    ensures r == WordStart(s, n)
  {
    r := n;
    while r > 0 && IsWordChar(s[r - 1])
      invariant r <= n && WordStart(s, r) == WordStart(s, n)
    {
      r := r - 1;
    }
  }

  method FindNumber(s: string) returns (r: nat)
    ensures r == NumberStart(s, |s|)
  {
    r := |s|;
    while r > 0
      invariant r <= |s| && NumberStart(s, r) == NumberStart(s, |s|)
    {
      var c := s[r - 1];
      if EndsValue(c) { return; }
      if c == '-' {
        if r == 1 { return 0; }
        if !(s[r - 2] == 'e' || s[r - 2] == 'E') {
          return if IsOperator(s[r - 2]) || s[r - 2] == '(' then r - 1 else r;
        }
      }
      r := r - 1;
    }
  }

  /** expr_find_last_value_span. */
  method FindLastValue(s: string) returns (r: Option<nat>)
    ensures r == LastValue(s)
  {
    if s == "" { return None; }
    if s[|s| - 1] == ')' {
      var o := FindOpen(s, |s| - 1);
      if o < 0 { return None; }
      var w := FindWord(s, o);
      return Some(w);
    }
    var n := FindNumber(s);
    r := if n < |s| then Some(n) else None;
  }

  /** compute_op through its result pointer: what the cell holds afterwards, failures included. */
  method Operate<N>(A: Arith<N>, lhs: N, op: char, rhs: N, out: N) returns (ok: bool, out': N)
    ensures (ok, out') == ComputeOp(A, lhs, op, rhs, out)
  {
    ok, out' := true, out;
    if op == '+' {
      out' := A.add(lhs, rhs);
    } else if op == '-' {
      out' := A.sub(lhs, rhs);
    } else if op == '*' {
      out' := A.mul(lhs, rhs);
    } else if op == '/' {
      if A.isZero(rhs) { return false, out'; }
      out' := A.div(lhs, rhs);
    } else if op == '^' {
      out' := A.pow(lhs, rhs);
      ok := !A.isNaN(out');
    } else if op == 'r' {
      if A.isZero(rhs) { return false, out'; }
      out' := A.pow(lhs, A.inverse(rhs));
      ok := !A.isNaN(out');
    } else {
      ok := false;
    }
  }

  /** The factorial's checks and its loop. */
  method EvaluateFactorial<N>(A: Arith<N>, value: N) returns (r: Option<N>)
    ensures r == Factorial(A, value)
  {
    if A.less(value, A.zero) { return None; }
    var n := A.trunc(value);
    if !A.same(value, A.of(n)) { return None; }
    if n > MAX_FACTORIAL { return None; }
    var fact, i := A.of(1), 2;
    while i <= n
      invariant 2 <= i && (i <= n + 1 || i == 2) && fact == Product(A, i - 1)
      decreases n + 1 - i
    {
      fact := A.mul(fact, A.of(i));
      i := i + 1;
    }
    assert Product(A, i - 1) == Product(A, n);
    r := Checked(A, fact);
  }

  method EvaluateAngle<N>(A: Arith<N>, action: char, inv: bool, deg: bool, value: N) returns (r: Option<N>)
    requires action == 'N' || action == 'O' || action == 'T'
    ensures r == UnaryValue(A, action, Mode(inv, deg), value)
  {
    var result := value;
    if inv {
      if action != 'T' && (A.less(value, A.of(-1)) || A.less(A.of(1), value)) { return None; }
      result := if action == 'N' then A.asin(value) else if action == 'O' then A.acos(value) else A.atan(value);
      if deg { result := ToDegrees(A, result); }
    } else {
      var angle := value;
      if deg { angle := ToRadians(A, angle); }
      result := if action == 'N' then A.sin(angle) else if action == 'O' then A.cos(angle) else A.tan(angle);
    }
    r := Checked(A, result);
  }

  /** handle_unary's switch. */
  method Evaluate<N>(A: Arith<N>, action: char, inv: bool, deg: bool, value: N) returns (r: Option<N>)
    requires IsUnaryKey(action)
    ensures r == UnaryValue(A, action, Mode(inv, deg), value)
  {
    var result := value;
    if action == 'F' {
      r := EvaluateFactorial(A, value);
      return;
    }
    if action == 'N' || action == 'O' || action == 'T' {
      r := EvaluateAngle(A, action, inv, deg, value);
      return;
    }
    if action == '%' {
      result := A.div(value, A.of(100));
    } else if action == 'Q' {
      if inv {
        result := A.mul(value, value);
      } else {
        if A.less(value, A.zero) { return None; }
        result := A.sqrt(value);
      }
    } else if (action == 'L' && inv) || (action == 'X' && !inv) {
      result := A.exp(value);
    } else if action == 'G' && inv {
      result := A.pow(A.of(10), value);
    } else {
      if AtMost(A, value, A.zero) { return None; }
      result := if action == 'G' then A.div(A.log(value), A.log(A.of(10))) else A.log(value);
    }
    r := Checked(A, result);
  }

  method EntryHasDecimal(s: string) returns (has: bool)
    ensures has == HasDecimal(s)
  {
    var i := 0;
    while i < |s| && s[i] != 'e' && s[i] != 'E'
      invariant i <= |s| && HasDecimal(s[i..]) == HasDecimal(s)
    {
      if s[i] == '.' { return true; }
      assert s[i..][1..] == s[i + 1..];
      i := i + 1;
    }
    has := false;
  }

  // ---- the object -----------------------------------------------------------------------------

  class CalcState<N> {
    const A: Arith<N>
    const entry: Buffer
    const expr: Buffer
    const frames: array<Frame<N>>
    var accum: N
    var accumSet: bool
    var op: char
    var error: bool
    var justResult: bool
    var inv: bool
    var deg: bool
    var parenDepth: nat
    var exprStart: int

    ghost predicate Separate() {
      && entry != expr && entry.chars != expr.chars
      && {entry.chars as object, expr.chars as object} !! {this as object, frames as object}
      && {entry as object, expr as object} !! {this as object, frames as object}
      && this as object != frames as object
      && {entry.chars as object, expr.chars as object} !! {entry as object, expr as object}
    }

    ghost predicate Valid()
      reads this, entry, entry.chars, expr, expr.chars, frames
    {
      && Separate() && entry.Valid() && expr.Valid()
      && entry.chars.Length == MAX_ENTRY + 1 && expr.chars.Length == MAX_EXPR + 1
      && frames.Length == MAX_PAREN_DEPTH && parenDepth <= MAX_PAREN_DEPTH
      && NO_START <= exprStart <= expr.len
    }

    /** The numbers. */
    ghost function Num(): Machine<N>
      reads this, entry, entry.chars, frames
      requires entry.len <= entry.chars.Length && parenDepth <= frames.Length
    {
      Machine(entry.Str(), accum, accumSet, op, error, justResult, frames[..parenDepth])
    }

    /** The line. */
    ghost function Line(): Text
      reads this, expr, expr.chars
      requires expr.len <= expr.chars.Length
    {
      Text(expr.Str(), exprStart)
    }

    ghost function View(): State<N>
      reads this, entry, entry.chars, expr, expr.chars, frames
      requires Valid()
    {
      State(Num(), Line(), Mode(inv, deg))
    }

    constructor (A: Arith<N>)
      ensures Valid() && View() == State(Cleared(A), Empty(), Mode(false, false)) && this.A == A
      ensures fresh(entry) && fresh(entry.chars) && fresh(expr) && fresh(expr.chars) && fresh(frames)
    {
      this.A := A;
      var e := new Buffer(MAX_ENTRY);
      var x := new Buffer(MAX_EXPR);
      var f := new Frame<N>[MAX_PAREN_DEPTH](_ => Frame(A.zero, false, NO_OP));
      entry, expr, frames := e, x, f;
      accum, accumSet, op, error, justResult := A.zero, false, NO_OP, false, false;
      inv, deg, parenDepth, exprStart := false, false, 0, NO_START;
    }

    // ---- the line ---------------------------------------------------------------------------

    method ExprReset()
      requires Valid()
      modifies `exprStart, expr, expr.chars
      ensures Valid() && Line() == Empty()
    {
      expr.Clear();
      exprStart := NO_START;
    }

    method ExprSet(text: string)
      requires Valid() && '\0' !in text
      modifies `exprStart, expr, expr.chars
      ensures Valid() && Line() == Set(text)
    {
      expr.SetTail(text);
      exprStart := if expr.len > 0 then 0 else NO_START;
    }

    method ExprAppend(text: string)
      requires Valid() && '\0' !in text
      modifies `exprStart, expr, expr.chars
      ensures Valid() && Line() == Append(old(Line()), text)
    {
      var overflowed := expr.AppendTail(text);
      if overflowed { exprStart := NO_START; }
    }

    method ExprUpdateEntry()
      requires Valid()
      modifies `exprStart, expr, expr.chars
      ensures Valid() && Line() == Update(old(Line()), entry.Str())
    {
      if entry.len == 0 { return; }
      var text := entry.chars[..entry.len];
      var prefix := expr.len;
      if exprStart < 0 {
        ExprAppend(text);
        exprStart := prefix;
        return;
      }
      prefix := exprStart;
      expr.Replace(prefix, text);
      if prefix + |text| > MAX_EXPR { exprStart := MAX_EXPR - |text|; }
    }

    method ExprSettle()
      requires Valid()
      modifies `exprStart, expr, expr.chars
      ensures Valid() && Line() == Settle(old(Line()), entry.Str())
    {
      if exprStart >= 0 || expr.len == 0 { ExprUpdateEntry(); }
    }

    /** The cases without an entry: a missing operand is a zero, a second operator replaces the first. */
    method ExprAddBareOperator(o: char)
      requires Valid() && o != '\0' && entry.len == 0
      modifies `exprStart, expr, expr.chars
      ensures Valid() && Line() == AddOperator(old(Line()), "", o)
    {
      BareOperator(Line(), o);
      if expr.len > 0 && IsOperator(expr.chars[expr.len - 1]) {
        expr.SetAt(expr.len - 1, o);
      } else {
        if expr.len == 0 || expr.chars[expr.len - 1] == '(' { ExprAppend("0"); }
        ExprAppend([o]);
      }
    }

    method ExprAddOperator(o: char)
      requires Valid() && o != '\0'
      modifies `exprStart, expr, expr.chars
      ensures Valid() && Line() == AddOperator(old(Line()), entry.Str(), o)
    {
      if entry.len == 0 {
        ExprAddBareOperator(o);
      } else {
        ExprSettle();
        exprStart := NO_START;
        ExprAppend([o]);
      }
    }

    method ExprAddParenOpen(implicitMul: bool)
      requires Valid()
      modifies `exprStart, expr, expr.chars
      ensures Valid() && Line() == AddParenOpen(old(Line()), entry.Str(), implicitMul)
    {
      if entry.len > 0 { ExprSettle(); }
      if implicitMul { ExprAppend("*"); }
      ExprAppend("(");
      exprStart := NO_START;
    }

    method ExprAddParenClose()
      requires Valid()
      modifies `exprStart, expr, expr.chars
      ensures Valid() && Line() == AddParenClose(old(Line()), entry.Str())
    {
      if entry.len > 0 { ExprSettle(); }
      ExprAppend(")");
      exprStart := NO_START;
    }

    method ExprWrap(prefix: string, suffix: string)
      requires Valid() && |prefix| + |suffix| <= EXPR_TMP - MAX_EXPR && '\0' !in prefix && '\0' !in suffix
      modifies `exprStart, expr, expr.chars
      ensures Valid() && Line() == Wrap(old(Line()), prefix, suffix)
    {
      var v := FindLastValue(expr.chars[..expr.len]);
      if v.None? { return; }
      expr.WrapFrom(v.value, prefix, suffix);
      exprStart := NO_START;
    }

    method ExprApplyUnary(action: char)
      requires Valid()
      modifies `exprStart, expr, expr.chars
      ensures Valid() && Line() == ApplyUnary(A, old(Line()), Num(), inv, action)
    {
      if entry.len > 0 && (exprStart >= 0 || expr.len == 0) {
        ExprUpdateEntry();
      } else if expr.len == 0 && accumSet {
        ExprSet(A.format(accum));
      }
      var w := Wrapping(action, inv);
      ExprWrap(w.0, w.1);
    }

    // ---- the entry ----------------------------------------------------------------------------

    method StartFresh()
      requires Valid()
      modifies `justResult, entry, entry.chars
      ensures Valid() && Num() == Fresh(old(Num()))
    {
      if justResult {
        entry.Clear();
        justResult := false;
      }
    }

    method HandleDigit(d: char)
      requires Valid() && d != '\0'
      modifies `justResult, entry, entry.chars
      ensures Valid() && Num() == Digit(old(Num()), d)
    {
      if error { return; }
      StartFresh();
      if entry.len < MAX_ENTRY { entry.Push(d); }
    }

    method HandleDecimal()
      requires Valid()
      modifies `justResult, entry, entry.chars
      ensures Valid() && Num() == Decimal(old(Num()))
    {
      if error { return; }
      StartFresh();
      var s := entry.chars[..entry.len];
      var dot := EntryHasDecimal(s);
      if HasExp(s) || dot { return; }
      if s == "" || s == "-" { entry.Push('0'); }
      if entry.len < MAX_ENTRY { entry.Push('.'); }
    }

    method HandleExp()
      requires Valid()
      modifies `justResult, entry, entry.chars
      ensures Valid() && Num() == Exponent(old(Num()))
    {
      if error { return; }
      justResult := false;
      var s := entry.chars[..entry.len];
      if HasExp(s) { return; }
      if s == "" || s == "-" { entry.Push('0'); }
      if entry.len < MAX_ENTRY { entry.Push('e'); }
    }

    method HandleSign()
      requires Valid()
      modifies `justResult, entry, entry.chars
      ensures Valid() && Num() == Sign(old(Num()))
    {
      if error { return; }
      justResult := false;
      entry.FlipSign();
    }

    method SetResult(v: N)
      requires Valid()
      modifies `justResult, entry, entry.chars
      ensures Valid() && Num() == Calc.SetResult(A, old(Num()), v)
    {
      entry.Load(A.format(v));
      justResult := true;
    }

    // ---- operators -----------------------------------------------------------------------------

    method HandleOperator(o: char)
      requires Valid()
      modifies `accum, `accumSet, `op, `error, `justResult, entry, entry.chars
      ensures Valid() && Num() == Operator(A, old(Num()), o)
    {
      if error { return; }
      if !accumSet && entry.len == 0 { accum, accumSet := A.zero, true; }
      if entry.len > 0 {
        var value := A.parse(entry.chars[..entry.len]);
        if !accumSet {
          accum, accumSet := value, true;
        } else if op != NO_OP {
          var ok;
          ok, accum := Operate(A, accum, op, value, accum);
          if !ok {
            error := true;
            return;
          }
        } else {
          accum := value;
        }
        entry.Clear();
      }
      op, justResult := o, false;
    }

    method EvalPending() returns (r: Option<N>)
      requires Valid()
      ensures r == Pending(A, Num())
    {
      if entry.len == 0 && !accumSet { return None; }
      var value := if entry.len > 0 then A.parse(entry.chars[..entry.len]) else accum;
      if op != NO_OP && accumSet {
        var ok, v := Operate(A, accum, op, value, accum);
        r := if ok then Some(v) else None;
      } else {
        r := Some(value);
      }
    }

    method PushFrame(f: Frame<N>)
      requires Valid() && parenDepth < MAX_PAREN_DEPTH
      modifies `parenDepth, frames
      ensures parenDepth == old(parenDepth) + 1 && frames[..parenDepth] == old(frames[..parenDepth]) + [f]
    {
      frames[parenDepth] := f;
      parenDepth := parenDepth + 1;
    }

    method PopFrame() returns (f: Frame<N>)
      requires Valid() && parenDepth > 0
      modifies `parenDepth
      ensures parenDepth == old(parenDepth) - 1 && old(frames[..parenDepth]) == frames[..parenDepth] + [f]
    {
      parenDepth := parenDepth - 1;
      f := frames[parenDepth];
    }

    method Restart()
      requires Valid()
      modifies `accum, `accumSet, `op, `justResult, entry, entry.chars
      ensures Valid() && Num() == Machine("", A.zero, false, NO_OP, error, false, old(Num()).parens)
    {
      accum, accumSet, op, justResult := A.zero, false, NO_OP, false;
      entry.Clear();
    }

    method Resume(f: Frame<N>, v: N)
      requires Valid()
      modifies `accum, `accumSet, `op, `justResult, entry, entry.chars
      ensures Valid() && Num() == Machine(A.format(v), f.accum, f.accumSet, f.op, error, true, old(Num()).parens)
    {
      accum, accumSet, op := f.accum, f.accumSet, f.op;
      SetResult(v);
    }

    method HandleParenOpen()
      requires Valid()
      modifies `accum, `accumSet, `op, `error, `justResult, `parenDepth, entry, entry.chars, frames
      ensures Valid() && Num() == ParenOpen(A, old(Num()))
    {
      if error { return; }
      if parenDepth >= MAX_PAREN_DEPTH {
        error := true;
        return;
      }
      if entry.len > 0 && op == NO_OP && !accumSet {
        accum, accumSet, op := A.parse(entry.chars[..entry.len]), true, '*';
      }
      PushFrame(Frame(accum, accumSet, op));
      Restart();
    }

    lemma LastOf(s: seq<Frame<N>>, f: Frame<N>)
      ensures |s + [f]| == |s| + 1 && (s + [f])[|s|] == f && (s + [f])[..|s|] == s
    {}

    method HandleParenClose()
      requires Valid()
      modifies `accum, `accumSet, `op, `error, `justResult, `parenDepth, entry, entry.chars
      ensures Valid() && Num() == ParenClose(A, old(Num()))
    {
      if error { return; }
      var v := EvalPending();
      if parenDepth == 0 || v.None? {
        error := true;
        return;
      }
      var f := PopFrame();
      LastOf(frames[..parenDepth], f);
      Resume(f, v.value);
    }

    /** The pending operation carried out on a value, as '=' does it. */
    method Finish(value: N) returns (ok: bool)
      modifies `accum, `accumSet
      ensures var lhs := if old(accumSet) then old(accum) else A.zero;
        var r := if op == NO_OP then (true, value) else ComputeOp(A, lhs, op, value, lhs);
        ok == r.0 && accum == r.1 && accumSet
    {
      if op == NO_OP {
        accum, accumSet := value, true;
        return true;
      }
      if !accumSet { accum, accumSet := A.zero, true; }
      ok, accum := Operate(A, accum, op, value, accum);
    }

    method HandleEquals()
      requires Valid()
      modifies `accum, `accumSet, `op, `error, `justResult, entry, entry.chars
      ensures Valid() && Num() == Equals(A, old(Num()))
    {
      if error { return; }
      if parenDepth > 0 {
        error := true;
        return;
      }
      if !accumSet && entry.len == 0 {
        entry.Load("0");
        justResult := true;
        return;
      }
      var ok := Finish(if entry.len > 0 then A.parse(entry.chars[..entry.len]) else accum);
      if !ok {
        error := true;
        return;
      }
      SetResult(accum);
      op := NO_OP;
    }

    method GetCurrentValue() returns (r: Option<N>)
      requires Valid()
      ensures r == CurrentValue(A, Num())
    {
      if entry.len > 0 { return Some(A.parse(entry.chars[..entry.len])); }
      r := if accumSet && op == NO_OP then Some(accum) else None;
    }

    /** The end of handle_unary: the result shown, and kept in the accumulator it came from. */
    method ShowImage(r: Option<N>)
      requires Valid() && CurrentValue(A, Num()).Some?
      modifies `accum, `error, `justResult, entry, entry.chars
      ensures Valid() && Num() == Imaged(A, old(Num()), r)
    {
      if r.None? {
        error := true;
        return;
      }
      var fromAccum := entry.len == 0;
      SetResult(r.value);
      if fromAccum { accum := r.value; }
    }

    method HandleUnary(action: char)
      requires Valid() && IsUnaryKey(action)
      modifies `accum, `error, `justResult, entry, entry.chars
      ensures Valid() && Num() == Unary(A, old(Num()), Mode(inv, deg), action)
    {
      if error { return; }
      var value := GetCurrentValue();
      if value.None? { return; }
      var r := Evaluate(A, action, inv, deg, value.value);
      ShowImage(r);
    }

    method HandleBackspace()
      requires Valid()
      modifies `justResult, `exprStart, entry, entry.chars, expr, expr.chars
      ensures Valid() && Num() == Backspace(old(Num())) && Line() == BackspaceText(old(Line()), old(Num()))
    {
      if error || entry.len == 0 { return; }
      entry.Truncate(entry.len - 1);
      justResult := false;
      if exprStart >= 0 || expr.len == 0 {
        if entry.len > 0 {
          ExprUpdateEntry();
        } else if exprStart >= 0 {
          expr.Truncate(exprStart);
          exprStart := NO_START;
        }
      }
    }

    method ClearState()
      requires Valid()
      modifies this, entry, entry.chars, expr, expr.chars
      ensures Valid() && View() == State(Cleared(A), Empty(), old(View()).mode)
    {
      entry.Clear();
      accum, accumSet, op, error, justResult, parenDepth := A.zero, false, NO_OP, false, false, 0;
      ExprReset();
    }

    // ---- handle_action ---------------------------------------------------------------------------

    method TypeKey(k: char)
      requires Valid() && (IsDigitKey(k) || k == '.')
      modifies `justResult, `exprStart, entry, entry.chars, expr, expr.chars
      ensures Valid() && View() == AfterType(old(View()), k)
    {
      if justResult { ExprReset(); }
      if k == '.' { HandleDecimal(); } else { HandleDigit(k); }
      if !error { ExprUpdateEntry(); }
    }

    method AdjustKey(k: char)
      requires Valid() && (k == 'E' || k == 'S')
      modifies `justResult, `exprStart, entry, entry.chars, expr, expr.chars
      ensures Valid() && View() == AfterAdjust(old(View()), k)
    {
      if justResult { ExprSet(entry.chars[..entry.len]); }
      if k == 'E' { HandleExp(); } else { HandleSign(); }
      if !error { ExprSettle(); }
    }

    method OperatorKey(k: char)
      requires Valid() && IsBinaryKey(k)
      modifies `accum, `accumSet, `op, `error, `justResult, `exprStart, entry, entry.chars, expr, expr.chars
      ensures Valid() && View() == AfterOperator(A, old(View()), k)
    {
      var o := OpOf(k, inv);
      if !error { ExprAddOperator(o); }
      HandleOperator(o);
    }

    method EqualsKey()
      requires Valid()
      modifies `accum, `accumSet, `op, `error, `justResult, `exprStart, entry, entry.chars, expr, expr.chars
      ensures Valid() && View() == AfterEquals(A, old(View()))
    {
      if !error && entry.len > 0 && (exprStart >= 0 || expr.len == 0) {
        ExprUpdateEntry();
        exprStart := NO_START;
      }
      HandleEquals();
      if !error { ExprSet(entry.chars[..entry.len]); }
    }

    method OpenKey()
      requires Valid()
      modifies `accum, `accumSet, `op, `error, `justResult, `exprStart, `parenDepth
      modifies entry, entry.chars, expr, expr.chars, frames
      ensures Valid() && View() == AfterOpen(A, old(View()))
    {
      if !error { ExprAddParenOpen(entry.len > 0 && op == NO_OP && !accumSet); }
      HandleParenOpen();
    }

    method CloseKey()
      requires Valid()
      modifies `accum, `accumSet, `op, `error, `justResult, `exprStart, `parenDepth
      modifies entry, entry.chars, expr, expr.chars
      ensures Valid() && View() == AfterClose(A, old(View()))
    {
      if !error { ExprAddParenClose(); }
      HandleParenClose();
    }

    method UnaryKey(k: char)
      requires Valid() && IsUnaryKey(k)
      modifies `accum, `accumSet, `op, `error, `justResult, `exprStart, entry, entry.chars, expr, expr.chars
      ensures Valid() && View() == AfterUnary(A, old(View()), k)
    {
      if !error { ExprApplyUnary(k); }
      HandleUnary(k);
    }

    method HandleAction(k: char)
      requires Valid()
      modifies this, entry, entry.chars, expr, expr.chars, frames
      ensures Valid() && View() == PressState(A, old(View()), k)
    {
      if IsDigitKey(k) || k == '.' {
        TypeKey(k);
      } else if IsBinaryKey(k) {
        OperatorKey(k);
      } else if k == '=' {
        EqualsKey();
      } else if k == 'E' || k == 'S' {
        AdjustKey(k);
      } else if k == 'B' {
        HandleBackspace();
      } else if k == '(' {
        OpenKey();
      } else if k == ')' {
        CloseKey();
      } else if k == 'I' {
        inv := !inv;
      } else if IsUnaryKey(k) {
        UnaryKey(k);
      } else if k == 'C' {
        ClearState();
      }
    }

    /** Every sequence of keys: the object is the value machine, and every access was in bounds. */
    method HandleAll(keys: string)
      requires Valid()
      modifies this, entry, entry.chars, expr, expr.chars, frames
      ensures Valid() && View() == RunState(A, old(View()), keys)
    {
      var i := 0;
      assert keys[0..] == keys;
      while i < |keys|
        invariant i <= |keys| && Valid() && RunState(A, View(), keys[i..]) == RunState(A, old(View()), keys)
      {
        assert keys[i..][0] == keys[i] && keys[i..][1..] == keys[i + 1..];
        HandleAction(keys[i]);
        i := i + 1;
      }
    }
  }

  /** The keys of a tree and '=' on a new calculator. */
  method Calculate<N>(A: Arith<N>, c: CalcEval.Chain) returns (state: CalcState<N>)
    requires CalcEval.GoodChain(c)
    ensures fresh(state) && state.Valid()
    ensures var v := CalcEval.ChainValue(A, Mode(false, false), c);
      && (state.error <==> CalcEval.ChainNesting(c) > MAX_PAREN_DEPTH || v.None?)
      && (!state.error ==> CalcEval.Finished(A, state.Num(), v.value))
  {
    state := new CalcState<N>(A);
    ghost var start := state.View();
    var keys := CalcEval.ChainKeys(c) + "=";
    state.HandleAll(keys);
    RunProjects(A, start, keys);
    CalcEval.KeysEvaluate(A, Mode(false, false), c);
  }
}
