/**
 The expression line of AmiCalc on values: the text of what has been typed, kept to its last 256
 characters, with the place where the entry being edited begins.
 */
module CalcText {
  import opened Options
  import opened Calc

  const MAX_EXPR := 256
  const NO_START := -1

  datatype Text = Text(expr: string, start: int)

  /** The most recent characters that fit. */
  function Tail(s: string): (t: string)
    ensures |t| <= MAX_EXPR
  {
    if |s| <= MAX_EXPR then s else s[|s| - MAX_EXPR..]
  }

  function Empty(): Text { Text("", NO_START) }

  function Set(s: string): Text { Text(Tail(s), if s != "" then 0 else NO_START) }

  predicate Overflows(expr: string, add: string) {
    |expr| + (if |add| > MAX_EXPR then MAX_EXPR else |add|) > MAX_EXPR
  }

  function Append(t: Text, add: string): Text {
    Text(Tail(t.expr + add), if Overflows(t.expr, add) then NO_START else t.start)
  }

  /** expr_update_entry: the entry, in the place it has or at the end. */
  function Update(t: Text, entry: string): Text {
    if entry == "" then t
    else if t.start < 0 then Append(t, entry).(start := |t.expr|)
    else
      var p := if t.start > |t.expr| then |t.expr| else t.start;
      Text(Tail(t.expr[..p] + entry), if p + |entry| > MAX_EXPR then Kept(p, |entry|) else t.start)
  }

  /** How much of a prefix is left when what follows it must fit. */
  function Kept(prefix: nat, more: nat): nat { if more >= MAX_EXPR then 0 else MAX_EXPR - more }

  predicate Editing(t: Text) { t.start >= 0 || t.expr == "" }

  /** The entry, if it is still being edited, brought up to date. */
  function Settle(t: Text, entry: string): Text { if Editing(t) then Update(t, entry) else t }

  predicate IsOperator(c: char) { c == '+' || c == '-' || c == '*' || c == '/' || c == '^' || c == 'r' }

  function AddOperator(t: Text, entry: string, op: char): Text {
    if entry != "" then Append(Settle(t, entry).(start := NO_START), [op])
    else if t.expr == "" || t.expr[|t.expr| - 1] == '(' then Append(Append(t, "0"), [op])
    else if IsOperator(t.expr[|t.expr| - 1]) then t.(expr := t.expr[|t.expr| - 1 := op])
    else Append(t, [op])
  }

  lemma BareOperator(t: Text, op: char)
    ensures t.expr != "" && IsOperator(t.expr[|t.expr| - 1]) ==>
      AddOperator(t, "", op) == t.(expr := t.expr[|t.expr| - 1 := op])
    ensures t.expr == "" || t.expr[|t.expr| - 1] == '(' ==> AddOperator(t, "", op) == Append(Append(t, "0"), [op])
    ensures t.expr != "" && !IsOperator(t.expr[|t.expr| - 1]) && t.expr[|t.expr| - 1] != '(' ==>
      AddOperator(t, "", op) == Append(t, [op])
  {}

  function AddParenOpen(t: Text, entry: string, implicitMul: bool): Text {
    var u := Settle(t, entry);
    Append(if implicitMul then Append(u, "*") else u, "(").(start := NO_START)
  }

  function AddParenClose(t: Text, entry: string): Text { Append(Settle(t, entry), ")").(start := NO_START) }

  // ---- the last value of the line -----------------------------------------------------------

  /** The '(' in s[..n] that closes depth open ')', searching backwards; -1 if there is none. */
  function OpenBefore(s: string, n: nat, depth: nat): (r: int)
    requires n <= |s| && depth > 0
    ensures -1 <= r < n && (r >= 0 ==> s[r] == '(')
  {
    if n == 0 then -1
    else if s[n - 1] == ')' then OpenBefore(s, n - 1, depth + 1)
    else if s[n - 1] == '(' then (if depth == 1 then n - 1 else OpenBefore(s, n - 1, depth - 1))
    else OpenBefore(s, n - 1, depth)
  }

  predicate IsWordChar(c: char) { 'a' <= c <= 'z' || 'A' <= c <= 'Z' || '0' <= c <= '9' || c == '^' }

  /** Where the run of word characters that ends at n begins. */
  function WordStart(s: string, n: nat): (r: nat)
    requires n <= |s|
    ensures r <= n && (forall i | r <= i < n :: IsWordChar(s[i])) && (r > 0 ==> !IsWordChar(s[r - 1]))
  {
    if n == 0 || !IsWordChar(s[n - 1]) then n else WordStart(s, n - 1)
  }

  predicate EndsValue(c: char) { c == '+' || c == '*' || c == '/' || c == '^' || c == 'r' || c == '(' || c == ')' }

  /** Where the number that ends at n begins: at an operator, but past a sign or an exponent's '-'. */
  function NumberStart(s: string, n: nat): (r: nat)
    requires n <= |s|
    ensures r <= n
  {
    if n == 0 || EndsValue(s[n - 1]) then n
    else if s[n - 1] != '-' then NumberStart(s, n - 1)
    else if n == 1 then 0
    else if s[n - 2] == 'e' || s[n - 2] == 'E' then NumberStart(s, n - 1)
    else if IsOperator(s[n - 2]) || s[n - 2] == '(' then n - 1
    else n
  }

  /** expr_find_last_value_span: where the last value begins; it ends with the line. */
  function LastValue(s: string): (r: Option<nat>)
    ensures r.Some? ==> r.value < |s|
  {
    if s == "" then None
    else if s[|s| - 1] == ')' then
      var o := OpenBefore(s, |s| - 1, 1);
      if o < 0 then None else Some(WordStart(s, o))
    else
      var r := NumberStart(s, |s|);
      if r < |s| then Some(r) else None
  }

  function Wrap(t: Text, prefix: string, suffix: string): Text {
    var v := LastValue(t.expr);
    if v.None? then t
    else Text(Tail(t.expr[..v.value] + prefix + t.expr[v.value..] + suffix), NO_START)
  }

  /** What a unary key writes before and after its operand. */
  function Wrapping(action: char, inv: bool): (r: (string, string))
    ensures |r.0| <= 5 && |r.1| <= 3 && '\0' !in r.0 && '\0' !in r.1
  {
    match action
    case 'N' => (if inv then "asin(" else "sin(", ")")
    case 'O' => (if inv then "acos(" else "cos(", ")")
    case 'T' => (if inv then "atan(" else "tan(", ")")
    case 'L' => (if inv then "exp(" else "ln(", ")")
    case 'G' => (if inv then "10^(" else "log(", ")")
    case 'X' => (if inv then "ln(" else "e^(", ")")
    case 'Q' => (if inv then "(" else "sqrt(", if inv then ")^2" else ")")
    case '%' => ("", "%")
    case _ => ("", "!")
  }

  function ApplyUnary<N>(A: Arith<N>, t: Text, m: Machine<N>, inv: bool, action: char): Text {
    var u :=
      if m.entry != "" && Editing(t) then Update(t, m.entry)
      else if t.expr == "" && m.accumSet then Set(A.format(m.accum))
      else t;
    Wrap(u, Wrapping(action, inv).0, Wrapping(action, inv).1)
  }

  // ---- keys ---------------------------------------------------------------------------------

  function BackspaceText<N>(t: Text, m: Machine<N>): Text {
    if m.error || m.entry == "" || !Editing(t) then t
    else if |m.entry| > 1 then Update(t, m.entry[..|m.entry| - 1])
    else if t.start >= 0 then Text(t.expr[..if t.start > |t.expr| then |t.expr| else t.start], NO_START)
    else t
  }

  function EqualsText<N>(A: Arith<N>, t: Text, m: Machine<N>): Text {
    var done := Equals(A, m);
    if !done.error then Set(done.entry)
    else if !m.error && m.entry != "" && Editing(t) then Update(t, m.entry).(start := NO_START)
    else t
  }

  datatype State<N> = State(m: Machine<N>, t: Text, mode: Mode)

  // ---- handle_action, one function per kind of key ---------------------------------------------

  function AfterType<N>(s: State<N>, k: char): State<N> {
    var m := if k == '.' then Decimal(s.m) else Digit(s.m, k);
    var u := if s.m.justResult then Empty() else s.t;
    State(m, if m.error then u else Update(u, m.entry), s.mode)
  }

  function AfterAdjust<N>(s: State<N>, k: char): State<N> {
    var m := if k == 'E' then Exponent(s.m) else Sign(s.m);
    var u := if s.m.justResult then Set(s.m.entry) else s.t;
    State(m, if m.error then u else Settle(u, m.entry), s.mode)
  }

  function AfterBackspace<N>(s: State<N>): State<N> { State(Backspace(s.m), BackspaceText(s.t, s.m), s.mode) }

  function AfterOperator<N>(A: Arith<N>, s: State<N>, k: char): State<N> {
    var o := OpOf(k, s.mode.inv);
    State(Operator(A, s.m, o), if s.m.error then s.t else AddOperator(s.t, s.m.entry, o), s.mode)
  }

  function AfterEquals<N>(A: Arith<N>, s: State<N>): State<N> {
    State(Equals(A, s.m), EqualsText(A, s.t, s.m), s.mode)
  }

  function AfterOpen<N>(A: Arith<N>, s: State<N>): State<N> {
    State(ParenOpen(A, s.m), if s.m.error then s.t else AddParenOpen(s.t, s.m.entry, ImplicitMul(s.m)), s.mode)
  }

  function AfterClose<N>(A: Arith<N>, s: State<N>): State<N> {
    State(ParenClose(A, s.m), if s.m.error then s.t else AddParenClose(s.t, s.m.entry), s.mode)
  }

  function AfterUnary<N>(A: Arith<N>, s: State<N>, k: char): State<N> {
    State(Unary(A, s.m, s.mode, k), if s.m.error then s.t else ApplyUnary(A, s.t, s.m, s.mode.inv, k), s.mode)
  }

  function PressState<N>(A: Arith<N>, s: State<N>, k: char): State<N> {
    if IsDigitKey(k) || k == '.' then AfterType(s, k)
    else if IsBinaryKey(k) then AfterOperator(A, s, k)
    else if k == '=' then AfterEquals(A, s)
    else if k == 'E' || k == 'S' then AfterAdjust(s, k)
    else if k == 'B' then AfterBackspace(s)
    else if k == '(' then AfterOpen(A, s)
    else if k == ')' then AfterClose(A, s)
    else if k == 'I' then s.(mode := ModeAfter(s.mode, k))
    else if IsUnaryKey(k) then AfterUnary(A, s, k)
    else if k == 'C' then State(Cleared(A), Empty(), s.mode)
    else s
  }

  function RunState<N>(A: Arith<N>, s: State<N>, keys: string): State<N>
    decreases |keys|
  {
    if keys == "" then s else RunState(A, PressState(A, s, keys[0]), keys[1..])
  }

  lemma PressProjects<N>(A: Arith<N>, s: State<N>, k: char)
    ensures PressState(A, s, k).m == Press(A, s.m, s.mode, k) && PressState(A, s, k).mode == ModeAfter(s.mode, k)
  {}

  /** The line never disturbs the numbers. */
  lemma {:induction false} RunProjects<N>(A: Arith<N>, s: State<N>, keys: string)
    ensures RunState(A, s, keys).m == Run(A, s.m, s.mode, keys)
    decreases |keys|
  {
    if keys != "" {
      PressProjects(A, s, keys[0]);
      RunProjects(A, PressState(A, s, keys[0]), keys[1..]);
    }
  }

  // ---- what every run keeps -------------------------------------------------------------------

  predicate StateInv<N>(s: State<N>) { Inv(s.m) && TextInv(s.t) }

  predicate TextInv(t: Text) { |t.expr| <= MAX_EXPR && '\0' !in t.expr && NO_START <= t.start <= |t.expr| }

  lemma AppendKeeps(t: Text, add: string)
    requires TextInv(t) && '\0' !in add
    ensures TextInv(Append(t, add)) && |t.expr| <= |Append(t, add).expr|
  {}

  lemma {:induction false} UpdateKeeps(t: Text, entry: string)
    requires TextInv(t) && Clean(entry)
    ensures TextInv(Update(t, entry)) && TextInv(Settle(t, entry))
  {
    if t.start < 0 { AppendKeeps(t, entry); }
  }

  lemma {:induction false} OperatorKeeps(t: Text, entry: string, op: char)
    requires TextInv(t) && Clean(entry) && op != '\0'
    ensures TextInv(AddOperator(t, entry, op))
  {
    UpdateKeeps(t, entry);
    AppendKeeps(Settle(t, entry).(start := NO_START), [op]);
    AppendKeeps(t, "0");
    AppendKeeps(Append(t, "0"), [op]);
    AppendKeeps(t, [op]);
  }

  lemma {:induction false} ParensKeep(t: Text, entry: string, implicitMul: bool)
    requires TextInv(t) && Clean(entry)
    ensures TextInv(AddParenOpen(t, entry, implicitMul)) && TextInv(AddParenClose(t, entry))
  {
    UpdateKeeps(t, entry);
    var u := Settle(t, entry);
    AppendKeeps(u, "*");
    AppendKeeps(Append(u, "*"), "(");
    AppendKeeps(u, "(");
    AppendKeeps(u, ")");
  }

  lemma WrapKeeps(t: Text, prefix: string, suffix: string)
    requires TextInv(t) && '\0' !in prefix && '\0' !in suffix
    ensures TextInv(Wrap(t, prefix, suffix))
  {}

  lemma {:induction false} UnaryKeeps<N>(A: Arith<N>, t: Text, m: Machine<N>, inv: bool, action: char)
    requires TextInv(t) && Clean(m.entry)
    ensures TextInv(ApplyUnary(A, t, m, inv, action))
  {
    UpdateKeeps(t, m.entry);
    var w := Wrapping(action, inv);
    WrapKeeps(Update(t, m.entry), w.0, w.1);
    WrapKeeps(Set(A.format(m.accum)), w.0, w.1);
    WrapKeeps(t, w.0, w.1);
  }

  lemma {:induction false} BackspaceKeeps<N>(t: Text, m: Machine<N>)
    requires TextInv(t) && Clean(m.entry)
    ensures TextInv(BackspaceText(t, m))
  {
    if m.entry != "" { UpdateKeeps(t, m.entry[..|m.entry| - 1]); }
  }

  lemma EditKeepsText<N>(s: State<N>, k: char)
    requires StateInv(s)
    ensures (IsDigitKey(k) || k == '.') && Inv(AfterType(s, k).m) ==> TextInv(AfterType(s, k).t)
    ensures (k == 'E' || k == 'S') && Inv(AfterAdjust(s, k).m) ==> TextInv(AfterAdjust(s, k).t)
  {
    var e := if k == 'E' || k == 'S' then AfterAdjust(s, k).m.entry else AfterType(s, k).m.entry;
    if Clean(e) {
      UpdateKeeps(s.t, e);
      UpdateKeeps(Empty(), e);
      UpdateKeeps(Set(s.m.entry), e);
    }
  }

  lemma {:induction false} EqualsKeepsText<N>(A: Arith<N>, t: Text, m: Machine<N>)
    requires TextInv(t) && Inv(m)
    ensures TextInv(EqualsText(A, t, m))
  {
    ValueKeeps(A, m, Mode(false, false), '=', NO_OP);
    UpdateKeeps(t, m.entry);
  }

  lemma PressStateKeeps<N>(A: Arith<N>, s: State<N>, k: char)
    requires StateInv(s)
    ensures StateInv(PressState(A, s, k))
  {
    var m := s.m;
    PressKeeps(A, m, s.mode, k);
    PressProjects(A, s, k);
    if IsDigitKey(k) || k == '.' || k == 'E' || k == 'S' {
      EditKeepsText(s, k);
    } else if k == '=' {
      EqualsKeepsText(A, s.t, m);
    } else if k == 'B' {
      BackspaceKeeps(s.t, m);
    } else if k == '(' || k == ')' {
      ParensKeep(s.t, m.entry, ImplicitMul(m));
    } else if IsBinaryKey(k) {
      OperatorKeeps(s.t, m.entry, OpOf(k, s.mode.inv));
    } else if IsUnaryKey(k) {
      UnaryKeeps(A, s.t, m, s.mode.inv, k);
    }
  }

  /** Over every sequence of keys, the entry, the line, its mark and the stack stay in their bounds. */
  lemma {:induction false} RunStateKeeps<N>(A: Arith<N>, s: State<N>, keys: string)
    requires StateInv(s)
    ensures StateInv(RunState(A, s, keys))
    decreases |keys|
  {
    if keys != "" {
      PressStateKeeps(A, s, keys[0]);
      RunStateKeeps(A, PressState(A, s, keys[0]), keys[1..]);
    }
  }

  // ---- the last value is a balanced suffix -------------------------------------------------------

  /** How many more ')' than '(' there are from n on. */
  function Closes(s: string, n: nat): int
    requires n <= |s|
    decreases |s| - n
  {
    if n == |s| then 0 else (if s[n] == ')' then 1 else if s[n] == '(' then -1 else 0) + Closes(s, n + 1)
  }

  /** The parenthesis found is the nearest one that balances everything after it. */
  lemma {:induction false} OpenBeforeBalances(s: string, n: nat, depth: nat)
    requires n <= |s| && depth > 0 && Closes(s, n) == depth
    ensures var r := OpenBefore(s, n, depth);
      && (r >= 0 ==> Closes(s, r) == 0)
      && (forall i | (if r < 0 then 0 else r + 1) <= i <= n :: Closes(s, i) > 0)
  {
    if n > 0 && !(s[n - 1] == '(' && depth == 1) {
      OpenBeforeBalances(s, n - 1, Closes(s, n - 1));
    }
  }
}
