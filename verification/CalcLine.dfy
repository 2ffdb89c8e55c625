/**
 What the expression line shows: the text of the tree whose keys were pressed, as long as it fits,
 and where that stops being true.
 */
module CalcLine {
  import opened Calc
  import opened CalcEval
  import opened CalcText

  // Trees whose numbers are typed as digits and that call no functions.

  predicate SimpleOperand(o: Operand) {
    match o
    case Literal(keys) => keys != "" && (forall k | k in keys :: IsDigitKey(k))
    case Paren(c) => SimpleChain(c)
    case Function(_, _) => false
  }

  predicate SimpleChain(c: Chain) { SimpleOperand(c.first) && SimpleTerms(c.rest) }

  predicate SimpleTerms(t: Terms) { t.More? ==> IsBinaryKey(t.key) && SimpleOperand(t.operand) && SimpleTerms(t.rest) }

  lemma {:induction false} SimpleOperandGood(o: Operand)
    requires SimpleOperand(o)
    ensures GoodOperand(o)
  {
    match o
    case Literal(keys) =>
      DigitsTyped("", keys);
      assert "" + keys == keys;
    case Paren(c) => SimpleGood(c);
  }

  lemma {:induction false} SimpleGood(c: Chain)
    requires SimpleChain(c)
    ensures GoodChain(c)
  {
    SimpleOperandGood(c.first);
    SimpleTermsGood(c.rest);
  }

  lemma {:induction false} SimpleTermsGood(t: Terms)
    requires SimpleTerms(t)
    ensures GoodTerms(t)
  {
    if t.More? {
      SimpleOperandGood(t.operand);
      SimpleTermsGood(t.rest);
    }
  }

  function OperandText(o: Operand, inv: bool): string
    requires SimpleOperand(o)
  {
    match o
    case Literal(ds) => Cut(ds)
    case Paren(c) => "(" + (ChainText(c, inv) + ")")
  }

  function ChainText(c: Chain, inv: bool): string
    requires SimpleChain(c)
  {
    OperandText(c.first, inv) + TermsText(c.rest, inv)
  }

  function TermsText(t: Terms, inv: bool): string
    requires SimpleTerms(t)
  {
    match t
    case End => ""
    case More(k, o, rest) => [OpOf(k, inv)] + (OperandText(o, inv) + TermsText(rest, inv))
  }

  /** An accumulator is held just when an operator waits for its right side. */
  predicate Paired<N>(m: Machine<N>) {
    && (m.accumSet <==> m.op != NO_OP)
    && (forall i | 0 <= i < |m.parens| :: m.parens[i].accumSet <==> m.parens[i].op != NO_OP)
  }

  /** Nothing being edited, after a text. */
  predicate Blank<N>(s: State<N>, text: string) {
    !s.m.error && !s.m.justResult && s.m.entry == "" && Paired(s.m) && s.t == Text(text, NO_START)
  }

  /** An operand at the end of a text, with the mark, if any, at the entry. */
  predicate Shows<N>(s: State<N>, text: string) {
    && !s.m.error && s.m.entry != "" && Paired(s.m) && text != "" && s.t.expr == text && |text| <= MAX_EXPR
    && (s.t.start == NO_START || (0 <= s.t.start <= |text| && text[s.t.start..] == s.m.entry))
  }

  // ---- runs of states ------------------------------------------------------------------------

  lemma {:induction false} RunStateConcat<N>(A: Arith<N>, s: State<N>, a: string, b: string)
    ensures RunState(A, s, a + b) == RunState(A, RunState(A, s, a), b)
    decreases |a|
  {
    if a == "" {
      assert a + b == b;
    } else {
      assert (a + b)[0] == a[0] && (a + b)[1..] == a[1..] + b;
      RunStateConcat(A, PressState(A, s, a[0]), a[1..], b);
    }
  }

  lemma {:induction false} RunStateOne<N>(A: Arith<N>, s: State<N>, k: char)
    ensures RunState(A, s, [k]) == PressState(A, s, k)
  {
    assert [k][1..] == "";
  }

  lemma {:induction false} ModeProjects<N>(A: Arith<N>, s: State<N>, keys: string)
    requires Plain(keys)
    ensures RunState(A, s, keys).mode == s.mode
    decreases |keys|
  {
    if keys != "" {
      assert keys[0] != 'I' && Plain(keys[1..]);
      ModeProjects(A, PressState(A, s, keys[0]), keys[1..]);
    }
  }

  /** A stretch of plain keys after a state, when no error came of it. */
  lemma {:induction false} Stretch<N>(A: Arith<N>, s: State<N>, a: string, b: string)
    requires Plain(a) && Plain(b) && !RunState(A, s, a + b).m.error
    ensures RunState(A, s, a + b) == RunState(A, RunState(A, s, a), b)
    ensures !RunState(A, s, a).m.error && RunState(A, s, a).mode == s.mode
  {
    RunStateConcat(A, s, a, b);
    ModeProjects(A, s, a);
    var mid := RunState(A, s, a);
    RunProjects(A, mid, b);
    if mid.m.error { ErrorSticks(A, mid.m, mid.mode, b); }
  }

  lemma {:induction false} StretchKey<N>(A: Arith<N>, s: State<N>, k: char, b: string)
    requires Plain([k]) && Plain(b) && !RunState(A, s, [k] + b).m.error
    ensures RunState(A, s, [k] + b) == RunState(A, PressState(A, s, k), b)
    ensures !PressState(A, s, k).m.error && PressState(A, s, k).mode == s.mode
  {
    RunStateOne(A, s, k);
    Stretch(A, s, [k], b);
  }

  // ---- one key ---------------------------------------------------------------------------------

  /** The line while a number is typed after a base text. */
  function Typing(base: string, entry: string): Text {
    if entry == "" then Text(base, NO_START) else Text(base + entry, |base|)
  }

  lemma {:induction false} UpdateTyping(base: string, was: string, entry: string)
    requires entry != "" && |base| + |was| <= MAX_EXPR && |base| + |entry| <= MAX_EXPR
    ensures Update(Typing(base, was), entry) == Typing(base, entry)
  {
    if was != "" { assert (base + was)[..|base|] == base; }
  }

  lemma {:induction false} DigitShown<N>(A: Arith<N>, s: State<N>, base: string, d: char)
    requires IsDigitKey(d) && !s.m.error && !s.m.justResult && s.t == Typing(base, s.m.entry)
    requires |s.m.entry| <= MAX_ENTRY && |base| + |Cut(s.m.entry + [d])| <= MAX_EXPR
    ensures var e := Cut(s.m.entry + [d]); PressState(A, s, d) == State(s.m.(entry := e), Typing(base, e), s.mode)
  {
    UpdateTyping(base, s.m.entry, Cut(s.m.entry + [d]));
    if |s.m.entry| == MAX_ENTRY { assert Cut(s.m.entry + [d]) == s.m.entry; }
  }

  /** Backspace takes a digit back from the entry and from the line, to the last one. */
  lemma DigitErased<N>(A: Arith<N>, s: State<N>, base: string, d: char)
    requires IsDigitKey(d) && !s.m.error && !s.m.justResult && s.t == Typing(base, s.m.entry)
    requires |s.m.entry| < MAX_ENTRY && |base| + |s.m.entry| < MAX_EXPR
    ensures PressState(A, PressState(A, s, d), 'B') == s
  {
    DigitShown(A, s, base, d);
    var e := s.m.entry + [d];
    assert Cut(e) == e && e[..|s.m.entry|] == s.m.entry;
    assert PressState(A, PressState(A, s, d), 'B') == AfterBackspace(PressState(A, s, d));
    LastTakenBack(base, s.m.(entry := e), s.m.entry);
  }

  lemma LastTakenBack<N>(base: string, m: Machine<N>, before: string)
    requires !m.error && m.entry != "" && m.entry[..|m.entry| - 1] == before && |base| + |m.entry| <= MAX_EXPR
    ensures BackspaceText(Typing(base, m.entry), m) == Typing(base, before)
  {
    if before == "" {
      assert (base + m.entry)[..|base|] == base;
    } else {
      UpdateTyping(base, m.entry, before);
    }
  }

  lemma TypedSteps(e: string, d: char, ds: string)
    requires |e| <= MAX_ENTRY
    ensures Cut(Cut(e + [d]) + ds) == Cut(e + ([d] + ds)) && |Cut(e + [d])| <= |Cut(e + ([d] + ds))|
  {}

  lemma {:induction false} DigitsShown<N>(A: Arith<N>, s: State<N>, base: string, ds: string)
    requires (forall c | c in ds :: IsDigitKey(c)) && !s.m.error && !s.m.justResult
    requires s.t == Typing(base, s.m.entry) && |s.m.entry| <= MAX_ENTRY && |base| + |Cut(s.m.entry + ds)| <= MAX_EXPR
    ensures RunState(A, s, ds) == State(s.m.(entry := Cut(s.m.entry + ds)), Typing(base, Cut(s.m.entry + ds)), s.mode)
    decreases |ds|
  {
    if ds == "" {
      assert s.m.entry + ds == s.m.entry;
    } else {
      var d, rest := ds[0], ds[1..];
      assert d in ds && (forall c | c in rest :: c in ds) && ds == [d] + rest;
      TypedSteps(s.m.entry, d, rest);
      DigitShown(A, s, base, d);
      DigitsShown(A, PressState(A, s, d), base, rest);
    }
  }

  lemma {:induction false} SettleShown(t: Text, entry: string, text: string)
    requires entry != "" && text != "" && t.expr == text && |text| <= MAX_EXPR
    requires t.start == NO_START || (0 <= t.start <= |text| && text[t.start..] == entry)
    ensures Settle(t, entry).expr == text
  {
    if t.start >= 0 { assert text[..t.start] + entry == text; }
  }

  lemma {:induction false} OperatorShown<N>(A: Arith<N>, s: State<N>, text: string, k: char)
    requires IsBinaryKey(k) && Shows(s, text) && |text| < MAX_EXPR && !PressState(A, s, k).m.error
    ensures Blank(PressState(A, s, k), text + [OpOf(k, s.mode.inv)])
  {
    SettleShown(s.t, s.m.entry, text);
  }

  lemma OpenShown<N>(A: Arith<N>, s: State<N>, text: string)
    requires Blank(s, text) && |text| < MAX_EXPR && !PressState(A, s, '(').m.error
    ensures Blank(PressState(A, s, '('), text + "(")
  {}

  lemma {:induction false} CloseShown<N>(A: Arith<N>, s: State<N>, text: string)
    requires Shows(s, text) && |text| < MAX_EXPR && !PressState(A, s, ')').m.error
    ensures Shows(PressState(A, s, ')'), text + ")")
  {
    SettleShown(s.t, s.m.entry, text);
  }

  // ---- whole trees -----------------------------------------------------------------------------

  lemma Regroup(a: string, b: string, c: string, d: string)
    ensures a + b + c == a + (b + c) && a + b + c + d == a + (b + (c + d))
  {}

  lemma {:induction false} OperandShown<N>(A: Arith<N>, s: State<N>, base: string, o: Operand, end: State<N>)
    requires SimpleOperand(o) && Blank(s, base) && |base + OperandText(o, s.mode.inv)| <= MAX_EXPR
    requires end == RunState(A, s, OperandKeys(o)) && !end.m.error
    ensures Shows(end, base + OperandText(o, s.mode.inv))
    decreases o
  {
    match o
    case Literal(ds) =>
      assert s.m.entry + ds == ds;
      DigitsShown(A, s, base, ds);
      assert (base + Cut(ds))[|base|..] == Cut(ds);
    case Paren(c) => ParenShown(A, s, base, c, end);
  }

  lemma {:induction false} ParenShown<N>(A: Arith<N>, s: State<N>, base: string, c: Chain, end: State<N>)
    requires SimpleChain(c) && Blank(s, base) && |base + OperandText(Paren(c), s.mode.inv)| <= MAX_EXPR
    requires end == RunState(A, s, OperandKeys(Paren(c))) && !end.m.error
    ensures Shows(end, base + OperandText(Paren(c), s.mode.inv))
    decreases c, 1
  {
    var keys, text := ChainKeys(c), ChainText(c, s.mode.inv);
    SimpleGood(c);
    ChainPlain(c);
    StretchKey(A, s, '(', keys + ")");
    OpenShown(A, s, base);
    InsideShown(A, PressState(A, s, '('), base + "(", c, end);
    Regroup(base, "(", text, ")");
  }

  lemma {:induction false} InsideShown<N>(A: Arith<N>, s: State<N>, base: string, c: Chain, end: State<N>)
    requires SimpleChain(c) && Blank(s, base) && |base + ChainText(c, s.mode.inv)| < MAX_EXPR
    requires end == RunState(A, s, ChainKeys(c) + ")") && !end.m.error
    ensures Shows(end, base + ChainText(c, s.mode.inv) + ")")
    decreases c, 0, 1
  {
    SimpleGood(c);
    ChainPlain(c);
    Stretch(A, s, ChainKeys(c), ")");
    var done := RunState(A, s, ChainKeys(c));
    ChainShown(A, s, base, c, done);
    RunStateOne(A, done, ')');
    CloseShown(A, done, base + ChainText(c, s.mode.inv));
  }

  lemma {:induction false} ChainShown<N>(A: Arith<N>, s: State<N>, base: string, c: Chain, end: State<N>)
    requires SimpleChain(c) && Blank(s, base) && |base + ChainText(c, s.mode.inv)| <= MAX_EXPR
    requires end == RunState(A, s, ChainKeys(c)) && !end.m.error
    ensures Shows(end, base + ChainText(c, s.mode.inv))
    decreases c, 0, 0
  {
    var keys, text := OperandKeys(c.first), OperandText(c.first, s.mode.inv);
    SimpleGood(c);
    OperandPlain(c.first);
    TermsPlain(c.rest);
    Stretch(A, s, keys, TermsKeys(c.rest));
    Regroup(base, text, TermsText(c.rest, s.mode.inv), "");
    var mid := RunState(A, s, keys);
    OperandShown(A, s, base, c.first, mid);
    TermsShown(A, mid, base + text, c.rest, end);
  }

  lemma {:induction false} TermsShown<N>(A: Arith<N>, s: State<N>, text: string, t: Terms, end: State<N>)
    requires SimpleTerms(t) && Shows(s, text) && |text + TermsText(t, s.mode.inv)| <= MAX_EXPR
    requires end == RunState(A, s, TermsKeys(t)) && !end.m.error
    ensures Shows(end, text + TermsText(t, s.mode.inv))
    decreases t
  {
    match t
    case End => assert text + "" == text;
    case More(k, o, rest) =>
      SimpleTermsGood(t);
      TermsPlain(t);
      OperandPlain(o);
      TermsPlain(rest);
      StretchKey(A, s, k, OperandKeys(o) + TermsKeys(rest));
      OperatorShown(A, s, text, k);
      Regroup(text, [OpOf(k, s.mode.inv)], OperandText(o, s.mode.inv), TermsText(rest, s.mode.inv));
      TermShown(A, PressState(A, s, k), text + [OpOf(k, s.mode.inv)], t, end);
  }

  lemma {:induction false} TermShown<N>(A: Arith<N>, s: State<N>, base: string, t: Terms, end: State<N>)
    requires t.More? && SimpleTerms(t) && Blank(s, base)
    requires |base + OperandText(t.operand, s.mode.inv) + TermsText(t.rest, s.mode.inv)| <= MAX_EXPR
    requires end == RunState(A, s, OperandKeys(t.operand) + TermsKeys(t.rest)) && !end.m.error
    ensures Shows(end, base + OperandText(t.operand, s.mode.inv) + TermsText(t.rest, s.mode.inv))
    decreases t, 0
  {
    SimpleTermsGood(t);
    OperandPlain(t.operand);
    TermsPlain(t.rest);
    Stretch(A, s, OperandKeys(t.operand), TermsKeys(t.rest));
    var mid := RunState(A, s, OperandKeys(t.operand));
    OperandShown(A, s, base, t.operand, mid);
    TermsShown(A, mid, base + OperandText(t.operand, s.mode.inv), t.rest, end);
  }

  /** Until the line is full it shows exactly the tree whose keys were pressed. */
  lemma {:induction false} LineShowsTree<N>(A: Arith<N>, mode: Mode, c: Chain)
    requires SimpleChain(c) && |ChainText(c, mode.inv)| <= MAX_EXPR
    requires !RunState(A, State(Cleared(A), Empty(), mode), ChainKeys(c)).m.error
    ensures RunState(A, State(Cleared(A), Empty(), mode), ChainKeys(c)).t.expr == ChainText(c, mode.inv)
  {
    var start := State(Cleared(A), Empty(), mode);
    ChainShown(A, start, "", c, RunState(A, start, ChainKeys(c)));
    assert "" + ChainText(c, mode.inv) == ChainText(c, mode.inv);
  }

  // ---- the line and the numbers together --------------------------------------------------------------

  /** An operator right behind another takes its place, in the line as in the numbers. */
  lemma OperatorReplaces<N>(A: Arith<N>, s: State<N>, first: char, second: char)
    requires IsBinaryKey(first) && IsBinaryKey(second) && !s.m.error && !AfterOperator(A, s, first).m.error
    ensures AfterOperator(A, AfterOperator(A, s, first), second) == AfterOperator(A, s, second)
  {
    var o1, o2 := OpOf(first, s.mode.inv), OpOf(second, s.mode.inv);
    LineOperatorReplaces(s.t, s.m.entry, o1, o2);
  }

  lemma LineOperatorReplaces(t: Text, entry: string, first: char, second: char)
    requires IsOperator(first) && IsOperator(second)
    ensures AddOperator(AddOperator(t, entry, first), "", second) == AddOperator(t, entry, second)
  {
    if entry != "" {
      AppendReplaced(Settle(t, entry).(start := NO_START), first, second);
    } else {
      BareOperator(t, first);
      BareOperator(t, second);
      if t.expr == "" || t.expr[|t.expr| - 1] == '(' {
        AppendReplaced(Append(t, "0"), first, second);
      } else if !IsOperator(t.expr[|t.expr| - 1]) {
        AppendReplaced(t, first, second);
      } else {
        BareOperator(t.(expr := t.expr[|t.expr| - 1 := first]), second);
        assert t.expr[|t.expr| - 1 := first][|t.expr| - 1 := second] == t.expr[|t.expr| - 1 := second];
      }
    }
  }

  lemma AppendReplaced(t: Text, first: char, second: char)
    requires IsOperator(first)
    ensures AddOperator(Append(t, [first]), "", second) == Append(t, [second])
  {
    var u := Append(t, [first]);
    assert u.expr != "" && u.expr[|u.expr| - 1] == first;
    assert (t.expr + [first])[..|t.expr|] == (t.expr + [second])[..|t.expr|];
    assert u.expr[|u.expr| - 1 := second] == Append(t, [second]).expr;
  }

  /** Where '(' supplies a '*', line and numbers are as if it had been pressed. */
  lemma StarSupplied<N>(A: Arith<N>, s: State<N>)
    requires !s.m.error && ImplicitMul(s.m) && |s.m.parens| < MAX_PAREN_DEPTH
    ensures AfterOpen(A, s) == AfterOpen(A, AfterOperator(A, s, '*'))
  {
    var t := AddOperator(s.t, s.m.entry, '*');
    assert t.expr != "";
  }

  /** After '=' the line is the number shown. */
  lemma ResultShown<N>(A: Arith<N>, s: State<N>)
    requires Inv(s.m) && !AfterEquals(A, s).m.error
    ensures AfterEquals(A, s).t == Text(AfterEquals(A, s).m.entry, 0) && AfterEquals(A, s).m.entry != ""
  {}

  /** A digit typed on a result begins a new line. */
  lemma LineBegun<N>(A: Arith<N>, s: State<N>, d: char)
    requires IsDigitKey(d) && !s.m.error && s.m.justResult
    ensures AfterType(s, d) == State(s.m.(entry := [d], justResult := false), Text([d], 0), s.mode)
  {
    assert "" + [d] == [d];
  }

  /** An exponent or a sign put on a result edits what is shown, and the line is that. */
  lemma ResultAdjusted<N>(s: State<N>, k: char)
    requires (k == 'E' || k == 'S') && Inv(s.m) && s.m.entry != "" && !s.m.error && s.m.justResult
    requires AfterAdjust(s, k).m.entry != ""
    ensures AfterAdjust(s, k).t == Text(AfterAdjust(s, k).m.entry, 0)
    ensures AfterAdjust(s, k).m.entry == Edited(s.m.entry, k)
  {
    var e := AfterAdjust(s, k).m.entry;
    SignKeeps(s.m.entry);
    ExpKeeps(s.m.entry);
    assert Set(s.m.entry).expr[..0] + e == e;
  }

  // ---- a line without room ---------------------------------------------------------------------

  /** From `from` to `end` the text repeats itself `shift` characters later. */
  predicate Repeats(text: string, from: nat, end: nat, shift: nat)
    requires end + shift <= |text|
  {
    forall j | from <= j < end :: text[j + shift] == text[j]
  }

  /** How many characters of a line are lost when n more must fit. */
  function Lost(line: nat, n: nat): nat { if line + n <= MAX_EXPR then 0 else line + n - MAX_EXPR }

  lemma TailsAgree(a: string, b: string, e: string)
    requires |a| == |b| && |e| <= MAX_EXPR
    ensures Tail(a + e) == Tail(b + e) <==> forall j | Lost(|a|, |e|) <= j < |a| :: a[j] == b[j]
  {
    var n := Lost(|a|, |e|);
    TailOf(a, e);
    TailOf(b, e);
    SameFront(a[n..], b[n..], e);
    SameSuffix(a, b, n);
  }

  lemma TailOf(a: string, e: string)
    requires |e| <= MAX_EXPR
    ensures Tail(a + e) == a[Lost(|a|, |e|)..] + e
  {}

  lemma SameFront(a: string, b: string, e: string)
    requires |a| == |b|
    ensures a + e == b + e <==> a == b
  {
    assert (a + e)[..|a|] == a && (b + e)[..|a|] == b;
  }

  lemma SameSuffix(a: string, b: string, n: nat)
    requires n <= |a| == |b|
    ensures a[n..] == b[n..] <==> forall j | n <= j < |a| :: a[j] == b[j]
  {
    if a[n..] == b[n..] {
      forall j | n <= j < |a| ensures a[j] == b[j] { assert a[n..][j - n] == b[n..][j - n]; }
    }
  }

  /** The entry is right if there is room for e1; in a fuller line the mark is off by what is lost. */
  predicate RightWith(line: string, e1: string, e2: string)
    requires |line| <= MAX_EXPR
  {
    Lost(|line|, |e1|) == 0 || Repeats(line + e1, Lost(|line|, |e2|), |line|, Lost(|line|, |e1|))
  }

  /**
   An entry e1 typed behind a line and then edited to e2. The append drops the oldest characters to
   make room, but marks the entry where it would have begun without that, so e2 replaces too little.
   The line ends up right exactly when e1 fits, or when what e2 leaves of it repeats by as many
   characters as e1 pushed out.
   */
  lemma FullLineExactly(line: string, e1: string, e2: string)
    requires |line| <= MAX_EXPR && 0 < |e1| <= MAX_ENTRY && 0 < |e2| <= MAX_ENTRY
    ensures Update(Update(Text(line, NO_START), e1), e2).expr == Tail(line + e2) <==> RightWith(line, e1, e2)
  {
    var once, all, n := Update(Text(line, NO_START), e1), line + e1, Lost(|line|, |e1|);
    assert once == Text(all[n..], |line|);
    var kept := all[n..][..|line|];
    TailsAgree(kept, line, e2);
    forall j | 0 <= j < |line| ensures kept[j] == all[j + n] && all[j] == line[j] {}
  }

  /** The same by keys: two digits or points typed behind the line of any state. */
  lemma TwoKeysExactly<N>(A: Arith<N>, s: State<N>, k1: char, k2: char)
    requires !s.m.error && !s.m.justResult && s.m.entry == "" && s.t.start == NO_START && |s.t.expr| <= MAX_EXPR
    requires (IsDigitKey(k1) || k1 == '.') && (IsDigitKey(k2) || k2 == '.')
    ensures var e1 := Edited("", k1);
      var e2 := Edited(e1, k2);
      RunState(A, s, [k1, k2]).t.expr == Tail(s.t.expr + e2) <==> RightWith(s.t.expr, e1, e2)
  {
    TwoKeys(A, s, k1, k2);
    EditedShort("", k1);
    EditedShort(Edited("", k1), k2);
    FullLineExactly(s.t.expr, Edited("", k1), Edited(Edited("", k1), k2));
  }

  lemma EditedShort(s: string, k: char)
    requires |s| <= 2 && (IsDigitKey(k) || k == '.')
    ensures 0 < |Edited(s, k)| <= |s| + 2
  {}

  lemma KeyTyped<N>(A: Arith<N>, s: State<N>, k: char)
    requires !s.m.error && !s.m.justResult && (IsDigitKey(k) || k == '.')
    ensures var e := Edited(s.m.entry, k); PressState(A, s, k) == State(s.m.(entry := e), Update(s.t, e), s.mode)
  {}

  lemma TwoKeys<N>(A: Arith<N>, s: State<N>, k1: char, k2: char)
    requires !s.m.error && !s.m.justResult && (IsDigitKey(k1) || k1 == '.') && (IsDigitKey(k2) || k2 == '.')
    ensures var e1 := Edited(s.m.entry, k1);
      var e2 := Edited(e1, k2);
      RunState(A, s, [k1, k2]) == State(s.m.(entry := e2), Update(Update(s.t, e1), e2), s.mode)
  {
    assert [k1, k2][1..] == [k2];
    KeyTyped(A, s, k1);
    RunStateOne(A, PressState(A, s, k1), k2);
    KeyTyped(A, PressState(A, s, k1), k2);
  }

  /** n times the keys 1 and +. */
  function Ones(n: nat): (keys: string)
    ensures |keys| == 2 * n && (n > 0 ==> keys[2 * n - 1] == '+')
  {
    if n == 0 then "" else Ones(n - 1) + "1+"
  }

  predicate Adding<N>(s: State<N>, text: string) { Blank(s, text) && (s.m.op == NO_OP || s.m.op == '+') }

  lemma OneMore<N>(A: Arith<N>, s: State<N>, text: string)
    requires Adding(s, text) && |text| + 2 <= MAX_EXPR
    ensures Adding(RunState(A, s, "1+"), text + "1+")
  {
    var s1 := PressState(A, s, '1');
    assert "1+"[1..] == "+" && s.m.entry + ['1'] == "1";
    RunStateOne(A, s1, '+');
    DigitShown(A, s, text, '1');
    assert (text + "1")[|text|..] == "1" && text + "1" + ['+'] == text + "1+";
    OperatorShown(A, s1, text + "1", '+');
  }

  lemma {:induction false} LineFills<N>(A: Arith<N>, mode: Mode, n: nat)
    requires 2 * n <= MAX_EXPR
    ensures Adding(RunState(A, State(Cleared(A), Empty(), mode), Ones(n)), Ones(n))
  {
    if n > 0 {
      LineFills(A, mode, n - 1);
      RunStateConcat(A, State(Cleared(A), Empty(), mode), Ones(n - 1), "1+");
      OneMore(A, RunState(A, State(Cleared(A), Empty(), mode), Ones(n - 1)), Ones(n - 1));
    }
  }

  /** From a cleared calculator: 1+ pressed 128 times fills the line, and then 23 is shown as 223. */
  lemma FullLineReached<N>(A: Arith<N>, mode: Mode)
    ensures var s := RunState(A, State(Cleared(A), Empty(), mode), Ones(128) + "23");
      s.m.entry == "23" && s.t.expr == Tail(Ones(128) + "223") != Tail(Ones(128) + "23")
  {
    LineFills(A, mode, 128);
    RunStateConcat(A, State(Cleared(A), Empty(), mode), Ones(128), "23");
    FullLineShown(A, RunState(A, State(Cleared(A), Empty(), mode), Ones(128)), Ones(128));
  }

  lemma FullLineShown<N>(A: Arith<N>, s: State<N>, line: string)
    requires Blank(s, line) && |line| == MAX_EXPR && line[MAX_EXPR - 1] == '+'
    ensures var s' := RunState(A, s, "23");
      s'.m.entry == "23" && s'.t.expr == Tail(line + "223") != Tail(line + "23")
  {
    TwoKeys(A, s, '2', '3');
    assert [] + ['2'] == "2" && "2" + ['3'] == "23";
    ShownTwice(line);
  }

  lemma ShownTwice(line: string)
    requires |line| == MAX_EXPR && line[MAX_EXPR - 1] == '+'
    ensures Update(Update(Text(line, NO_START), "2"), "23").expr == Tail(line + "223") != Tail(line + "23")
  {
    var once := line[1..] + "2";
    assert (line + "2")[1..] == once && once[..MAX_EXPR] == once;
    assert once + "23" == line[1..] + "223" == (line + "223")[1..] by { assert "2" + "23" == "223"; }
    assert (line + "223")[1..][2..] == (line + "223")[3..];
    assert Tail(line + "223")[MAX_EXPR - 3] == '2' && Tail(line + "23")[MAX_EXPR - 3] == '+';
  }
}
