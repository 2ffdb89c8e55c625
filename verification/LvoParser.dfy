/**
 The row parser of tools/lvo-gen as it is written: loops that move a cursor over the line. A
 cursor is a pointer to the rest of a line, and is modelled as that rest.
 */
module LvoParser {
  import opened Options
  import opened LvoText

  /** The scanning loops: how far the cursor moves. */
  method Scan(p: string, k: Class) returns (n: nat)
    ensures n == Span(p, k)
  {
    n := 0;
    while n < |p| && k.Has(p[n])
      invariant n <= |p| && n + Span(p[n..], k) == Span(p, k)
    {
      assert p[n..][1..] == p[n + 1..];
      n := n + 1;
    }
  }

  /** skip_inline_ws. */
  method SkipBlanks(p: string) returns (q: string)
    ensures q == Skip(p)
  {
    var n := Scan(p, Blank);
    q := p[n..];
  }

  /** The loop that drops trailing white space from a field. */
  method TrimEnd(field: string) returns (r: string)
    ensures r == TrimRight(field)
  {
    var end := |field|;
    assert field[..end] == field;
    while end > 0 && IsSpace(field[end - 1])
      invariant end <= |field| && TrimRight(field[..end]) == TrimRight(field)
    {
      assert field[..end][..end - 1] == field[..end - 1];
      end := end - 1;
    }
    r := field[..end];
  }

  method ReadIdent(p: string) returns (r: Option<(string, string)>)
    ensures r == Identifier(p)
  {
    if p == [] || !IsIdentStart(p[0]) { return None; }
    var n := Scan(p, Ident);
    r := Some((p[..n], p[n..]));
  }

  // ---- parse_args --------------------------------------------------------------------

  method ReadType(name: string, p: string) returns (r: Option<(Arg, string)>)
    ensures r == AfterColon(name, p)
  {
    var n := Scan(p, UntilComma);
    var ty := TrimEnd(p[..n]);
    if n == |p| || ty == [] { return None; }
    r := Some((Arg(name, ty), p[n..]));
  }

  /** One `name:type` pair; the cursor is left at the ',' or ')' after it. */
  method ReadArg(p: string) returns (r: Option<(Arg, string)>)
    ensures r == OneArg(p)
  {
    var q := SkipBlanks(p);
    var id := ReadIdent(q);
    if id.None? { return None; }
    q := SkipBlanks(id.value.1);
    if q == [] || q[0] != ':' { return None; }
    q := SkipBlanks(q[1..]);
    r := ReadType(id.value.0, q);
  }

  lemma {:induction false} PrependTwice(args: seq<Arg>, a: Arg, o: Option<(seq<Arg>, string)>)
    ensures Prepend(args, Prepend([a], o)) == Prepend(args + [a], o)
  {
    if o.Some? {
      assert args + ([a] + o.value.0) == args + [a] + o.value.0;
    }
  }

  lemma {:induction false} PrependNone(o: Option<(seq<Arg>, string)>)
    ensures Prepend([], o) == o
  {
    if o.Some? {
      assert [] + o.value.0 == o.value.0;
    }
  }

  /** The loop over the arguments, each appended to those read before it. */
  method ReadArgList(p: string) returns (r: Option<(seq<Arg>, string)>)
    ensures r == ArgList(p)
  {
    var args: seq<Arg> := [];
    var q := p;
    PrependNone(ArgList(p));
    while true
      invariant Prepend(args, ArgList(q)) == ArgList(p)
      decreases |q|
    {
      var a := ReadArg(q);
      if a.None? { return None; }
      OneArgShrinks(q);
      var rest := a.value.1;
      if rest[0] == ')' { return Some((args + [a.value.0], rest[1..])); }
      PrependTwice(args, a.value.0, ArgList(rest[1..]));
      args, q := args + [a.value.0], rest[1..];
    }
  }

  method ParseArgs(p: string) returns (r: Option<(seq<Arg>, string)>)
    ensures r == Args(p)
  {
    if p == [] || p[0] != '(' { return None; }
    var q := SkipBlanks(p[1..]);
    if q != [] && q[0] == ')' { return Some(([], q[1..])); }
    r := ReadArgList(q);
  }

  // ---- the numeric and symbol fields ---------------------------------------------------

  lemma {:induction false} ValueSnoc(p: string, n: nat)
    requires n < |p|
    ensures Value(p[..n + 1]) == 10 * Value(p[..n]) + DigitValue(p[n])
  {
    assert p[..n + 1][..n] == p[..n];
  }

  method ReadDigits(p: string) returns (v: int, n: nat)
    ensures n == Span(p, Digit) && v == Value(p[..n])
  {
    v, n := 0, 0;
    while n < |p| && IsDigit(p[n])
      invariant n <= |p| && n + Span(p[n..], Digit) == Span(p, Digit) && v == Value(p[..n])
    {
      ValueSnoc(p, n);
      assert p[n..][1..] == p[n + 1..];
      v, n := 10 * v + DigitValue(p[n]), n + 1;
    }
  }

  /** strtol in base ten. */
  method Strtol(p: string) returns (r: Option<(int, string)>)
    ensures r == Long(p)
  {
    var start := Scan(p, White);
    var q, sign := p[start..], 1;
    if q != [] && q[0] == '-' { q, sign := q[1..], -1; }
    else if q != [] && q[0] == '+' { q := q[1..]; }
    var v, n := ReadDigits(q);
    r := if n == 0 then None else Some((Saturate(sign * v), q[n..]));
  }

  /** strstr for "::". */
  method FindSeparator(s: string) returns (n: nat)
    ensures n == FindColons(s)
  {
    n := 0;
    while n < |s| && !(s[n] == ':' && n + 1 < |s| && s[n + 1] == ':')
      invariant n <= |s| && n + FindColons(s[n..]) == FindColons(s)
    {
      assert s[n..][1..] == s[n + 1..];
      n := n + 1;
    }
  }

  method IsWord(s: string) returns (ok: bool)
    ensures ok == AllIn(s, Ident)
  {
    var i := 0;
    while i < |s|
      invariant i <= |s| && AllIn(s[i..], Ident) == AllIn(s, Ident)
    {
      if !IsIdentCont(s[i]) { return false; }
      assert s[i..][1..] == s[i + 1..];
      i := i + 1;
    }
    ok := true;
  }

  method CheckServerSymbol(s: string) returns (ok: bool)
    ensures ok == ServerSymbol(s)
  {
    var n := FindSeparator(s);
    if n == 0 || n + 2 >= |s| { return false; }
    ok := IsWord(s[..n]);
    if ok { ok := IsWord(s[n + 2..]); }
  }

  // ---- parse_func --------------------------------------------------------------------

  method ReadSymbol(name: string, ret: string, args: seq<Arg>, lvo: int, f: Flavour, p: string)
      returns (r: Option<Row>)
    ensures r == ParseImpl(name, ret, args, lvo, f, p)
  {
    var impl := TrimEnd(p);
    if impl == [] { return None; }
    if f.Server? {
      var ok := CheckServerSymbol(impl);
      if !ok { return None; }
    }
    r := Some(Row(name, ret, args, lvo, f, impl));
  }

  method ReadTail(name: string, ret: string, args: seq<Arg>, p: string) returns (r: Option<Row>)
    ensures r == ParseLvo(name, ret, args, p)
  {
    var num := Strtol(p);
    if num.None? || num.value.0 >= 0 || num.value.0 % 6 != 0 { return None; }
    var q := SkipBlanks(num.value.1);
    var word := ReadIdent(q);
    if word.None? || FlavourOf(word.value.0).None? { return None; }
    q := SkipBlanks(word.value.1);
    r := ReadSymbol(name, ret, args, num.value.0, FlavourOf(word.value.0).value, q);
  }

  /** parse_func: the row on a line, by one pass of the cursor. */
  method ParseFunc(line: string) returns (r: Option<Row>)
    ensures r == ParseRow(line)
  {
    var q := SkipBlanks(line);
    var name := ReadIdent(q);
    if name.None? { return None; }
    q := SkipBlanks(name.value.1);
    var n := Scan(q, UntilParen);
    var ret := TrimEnd(q[..n]);
    if n == |q| || ret == [] { return None; }
    var args := ParseArgs(q[n..]);
    if args.None? { return None; }
    q := SkipBlanks(args.value.1);
    r := ReadTail(name.value.0, ret, args.value.0, q);
    if r.Some? { r := Some(r.value.(lvo := ToInt(r.value.lvo))); }
  }
}
