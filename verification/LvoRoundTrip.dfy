/**
 Rows of a library description printed and parsed back.
 */
module LvoRoundTrip {
  import opened Options
  import opened LvoText

  // ---- printing -------------------------------------------------------------------

  function Digits(n: nat): (ds: string)
    ensures ds != []
  {
    (if n < 10 then [] else Digits(n / 10)) + [('0' as int + n % 10) as char]
  }

  /** ds is a decimal numeral of n; leading zeros allowed. */
  predicate Spells(ds: string, n: nat) { ds != [] && AllIn(ds, Digit) && Value(ds) == n }

  lemma {:induction false} DigitsSpell(n: nat)
    ensures Spells(Digits(n), n)
  {
    var ds := Digits(n);
    if n >= 10 {
      DigitsSpell(n / 10);
    }
    assert ds[..|ds| - 1] == if n < 10 then [] else Digits(n / 10);
    AllInSnoc(ds[..|ds| - 1], ds[|ds| - 1], Digit);
    assert ds == ds[..|ds| - 1] + [ds[|ds| - 1]];
  }

  lemma {:induction false} AllInSnoc(s: string, c: char, k: Class)
    requires AllIn(s, k) && k.Has(c)
    ensures AllIn(s + [c], k)
  {
    if s != [] {
      AllInSnoc(s[1..], c, k);
      assert (s + [c])[1..] == s[1..] + [c];
    }
  }

  lemma {:induction false} AllInPrefix(s: string, t: string, k: Class)
    requires AllIn(s, k) && t <= s
    ensures AllIn(t, k)
  {
    if t != [] { AllInPrefix(s[1..], t[1..], k); }
  }

  function RenderArg(a: Arg, rest: string): string { a.name + ([':'] + (a.argType + rest)) }

  /** The argument list from after '(', in front of the rest of the line. */
  function RenderArgs(args: seq<Arg>, rest: string): string {
    if args == [] then [')'] + rest else RenderMore(args, rest)
  }

  function RenderMore(args: seq<Arg>, rest: string): string
    requires args != []
  {
    RenderArg(args[0], if |args| == 1 then [')'] + rest else [','] + RenderMore(args[1..], rest))
  }

  function RenderTail(ds: string, flavour: string, impl: string): string {
    ['-'] + (ds + ([' '] + (flavour + ([' '] + impl))))
  }

  function RenderLine(name: string, ret: string, args: seq<Arg>, tail: string): string {
    name + ([' '] + (ret + (['('] + RenderArgs(args, [' '] + tail))))
  }

  /** The row on one line, its offset and flavour written as the words ds and fn. */
  function RenderRow(r: Row, ds: string, fn: string): string {
    RenderLine(r.name, r.result, r.args, RenderTail(ds, fn, r.impl))
  }

  // ---- the rows there are ------------------------------------------------------------

  /** Text that survives the skipping of blanks before it and the trimming after it. */
  predicate Tight(s: string) { s != [] && !IsBlank(s[0]) && !IsSpace(s[|s| - 1]) }

  predicate GoodArg(a: Arg) { IsIdent(a.name) && Tight(a.argType) && AllIn(a.argType, UntilComma) }

  predicate GoodArgs(args: seq<Arg>) { args == [] || (GoodArg(args[0]) && GoodArgs(args[1..])) }

  predicate GoodRow(r: Row) {
    && IsIdent(r.name) && Tight(r.result) && AllIn(r.result, UntilParen)
    && GoodArgs(r.args) && GoodTail(r)
  }

  predicate GoodTail(r: Row) {
    -LONG_MAX <= r.lvo < 0 && r.lvo % 6 == 0 && Tight(r.impl) && (r.flavour.Server? ==> ServerSymbol(r.impl))
  }

  lemma TightTrim(s: string)
    requires Tight(s)
    ensures TrimRight(s) == s
  {}

  lemma {:induction false} TrimTight(s: string)
    requires Stops(s, Blank) && TrimRight(s) != []
    ensures Tight(TrimRight(s))
  {
    if s != [] && IsSpace(s[|s| - 1]) {
      TrimTight(s[..|s| - 1]);
    }
  }

  // ---- print, then parse ----------------------------------------------------------------

  lemma {:induction false} AfterColonRender(a: Arg, rest: string)
    requires GoodArg(a) && rest != [] && (rest[0] == ',' || rest[0] == ')')
    ensures AfterColon(a.name, a.argType + rest) == Some((a, rest))
  {
    SpanConcat(a.argType, rest, UntilComma);
    TightTrim(a.argType);
  }

  lemma {:induction false} OneArgStep(s: string, name: string, t: string)
    requires Stops(s, Blank) && Identifier(s) == Some((name, t)) && Stops(t, Blank)
    ensures OneArg(s) == AfterName(name, t)
  {
    SkipNone(s);
    SkipNone(t);
  }

  lemma {:induction false} AfterNameStep(name: string, t: string, u: string)
    requires t != [] && t[0] == ':' && t[1..] == u && Stops(u, Blank)
    ensures AfterName(name, t) == AfterColon(name, u)
  {
    SkipNone(u);
  }

  lemma ColonStops(u: string)
    ensures Stops([':'] + u, Blank) && Stops([':'] + u, Ident)
  {}

  lemma BlankStops(u: string)
    ensures Stops([' '] + u, Ident) && Stops([' '] + u, Digit)
  {}

  lemma IdentStart(name: string, t: string)
    requires IsIdent(name)
    ensures name + t != [] && (name + t)[0] == name[0] && Stops(name + t, Blank) && name[0] != ')'
  {}

  lemma TightStart(a: string, t: string)
    requires Tight(a)
    ensures Stops(a + t, Blank)
  {}

  lemma {:induction false} OneArgRender(a: Arg, rest: string)
    requires GoodArg(a) && rest != [] && (rest[0] == ',' || rest[0] == ')')
    ensures OneArg(RenderArg(a, rest)) == Some((a, rest))
    ensures Stops(RenderArg(a, rest), Blank) && RenderArg(a, rest) != [] && RenderArg(a, rest)[0] != ')'
  {
    var u := a.argType + rest;
    AfterColonRender(a, rest);
    TightStart(a.argType, rest);
    Front(':', u);
    AfterNameStep(a.name, [':'] + u, u);
    ColonStops(u);
    IdentConcat(a.name, [':'] + u);
    IdentStart(a.name, [':'] + u);
    OneArgStep(a.name + ([':'] + u), a.name, [':'] + u);
  }

  lemma {:induction false} ArgListStep(s: string, a: Arg, c: char, rest: string)
    requires OneArg(s) == Some((a, [c] + rest)) && (c == ',' || c == ')')
    ensures c == ')' ==> ArgList(s) == Some(([a], rest))
    ensures c == ',' && ArgList(rest).Some? ==> ArgList(s) == Some(([a] + ArgList(rest).value.0, ArgList(rest).value.1))
  {
    Front(c, rest);
  }

  lemma {:induction false} ArgListRender(args: seq<Arg>, rest: string, s: string, parsed: Option<(seq<Arg>, string)>)
    requires args != [] && GoodArgs(args) && s == RenderMore(args, rest) && parsed == ArgList(s)
    ensures parsed == Some((args, rest)) && Stops(s, Blank)
    decreases |args|
  {
    var a, more := args[0], args[1..];
    Uncons(args);
    if |args| == 1 {
      ArgListLast(a, rest);
    } else {
      var t := RenderMore(more, rest);
      ArgListRender(more, rest, t, ArgList(t));
      ArgListCons(a, more, t, rest);
    }
  }

  lemma Uncons(args: seq<Arg>)
    requires args != []
    ensures args == [args[0]] + args[1..] && (|args| == 1 ==> args == [args[0]])
  {}

  lemma {:induction false} ArgListLast(a: Arg, rest: string)
    requires GoodArg(a)
    ensures ArgList(RenderArg(a, [')'] + rest)) == Some(([a], rest)) && Stops(RenderArg(a, [')'] + rest), Blank)
  {
    Front(')', rest);
    OneArgRender(a, [')'] + rest);
    ArgListStep(RenderArg(a, [')'] + rest), a, ')', rest);
  }

  lemma {:induction false} ArgListCons(a: Arg, args: seq<Arg>, more: string, rest: string)
    requires GoodArg(a) && ArgList(more) == Some((args, rest)) && Stops(more, Blank)
    ensures ArgList(RenderArg(a, [','] + more)) == Some(([a] + args, rest))
    ensures Stops(RenderArg(a, [','] + more), Blank)
  {
    Front(',', more);
    OneArgRender(a, [','] + more);
    ArgListStep(RenderArg(a, [','] + more), a, ',', more);
  }

  lemma {:induction false} ArgsRender(args: seq<Arg>, rest: string)
    requires GoodArgs(args)
    ensures Args(['('] + RenderArgs(args, rest)) == Some((args, rest))
  {
    var inner := RenderArgs(args, rest);
    Front('(', inner);
    if args == [] {
      Front(')', rest);
      SkipNone(inner);
    } else {
      ArgListRender(args, rest, inner, ArgList(inner));
      MoreStart(args, rest);
      SkipNone(inner);
    }
  }

  lemma {:induction false} MoreStart(args: seq<Arg>, rest: string)
    requires args != [] && GoodArg(args[0])
    ensures RenderMore(args, rest) != [] && RenderMore(args, rest)[0] != ')'
  {
    IdentStart(args[0].name, RenderMore(args, rest)[|args[0].name|..]);
    assert RenderMore(args, rest) == args[0].name + RenderMore(args, rest)[|args[0].name|..];
  }

  lemma {:induction false} LongRender(ds: string, n: nat, rest: string)
    requires Spells(ds, n) && n <= LONG_MAX && Stops(rest, Digit)
    ensures Long(['-'] + (ds + rest)) == Some((0 - n, rest))
  {
    var s := ds + rest;
    SpanConcat([], ['-'] + s, White);
    assert [] + (['-'] + s) == ['-'] + s && (['-'] + s)[0..] == ['-'] + s;
    Front('-', s);
    SpanConcat(ds, rest, Digit);
  }

  lemma {:induction false} FlavourIdent(f: Flavour)
    ensures Names(FlavourName(f), f)
  {
    match f {
      case Local => assert AllIn("cal", Ident) && AllIn("local", Ident);
      case Syscall => assert AllIn("all", Ident) && AllIn("scall", Ident) && AllIn("syscall", Ident);
      case Server => assert AllIn("er", Ident) && AllIn("rver", Ident) && AllIn("server", Ident);
    }
  }

  /** fn names the row's flavour. */
  predicate Names(fn: string, f: Flavour) { IsIdent(fn) && FlavourOf(fn) == Some(f) }

  lemma {:induction false} FlavourRender(r: Row, fn: string)
    requires GoodTail(r) && Names(fn, r.flavour)
    ensures ParseFlavour(r.name, r.result, r.args, r.lvo, fn + ([' '] + r.impl)) == Some(r)
    ensures Stops(fn + ([' '] + r.impl), Blank)
  {
    BlankStops(r.impl);
    IdentConcat(fn, [' '] + r.impl);
    IdentStart(fn, [' '] + r.impl);
    SkipOne(r.impl);
    TightTrim(r.impl);
  }

  lemma {:induction false} LvoRender(name: string, ret: string, args: seq<Arg>, lvo: int, ds: string, f: string)
    requires -LONG_MAX <= lvo < 0 && lvo % 6 == 0 && Spells(ds, -lvo) && Stops(f, Blank)
    ensures ParseLvo(name, ret, args, ['-'] + (ds + ([' '] + f))) == ParseFlavour(name, ret, args, lvo, f)
  {
    BlankStops(f);
    LongRender(ds, -lvo, [' '] + f);
    SkipOne(f);
    LvoStep(name, ret, args, ['-'] + (ds + ([' '] + f)), lvo, [' '] + f);
  }

  lemma {:induction false} TailRender(r: Row, ds: string, fn: string)
    requires GoodTail(r) && Spells(ds, -r.lvo) && Names(fn, r.flavour)
    ensures ParseLvo(r.name, r.result, r.args, RenderTail(ds, fn, r.impl)) == Some(r)
  {
    FlavourRender(r, fn);
    LvoRender(r.name, r.result, r.args, r.lvo, ds, fn + ([' '] + r.impl));
  }

  lemma TailStops(ds: string, fn: string, impl: string)
    ensures Stops(RenderTail(ds, fn, impl), Blank)
  {}

  lemma LvoStep(name: string, ret: string, args: seq<Arg>, s: string, lvo: int, rest: string)
    requires Long(s) == Some((lvo, rest)) && lvo < 0 && lvo % 6 == 0
    ensures ParseLvo(name, ret, args, s) == ParseFlavour(name, ret, args, lvo, Skip(rest))
  {}

  lemma {:induction false} ReturnRender(r: Row, tail: string)
    requires GoodRow(r) && Stops(tail, Blank) && ParseLvo(r.name, r.result, r.args, tail) == Some(r)
    ensures ParseReturn(r.name, r.result + (['('] + RenderArgs(r.args, [' '] + tail))) == Some(r)
    ensures Stops(r.result + (['('] + RenderArgs(r.args, [' '] + tail)), Blank)
  {
    var args := ['('] + RenderArgs(r.args, [' '] + tail);
    Front('(', RenderArgs(r.args, [' '] + tail));
    SpanConcat(r.result, args, UntilParen);
    TightTrim(r.result);
    TightStart(r.result, args);
    ArgsRender(r.args, [' '] + tail);
    SkipOne(tail);
  }

  lemma {:induction false} NameRender(name: string, ret: string)
    requires IsIdent(name) && Stops(ret, Blank)
    ensures ParseWide(name + ([' '] + ret)) == ParseReturn(name, ret)
  {
    BlankStops(ret);
    IdentConcat(name, [' '] + ret);
    IdentStart(name, [' '] + ret);
    SkipOne(ret);
    RowStep(name + ([' '] + ret), name, [' '] + ret);
  }

  lemma {:induction false} LineRender(r: Row, tail: string)
    requires GoodRow(r) && Stops(tail, Blank) && ParseLvo(r.name, r.result, r.args, tail) == Some(r)
    ensures ParseWide(RenderLine(r.name, r.result, r.args, tail)) == Some(r)
  {
    ReturnRender(r, tail);
    NameRender(r.name, r.result + (['('] + RenderArgs(r.args, [' '] + tail)));
  }

  lemma {:induction false} WideRoundTrip(r: Row, ds: string, fn: string)
    requires GoodRow(r) && Spells(ds, -r.lvo) && Names(fn, r.flavour)
    ensures ParseWide(RenderRow(r, ds, fn)) == Some(r)
  {
    TailRender(r, ds, fn);
    TailStops(ds, fn, r.impl);
    LineRender(r, RenderTail(ds, fn, r.impl));
  }

  /** What a narrowed offset is, and when it is the offset itself. */
  lemma NarrowExactly(r: Row)
    requires r.lvo < 0
    ensures Narrow(Some(r)) == Some(r.(lvo := ToInt(r.lvo))) && (Narrow(Some(r)) == Some(r) <==> -0x8000_0000 <= r.lvo)
  {}

  /**
   A good row printed is parsed back, however its offset is spelt; DigitsSpell and FlavourIdent give
   a word for every offset and every flavour. It comes back as it was exactly when its offset fits
   an int.
   */
  lemma {:induction false} RoundTrip(r: Row, ds: string, fn: string)
    requires GoodRow(r) && Spells(ds, -r.lvo) && Names(fn, r.flavour)
    ensures ParseRow(RenderRow(r, ds, fn)) == Some(r.(lvo := ToInt(r.lvo)))
    ensures ParseRow(RenderRow(r, ds, fn)) == Some(r) <==> -0x8000_0000 <= r.lvo
  {
    WideRoundTrip(r, ds, fn);
    NarrowExactly(r);
  }

  /** The offset -4294967298 comes back as -2, which is no offset at all. */
  lemma OffsetCut(r: Row, ds: string, fn: string)
    requires GoodRow(r) && r.lvo == -4294967298 && Spells(ds, 4294967298) && Names(fn, r.flavour)
    ensures ParseRow(RenderRow(r, ds, fn)) == Some(r.(lvo := -2))
  {
    assert ToInt(-4294967298) == -2;
    RoundTrip(r, ds, fn);
  }

  lemma {:induction false} RowStep(s: string, name: string, t: string)
    requires Stops(s, Blank) && Identifier(s) == Some((name, t))
    ensures ParseWide(s) == ParseReturn(name, Skip(t))
  {
    SkipNone(s);
  }

  // ---- parse, then look -------------------------------------------------------------------

  lemma {:induction false} IdentGood(s: string)
    requires Identifier(s).Some?
    ensures IsIdent(Identifier(s).value.0)
  {
    SpanFacts(s, Ident);
  }

  lemma {:induction false} AfterColonGood(name: string, s: string)
    requires IsIdent(name) && Stops(s, Blank) && AfterColon(name, s).Some?
    ensures GoodArg(AfterColon(name, s).value.0)
  {
    SpanFacts(s, UntilComma);
    TrimTight(s[..Span(s, UntilComma)]);
    AllInPrefix(s[..Span(s, UntilComma)], TrimRight(s[..Span(s, UntilComma)]), UntilComma);
  }

  lemma {:induction false} OneArgGood(s: string)
    requires OneArg(s).Some?
    ensures GoodArg(OneArg(s).value.0)
  {
    var id := Identifier(Skip(s)).value;
    IdentGood(Skip(s));
    SkipStops(Skip(id.1)[1..]);
    AfterColonGood(id.0, Skip(Skip(id.1)[1..]));
  }

  lemma {:induction false} ArgListGood(s: string)
    requires ArgList(s).Some?
    ensures GoodArgs(ArgList(s).value.0)
    decreases |s|
  {
    OneArgGood(s);
    OneArgShrinks(s);
    var a, rest := OneArg(s).value.0, OneArg(s).value.1;
    if rest[0] != ')' {
      ArgListGood(rest[1..]);
      GoodArgsCons(a, ArgList(rest[1..]).value.0);
    } else {
      GoodArgsCons(a, []);
    }
  }

  lemma {:induction false} GoodArgsCons(a: Arg, args: seq<Arg>)
    requires GoodArg(a) && GoodArgs(args)
    ensures GoodArgs([a] + args) && [a] + [] == [a]
  {
    assert ([a] + args)[1..] == args;
  }

  lemma {:induction false} ArgsGood(s: string)
    requires Args(s).Some?
    ensures GoodArgs(Args(s).value.0)
  {
    var t := Skip(s[1..]);
    if !(t != [] && t[0] == ')') { ArgListGood(t); }
  }

  lemma {:induction false} FlavourGood(name: string, ret: string, args: seq<Arg>, lvo: int, s: string)
    requires ParseFlavour(name, ret, args, lvo, s).Some?
    ensures var r := ParseFlavour(name, ret, args, lvo, s).value;
      && r.name == name && r.result == ret && r.args == args && r.lvo == lvo
      && Tight(r.impl) && (r.flavour.Server? ==> ServerSymbol(r.impl))
  {
    SkipStops(Identifier(s).value.1);
    TrimTight(Skip(Identifier(s).value.1));
  }

  /** The smallest long is no offset, so saturation never yields one. */
  lemma OffsetInRange(s: string, lvo: int)
    requires Long(s).Some? && lvo == Long(s).value.0 < 0 && lvo % 6 == 0
    ensures -LONG_MAX <= lvo
  {}

  lemma {:induction false} LvoGood(name: string, ret: string, args: seq<Arg>, s: string)
    requires ParseLvo(name, ret, args, s).Some?
    ensures var r := ParseLvo(name, ret, args, s).value;
      r.name == name && r.result == ret && r.args == args && GoodTail(r)
  {
    var num := Long(s).value;
    OffsetInRange(s, num.0);
    FlavourGood(name, ret, args, num.0, Skip(num.1));
  }

  /** The parser accepts nothing else: every row it returns is a good one with its offset cut. */
  lemma ParsedIsGood(line: string, wide: Option<Row>)
    requires ParseRow(line).Some? && wide == ParseWide(line)
    ensures wide.Some? && GoodRow(wide.value) && ParseRow(line) == Some(wide.value.(lvo := ToInt(wide.value.lvo)))
  {
    WideIsGood(line);
  }

  lemma {:induction false} WideIsGood(line: string)
    requires ParseWide(line).Some?
    ensures GoodRow(ParseWide(line).value)
  {
    var id := Identifier(Skip(line)).value;
    IdentGood(Skip(line));
    var t := Skip(id.1);
    SkipStops(id.1);
    var n := Span(t, UntilParen);
    SpanFacts(t, UntilParen);
    TrimTight(t[..n]);
    AllInPrefix(t[..n], TrimRight(t[..n]), UntilParen);
    var args := Args(t[n..]).value;
    ArgsGood(t[n..]);
    LvoGood(id.0, TrimRight(t[..n]), args.0, Skip(args.1));
  }
}
