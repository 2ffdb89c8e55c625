/**
 The row grammar of tools/lvo-gen: scanning, and the row parser as a function of the line.
 */
module LvoText {
  import opened Options

  datatype Flavour = Local | Syscall | Server
  datatype Arg = Arg(name: string, argType: string)
  datatype Row = Row(name: string, result: string, args: seq<Arg>, lvo: int, flavour: Flavour, impl: string)

  // ---- characters ------------------------------------------------------------------

  predicate IsBlank(c: char) { c == ' ' || c == '\t' }
  predicate IsSpace(c: char) { IsBlank(c) || c == '\n' || c == '\r' || c == '\U{B}' || c == '\U{C}' }
  predicate IsDigit(c: char) { '0' <= c <= '9' }
  predicate IsIdentStart(c: char) { c == '_' || 'a' <= c <= 'z' || 'A' <= c <= 'Z' }
  predicate IsIdentCont(c: char) { IsIdentStart(c) || IsDigit(c) }

  /** The classes of characters the scanner skips over. */
  datatype Class = Blank | White | Ident | Digit | UntilParen | UntilComma {
    predicate Has(c: char) {
      match this
      case Blank => IsBlank(c)
      case White => IsSpace(c)
      case Ident => IsIdentCont(c)
      case Digit => IsDigit(c)
      case UntilParen => c != '('
      case UntilComma => c != ',' && c != ')'
    }
  }

  /** How many characters from the front belong to a class. */
  function Span(s: string, k: Class): (n: nat)
    ensures n <= |s|
  {
    if s == [] || !k.Has(s[0]) then 0 else 1 + Span(s[1..], k)
  }

  lemma {:induction false} SpanFacts(s: string, k: Class)
    ensures AllIn(s[..Span(s, k)], k) && Stops(s[Span(s, k)..], k)
  {
    if s != [] && k.Has(s[0]) {
      SpanFacts(s[1..], k);
      var n := Span(s[1..], k);
      assert s[..n + 1] == [s[0]] + s[1..][..n] && s[n + 1..] == s[1..][n..];
    }
  }

  predicate AllIn(s: string, k: Class) { s == [] || (k.Has(s[0]) && AllIn(s[1..], k)) }
  predicate Stops(s: string, k: Class) { s == [] || !k.Has(s[0]) }

  lemma {:induction false} SpanConcat(a: string, b: string, k: Class)
    requires AllIn(a, k) && Stops(b, k)
    ensures Span(a + b, k) == |a| && (a + b)[..|a|] == a && (a + b)[|a|..] == b
  {
    if a == [] {
      assert a + b == b;
    } else {
      SpanConcat(a[1..], b, k);
      assert (a + b)[1..] == a[1..] + b;
    }
  }

  /** A character in front of a string. */
  lemma Front(c: char, s: string)
    ensures [c] + s != [] && ([c] + s)[0] == c && ([c] + s)[1..] == s
  {}

  /** After the blanks. */
  function Skip(s: string): string { s[Span(s, Blank)..] }

  lemma SkipNone(s: string)
    requires Stops(s, Blank)
    ensures Skip(s) == s
  {}

  lemma {:induction false} SkipOne(s: string)
    requires Stops(s, Blank)
    ensures Skip([' '] + s) == s
  {
    SpanConcat([' '], s, Blank);
  }

  lemma {:induction false} SkipStops(s: string)
    ensures Stops(Skip(s), Blank)
  {
    SpanFacts(s, Blank);
  }

  /** Without trailing white space. */
  function TrimRight(s: string): (r: string)
    ensures r <= s
  {
    if s != [] && IsSpace(s[|s| - 1]) then TrimRight(s[..|s| - 1]) else s
  }

  /** read_ident: the identifier at the front and what follows it. */
  function Identifier(s: string): Option<(string, string)> {
    if s == [] || !IsIdentStart(s[0]) then None
    else var n := Span(s, Ident); Some((s[..n], s[n..]))
  }

  predicate IsIdent(s: string) { s != [] && IsIdentStart(s[0]) && AllIn(s, Ident) }

  lemma {:induction false} IdentConcat(a: string, b: string)
    requires IsIdent(a) && Stops(b, Ident)
    ensures Identifier(a + b) == Some((a, b))
  {
    SpanConcat(a, b, Ident);
  }

  // ---- the argument list --------------------------------------------------------------

  /** One `name:type` and what follows it, at a ',' or ')'. */
  function OneArg(s: string): Option<(Arg, string)> {
    var id := Identifier(Skip(s)); if id.None? then None else AfterName(id.value.0, Skip(id.value.1))
  }

  function AfterName(name: string, s: string): Option<(Arg, string)> {
    if s == [] || s[0] != ':' then None else AfterColon(name, Skip(s[1..]))
  }

  function AfterColon(name: string, s: string): Option<(Arg, string)> {
    var n := Span(s, UntilComma);
    var ty := TrimRight(s[..n]);
    if n == |s| || ty == [] then None else Some((Arg(name, ty), s[n..]))
  }

  lemma {:induction false} OneArgShrinks(s: string)
    requires OneArg(s).Some?
    ensures 0 < |OneArg(s).value.1| < |s|
    ensures OneArg(s).value.1[0] == ',' || OneArg(s).value.1[0] == ')'
  {
    var u := Skip(Skip(Identifier(Skip(s)).value.1)[1..]);
    SpanFacts(u, UntilComma);
  }

  function Prepend(args: seq<Arg>, o: Option<(seq<Arg>, string)>): Option<(seq<Arg>, string)> {
    if o.None? then None else Some((args + o.value.0, o.value.1))
  }

  /** The list from after '(' or ',' on. */
  function ArgList(s: string): Option<(seq<Arg>, string)>
    decreases |s|
  {
    var a := OneArg(s);
    if a.None? then None
    else
      OneArgShrinks(s);
      if a.value.1[0] == ')' then Some(([a.value.0], a.value.1[1..])) else Prepend([a.value.0], ArgList(a.value.1[1..]))
  }

  /** parse_args: from '(' to ')'. */
  function Args(s: string): Option<(seq<Arg>, string)> {
    if s == [] || s[0] != '(' then None
    else
      var t := Skip(s[1..]);
      if t != [] && t[0] == ')' then Some(([], t[1..])) else ArgList(t)
  }

  // ---- the rest of a row ----------------------------------------------------------------

  function DigitValue(c: char): int { c as int - '0' as int }

  function Value(ds: string): int {
    if ds == [] then 0 else 10 * Value(ds[..|ds| - 1]) + DigitValue(ds[|ds| - 1])
  }

  const LONG_MAX: int := 0x7FFF_FFFF_FFFF_FFFF

  /** The nearest 64-bit number. */
  function Saturate(v: int): int { if v > LONG_MAX then LONG_MAX else if v < -LONG_MAX - 1 then -LONG_MAX - 1 else v }

  /** strtol in base ten: the number, saturated, and what follows it. */
  function Long(s: string): Option<(int, string)> {
    var t := s[Span(s, White)..];
    if t != [] && t[0] == '-' then Unsigned(t[1..], -1)
    else if t != [] && t[0] == '+' then Unsigned(t[1..], 1)
    else Unsigned(t, 1)
  }

  function Unsigned(s: string, sign: int): Option<(int, string)> {
    var n := Span(s, Digit);
    if n == 0 then None else Some((Saturate(sign * Value(s[..n])), s[n..]))
  }

  function FlavourOf(s: string): Option<Flavour> {
    if s == "local" then Some(Local) else if s == "syscall" then Some(Syscall)
    else if s == "server" then Some(Server) else None
  }

  function FlavourName(f: Flavour): string {
    match f case Local => "local" case Syscall => "syscall" case Server => "server"
  }

  /** The position of the first "::", or the length. */
  function FindColons(s: string): (n: nat)
    ensures n <= |s|
  {
    if s == [] then 0 else if s[0] == ':' && |s| > 1 && s[1] == ':' then 0 else 1 + FindColons(s[1..])
  }

  /** A server symbol must read <gleas>::<tag>. */
  predicate ServerSymbol(s: string) {
    var n := FindColons(s);
    0 < n && n + 2 < |s| && AllIn(s[..n], Ident) && AllIn(s[n + 2..], Ident)
  }

  /** The cast of a long to int. */
  function ToInt(v: int): int { (v + 0x8000_0000) % 0x1_0000_0000 - 0x8000_0000 }

  function Narrow(r: Option<Row>): Option<Row> { if r.None? then None else Some(r.value.(lvo := ToInt(r.value.lvo))) }

  /** parse_func: the row on a trimmed line, its offset cut to an int, or an error. */
  function ParseRow(line: string): Option<Row> { Narrow(ParseWide(line)) }

  /** The row with the offset that the line gives. */
  function ParseWide(line: string): Option<Row> {
    var id := Identifier(Skip(line)); if id.None? then None else ParseReturn(id.value.0, Skip(id.value.1))
  }

  /** From the return type on. */
  function ParseReturn(name: string, s: string): Option<Row> {
    var n := Span(s, UntilParen);
    var ret := TrimRight(s[..n]);
    if n == |s| || ret == [] then None else ParseArgsAndTail(name, ret, s[n..])
  }

  function ParseArgsAndTail(name: string, ret: string, s: string): Option<Row> {
    var args := Args(s); if args.None? then None else ParseLvo(name, ret, args.value.0, Skip(args.value.1))
  }

  /** From the LVO on: a negative multiple of six. */
  function ParseLvo(name: string, ret: string, args: seq<Arg>, s: string): Option<Row> {
    var num := Long(s);
    if num.None? || num.value.0 >= 0 || num.value.0 % 6 != 0 then None
    else ParseFlavour(name, ret, args, num.value.0, Skip(num.value.1))
  }

  function ParseFlavour(name: string, ret: string, args: seq<Arg>, lvo: int, s: string): Option<Row> {
    var fl := Identifier(s);
    if fl.None? || FlavourOf(fl.value.0).None? then None
    else ParseImpl(name, ret, args, lvo, FlavourOf(fl.value.0).value, Skip(fl.value.1))
  }

  function ParseImpl(name: string, ret: string, args: seq<Arg>, lvo: int, f: Flavour, s: string): Option<Row> {
    var impl := TrimRight(s);
    if impl == [] || (f.Server? && !ServerSymbol(impl)) then None else Some(Row(name, ret, args, lvo, f, impl))
  }

  predicate IsPad(name: string) { |name| >= 4 && name[..4] == "_PAD" }
}
