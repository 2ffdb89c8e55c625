/**
 The coverage tallies of tools/lvo-gen against the text of a description: how each printed row counts.
 */
module LvoCoverage {
  import opened Options
  import opened LvoText
  import opened LvoRoundTrip
  import opened LvoGen

  lemma TallySnoc(fs: seq<Function>, f: Function, k: Kind)
    ensures Tally(fs + [f], k) == Tally(fs, k) + if KindOf(f) == k then 1 else 0
  {
    assert (fs + [f])[..|fs|] == fs;
  }

  /** What a row counts as, by the words on its line: the name makes it a stub, the word server a server
      slot, and anything else an implemented one; the first four count as reserved whatever they say. */
  function KindByWords(position: nat, name: string, flavour: string): Kind {
    if position < 4 then ReservedSlot
    else if |name| >= 4 && name[..4] == "_PAD" then Stub
    else if flavour == "server" then ServerSlot
    else Implemented
  }

  /** Reading a printed row adds one to exactly the tally its words call for. */
  lemma RowCounted(lib: Lib, r: Row, ds: string, fn: string, after: Lib, k: Kind)
    requires GoodRow(r) && Spells(ds, -r.lvo) && Names(fn, r.flavour) && after == AddRow(lib, RenderRow(r, ds, fn))
    ensures Tally(after.funcs, k)
         == Tally(lib.funcs, k) + if KindByWords(|lib.funcs|, r.name, fn) == k then 1 else 0
  {
    RoundTrip(r, ds, fn);
    RowAppended(lib, RenderRow(r, ds, fn), r.(lvo := ToInt(r.lvo)), after);
    KindCounted(lib.funcs, r.(lvo := ToInt(r.lvo)), fn, k);
  }

  lemma RowAppended(lib: Lib, line: string, r: Row, after: Lib)
    requires ParseRow(line) == Some(r) && after == AddRow(lib, line)
    ensures after.funcs == lib.funcs + [Function(r, IsPad(r.name), |lib.funcs|)]
  {}

  lemma KindCounted(fs: seq<Function>, r: Row, fn: string, k: Kind)
    requires Names(fn, r.flavour)
    ensures Tally(fs + [Function(r, IsPad(r.name), |fs|)], k)
         == Tally(fs, k) + if KindByWords(|fs|, r.name, fn) == k then 1 else 0
  {
    TallySnoc(fs, Function(r, IsPad(r.name), |fs|), k);
  }

  // ---- directives ---------------------------------------------------------------------------------

  /** The word of a directive. */
  function WordOf(k: Key): string {
    match k
    case LibraryName => "library"
    case Base => "base"
    case BaseType => "base_type"
    case Owner => "owner"
    case Spdx => "spdx"
  }

  /** A line with a word and a value, as it stands in a description. */
  function DirectiveText(word: string, val: string): string { "##" + (word + ([' '] + val)) }

  predicate IsValue(val: string) { Tight(val) && !IsSpace(val[0]) }

  lemma DirectiveRead(lib: Lib, word: string, val: string)
    requires IsIdent(word) && IsValue(val)
    ensures Feed(lib, DirectiveText(word, val)) == Directive(lib, word, val)
  {
    var rest := [' '] + val;
    var line := DirectiveText(word, val);
    assert line[0] == '#' && line[1] == '#' && line[2..] == word + rest;
    IdentStart(word, rest);
    SkipNone(word + rest);
    BlankStops(val);
    IdentConcat(word, rest);
    SpanConcat([' '], val, White);
    assert rest[1..] == val;
    TightTrim(val);
  }

  lemma WordIsIdent(k: Key)
    ensures IsIdent(WordOf(k)) && KeyOf(WordOf(k)) == Some(k)
  {
    AllInAll(WordOf(k), Ident);
  }

  lemma {:induction false} AllInAll(s: string, k: Class)
    requires forall i | 0 <= i < |s| :: k.Has(s[i])
    ensures AllIn(s, k)
  {
    if s != [] { AllInAll(s[1..], k); }
  }

  /** A line with the word of a field sets that field and nothing else. */
  lemma FieldRead(lib: Lib, k: Key, val: string)
    requires IsValue(val)
    ensures Feed(lib, DirectiveText(WordOf(k), val)) == lib.(fields := lib.fields[k := val])
  {
    WordIsIdent(k);
    DirectiveRead(lib, WordOf(k), val);
  }
}
