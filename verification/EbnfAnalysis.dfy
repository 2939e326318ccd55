/** The analysis of a grammar text, from its characters to its verdict. */
module EbnfAnalysis {
  import opened Base
  import opened EbnfGrammar
  import opened EbnfMeaning
  import opened EbnfLeftRecursion
  import opened EbnfParser
  import opened EbnfTokens

  datatype AnalysisError = Untokenizable(error: TokenError) | Unparsable(why: ParseError) | MissingStart(start: string)

  function Names(productions: seq<Production>): seq<string> {
    seq(|productions|, i requires 0 <= i < |productions| => productions[i].0)
  }

  /** The productions by name. */
  ghost predicate IsGrammarOf(g: Grammar, productions: seq<Production>) {
    && (forall n :: n in g <==> n in Names(productions))
    && forall i | 0 <= i < |productions| :: productions[i].0 in g && g[productions[i].0] == productions[i].1
  }

  method ToGrammar(productions: seq<Production>) returns (g: Grammar)
    requires DistinctNames(productions)
    ensures IsGrammarOf(g, productions)
  {
    g := map[];
    for i := 0 to |productions|
      invariant IsGrammarOf(g, productions[..i])
    {
      var (name, definition) := productions[i];
      g := g[name := definition];
      var before, now := productions[..i], productions[..i + 1];
      forall n
        ensures n in g <==> n in Names(now)
      {
        assert Names(now) == Names(before) + [name];
      }
      assert forall k | 0 <= k < i :: now[k] == before[k] && productions[k].0 != productions[i].0;
    }
    assert productions[..|productions|] == productions;
  }

  /** A usable grammar: complete, without dead ends or idle parts, and not left recursive. */
  ghost predicate Usable(g: Grammar, start: string) {
    && (forall m, n | m in g && n in References(g[m]) :: n in g)
    && (forall n | n in g :: exists path :: ReferenceChain(g, start, n, path))
    && (forall n | n in g :: DerivesTerminals(g, n))
    && !LeftRecursive(g)
  }

  /** The answer for a grammar: the start production is missing, or whether the grammar is usable. */
  ghost predicate Judges(g: Grammar, start: string, r: Result<bool, AnalysisError>) {
    if start !in g then r == Err(MissingStart(start)) else r.Ok? && (r.value <==> Usable(g, start))
  }

  /** The answer for a text: the first error of its tokens or of its productions, or that for its grammar. */
  ghost predicate Verdict(a: Alphabet, source: string, start: string, r: Result<bool, AnalysisError>) {
    match Tokens(a, source, 0)
    case Err(error) => r == Err(Untokenizable(error))
    case Ok(tokens) =>
      Ended(tokens) &&
      match ProductionsAt(tokens, 0, [])
      case Err(why) => r == Err(Unparsable(why))
      case Ok(productions) => exists g :: IsGrammarOf(g, productions) && Judges(g, start, r)
  }

  /** The tool accepts a text exactly when it parses, names the start production and is usable. */
  method Analyze(a: Alphabet, source: string, start: string) returns (r: Result<bool, AnalysisError>)
    requires a.Valid()
    ensures Verdict(a, source, start, r)
  {
    var tokens := Tokenize(a, source);
    if tokens.Err? {
      return Err(Untokenizable(tokens.error));
    }
    TokensAreWritable(a, source, 0);
    var parser := new Parser(tokens.value);
    var parsed := parser.Parse();
    if parsed.Err? {
      return Err(Unparsable(parsed.error));
    }
    r := Judge(tokens.value, parsed.value, start);
  }

  /** The checks of a grammar that was parsed. */
  method Judge(tokens: seq<Token>, productions: seq<Production>, start: string) returns (r: Result<bool, AnalysisError>)
    requires Ended(tokens) && ProductionsAt(tokens, 0, []) == Ok(productions)
    ensures exists g :: IsGrammarOf(g, productions) && Judges(g, start, r)
  {
    ParseRenders(tokens);
    var g := ToGrammar(productions);
    if start !in g {
      r := Err(MissingStart(start));
      assert Judges(g, start, r);
      return;
    }
    GrammarIsNormal(g, productions);
    var d, nullable := Validate(g, Names(productions), start);
    r := Ok(d.Passed());
    PassedIsUsable(g, start, d);
    assert Judges(g, start, r);
  }

  lemma GrammarIsUnique(g: Grammar, h: Grammar, productions: seq<Production>)
    requires IsGrammarOf(g, productions) && IsGrammarOf(h, productions)
    ensures g == h
  {
    forall n | n in g
      ensures n in h && g[n] == h[n]
    {
      assert n in Names(productions);
      var i :| 0 <= i < |productions| && Names(productions)[i] == n;
      assert productions[i].0 == n;
    }
    assert g.Keys == h.Keys;
  }

  /** Any text that writes out a grammar in normal form, however laid out, gets the answer for that grammar. */
  lemma {:induction false} LayoutDoesNotMatter(a: Alphabet, lead: string, items: seq<Item>,
                                               productions: seq<Production>, g: Grammar, start: string,
                                               r: Result<bool, AnalysisError>)
    requires a.Valid() && Layout(a, lead) && AllOk(a, items)
    requires productions != [] && NormalProductions(productions) && DistinctNames(productions)
    requires TokensOf(items) == RenderProductions(productions) && IsGrammarOf(g, productions)
    ensures Verdict(a, lead + TextOf(a, items), start, r) <==> Judges(g, start, r)
  {
    GrammarTextParses(a, lead, items, productions);
    if h :| IsGrammarOf(h, productions) && Judges(h, start, r) {
      GrammarIsUnique(g, h, productions);
    }
  }

  lemma GrammarIsNormal(g: Grammar, productions: seq<Production>)
    requires IsGrammarOf(g, productions) && NormalProductions(productions)
    ensures Normal(g)
  {
    forall n | n in g
      ensures IsNormal(g[n])
    {
      var i :| 0 <= i < |productions| && Names(productions)[i] == n;
      assert productions[i].0 == n;
    }
  }

  lemma PassedIsUsable(g: Grammar, start: string, d: Diagnostics)
    requires forall n :: n in d.undefined <==> n !in g && exists m :: m in g && n in References(g[m])
    requires forall n :: n in d.unreachable <==> n in g && !exists path :: ReferenceChain(g, start, n, path)
    requires forall n :: n in d.unproductive <==> n in g && !DerivesTerminals(g, n)
    requires d.leftRecursive != {} <==> LeftRecursive(g)
    ensures d.Passed() <==> Usable(g, start)
  {
    if Usable(g, start) {
      assert forall n :: n !in d.undefined && n !in d.unreachable && n !in d.unproductive;
    }
    if d.Passed() {
      forall m, n | m in g && n in References(g[m])
        ensures n in g
      {
        assert n !in d.undefined;
      }
      assert forall n :: n !in d.unreachable && n !in d.unproductive;
    }
  }
}
