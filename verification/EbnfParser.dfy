/** The recursive-descent parser of grammars. */
module EbnfParser {
  import opened Base
  import opened EbnfGrammar

  datatype Token = Name(text: string) | Quoted(text: string) | Query(text: string) | Punct(symbol: char) | Eof

  datatype ParseError =
    | Expected(kind: string, at: nat)
    | ExpectedTerm(at: nat)
    | Duplicate(name: string)
    | NoProductions

  type Production = (string, Node)

  // ----- Rendering ------------------------------------------------------------

  predicate IsTerm(node: Node) { !node.Alternative? && !node.Sequence? }

  function RenderTerm(node: Node): (r: seq<Token>)
    requires IsNormal(node) && IsTerm(node)
    ensures Eof !in r
    decreases node, 0
  {
    match node
    case Reference(name) => [Name(name)]
    case Terminal(value) => [Quoted(value)]
    case Special(value) => [Query(value)]
    case Group(child) => [Punct('(')] + RenderAlternatives(child) + [Punct(')')]
    case Optional(child) => [Punct('[')] + RenderAlternatives(child) + [Punct(']')]
    case Repetition(child) => [Punct('{')] + RenderAlternatives(child) + [Punct('}')]
  }

  function RenderSequence(node: Node): (r: seq<Token>)
    requires IsNormal(node) && !node.Alternative?
    ensures Eof !in r
    decreases node, 1
  {
    if node.Sequence? then RenderTerm(node.children[0]) + RenderMoreTerms(node.children[1..]) else RenderTerm(node)
  }

  function RenderMoreTerms(nodes: seq<Node>): (r: seq<Token>)
    requires forall i | 0 <= i < |nodes| :: IsNormal(nodes[i]) && IsTerm(nodes[i])
    ensures Eof !in r
    decreases nodes, 1
  {
    if nodes == [] then [] else [Punct(',')] + RenderTerm(nodes[0]) + RenderMoreTerms(nodes[1..])
  }

  function RenderAlternatives(node: Node): (r: seq<Token>)
    requires IsNormal(node)
    ensures Eof !in r
    decreases node, 2
  {
    if node.Alternative? then RenderSequence(node.children[0]) + RenderMoreSequences(node.children[1..])
    else RenderSequence(node)
  }

  function RenderMoreSequences(nodes: seq<Node>): (r: seq<Token>)
    requires forall i | 0 <= i < |nodes| :: IsNormal(nodes[i]) && !nodes[i].Alternative?
    ensures Eof !in r
    decreases nodes, 2
  {
    if nodes == [] then [] else [Punct('|')] + RenderSequence(nodes[0]) + RenderMoreSequences(nodes[1..])
  }

  predicate NormalProductions(productions: seq<Production>) {
    forall i | 0 <= i < |productions| :: IsNormal(productions[i].1)
  }

  predicate DistinctNames(productions: seq<Production>) {
    forall i, j | 0 <= i < j < |productions| :: productions[i].0 != productions[j].0
  }

  function RenderProductions(productions: seq<Production>): (r: seq<Token>)
    requires NormalProductions(productions)
    ensures Eof !in r
  {
    if productions == [] then []
    else
      [Name(productions[0].0), Punct('=')] + RenderAlternatives(productions[0].1) + [Punct(';')]
      + RenderProductions(productions[1..])
  }

  // ----- The parser as a function of the tokens --------------------------------

  /** Tokens as the tokenizer leaves them: the end marker last, and only there. */
  predicate Ended(ts: seq<Token>) {
    ts != [] && forall i | 0 <= i < |ts| :: ts[i] == Eof <==> i == |ts| - 1
  }

  function OneOr(nodes: seq<Node>, alternative: bool): Node
    requires nodes != []
  {
    if |nodes| == 1 then nodes[0] else if alternative then Alternative(nodes) else Sequence(nodes)
  }

  function Bracketed(open: char, child: Node): Node {
    if open == '(' then Group(child) else if open == '[' then Optional(child) else Repetition(child)
  }

  function Closing(open: char): char {
    if open == '(' then ')' else if open == '[' then ']' else '}'
  }

  predicate IsOpen(c: char) { c == '(' || c == '[' || c == '{' }

  type Parse<T> = Result<(T, nat), ParseError>

  function TermAt(ts: seq<Token>, p: nat): (r: Parse<Node>)
    requires Ended(ts) && p < |ts|
    ensures r.Ok? ==> p < r.value.1 < |ts|
    decreases |ts| - p, 0
  {
    match ts[p]
    case Name(text) => Ok((Reference(text), p + 1))
    case Quoted(text) => Ok((Terminal(text), p + 1))
    case Query(text) => Ok((Special(text), p + 1))
    case Eof => Err(ExpectedTerm(p))
    case Punct(c) =>
      if !IsOpen(c) then Err(ExpectedTerm(p))
      else
        match AlternativesAt(ts, p + 1)
        case Err(why) => Err(why)
        case Ok((child, q)) =>
          if ts[q] != Punct(Closing(c)) then Err(Expected([Closing(c)], q)) else Ok((Bracketed(c, child), q + 1))
  }

  function SequenceAt(ts: seq<Token>, p: nat): (r: Parse<Node>)
    requires Ended(ts) && p < |ts|
    ensures r.Ok? ==> p < r.value.1 < |ts|
    decreases |ts| - p, 1
  {
    match TermAt(ts, p)
    case Err(why) => Err(why)
    case Ok((first, q)) =>
      match MoreTermsAt(ts, q, [first])
      case Err(why) => Err(why)
      case Ok((terms, q')) => Ok((OneOr(terms, false), q'))
  }

  function MoreTermsAt(ts: seq<Token>, q: nat, terms: seq<Node>): (r: Parse<seq<Node>>)
    requires Ended(ts) && q < |ts| && terms != []
    ensures r.Ok? ==> q <= r.value.1 < |ts| && r.value.0 != []
    decreases |ts| - q, 2
  {
    if ts[q] != Punct(',') then Ok((terms, q))
    else
      match TermAt(ts, q + 1)
      case Err(why) => Err(why)
      case Ok((term, q')) => MoreTermsAt(ts, q', terms + [term])
  }

  function AlternativesAt(ts: seq<Token>, p: nat): (r: Parse<Node>)
    requires Ended(ts) && p < |ts|
    ensures r.Ok? ==> p < r.value.1 < |ts|
    decreases |ts| - p, 3
  {
    match SequenceAt(ts, p)
    case Err(why) => Err(why)
    case Ok((first, q)) =>
      match MoreSequencesAt(ts, q, [first])
      case Err(why) => Err(why)
      case Ok((nodes, q')) => Ok((OneOr(nodes, true), q'))
  }

  function MoreSequencesAt(ts: seq<Token>, q: nat, nodes: seq<Node>): (r: Parse<seq<Node>>)
    requires Ended(ts) && q < |ts| && nodes != []
    ensures r.Ok? ==> q <= r.value.1 < |ts| && r.value.0 != []
    decreases |ts| - q, 4
  {
    if ts[q] != Punct('|') then Ok((nodes, q))
    else
      match SequenceAt(ts, q + 1)
      case Err(why) => Err(why)
      case Ok((node, q')) => MoreSequencesAt(ts, q', nodes + [node])
  }

  function ProductionAt(ts: seq<Token>, p: nat): (r: Parse<Production>)
    requires Ended(ts) && p < |ts|
    ensures r.Ok? ==> p < r.value.1 < |ts|
  {
    if !ts[p].Name? then Err(Expected("NAME", p))
    else if ts[p + 1] != Punct('=') then Err(Expected("=", p + 1))
    else
      match AlternativesAt(ts, p + 2)
      case Err(why) => Err(why)
      case Ok((definition, q)) =>
        if ts[q] != Punct(';') then Err(Expected(";", q)) else Ok(((ts[p].text, definition), q + 1))
  }

  function Named(name: string): Production -> bool { (d: Production) => d.0 == name }

  function ProductionsAt(ts: seq<Token>, p: nat, done: seq<Production>): Result<seq<Production>, ParseError>
    requires Ended(ts) && p < |ts|
    decreases |ts| - p
  {
    if ts[p] == Eof then (if done == [] then Err(NoProductions) else Ok(done))
    else
      match ProductionAt(ts, p)
      case Err(why) => Err(why)
      case Ok((production, q)) =>
        if First(done, Named(production.0)).Some? then Err(Duplicate(production.0))
        else ProductionsAt(ts, q, done + [production])
  }

  // ----- The parser -----------------------------------------------------------

  class Parser {
    const tokens: seq<Token>
    var position: nat

    ghost predicate Valid()
      reads this
    {
      Ended(tokens) && position < |tokens|
    }

    constructor (tokens: seq<Token>)
      requires Ended(tokens)
      ensures Valid() && this.tokens == tokens && position == 0
    {
      this.tokens := tokens;
      position := 0;
    }

    /** Consume the token `kind`, which is not the end marker. */
    method Take(kind: char) returns (r: Result<(), ParseError>)
      requires Valid()
      modifies this
      ensures Valid()
      ensures if tokens[old(position)] == Punct(kind) then r == Ok(()) && position == old(position) + 1
              else r == Err(Expected([kind], old(position))) && position == old(position)
    {
      if tokens[position] != Punct(kind) { return Err(Expected([kind], position)); }
      position := position + 1;
      return Ok(());
    }

    method ParseTerm() returns (r: Result<Node, ParseError>)
      requires Valid()
      modifies this
      ensures Valid()
      ensures match TermAt(tokens, old(position))
              case Err(why) => r == Err(why)
              case Ok((node, q)) => r == Ok(node) && position == q
      decreases |tokens| - position, 0
    {
      var token := tokens[position];
      match token {
        case Name(text) => position := position + 1; return Ok(Reference(text));
        case Quoted(text) => position := position + 1; return Ok(Terminal(text));
        case Query(text) => position := position + 1; return Ok(Special(text));
        case Eof => return Err(ExpectedTerm(position));
        case Punct(c) =>
          if !IsOpen(c) { return Err(ExpectedTerm(position)); }
          position := position + 1;
          var child := ParseAlternatives();
          if child.Err? { return child; }
          var closed := Take(Closing(c));
          if closed.Err? { return Err(closed.error); }
          return Ok(Bracketed(c, child.value));
      }
    }

    method ParseSequence() returns (r: Result<Node, ParseError>)
      requires Valid()
      modifies this
      ensures Valid()
      ensures match SequenceAt(tokens, old(position))
              case Err(why) => r == Err(why)
              case Ok((node, q)) => r == Ok(node) && position == q
      decreases |tokens| - position, 1
    {
      var first := ParseTerm();
      if first.Err? { return first; }
      var terms := [first.value];
      ghost var start := position;
      while tokens[position] == Punct(',')
        invariant Valid() && terms != [] && old(position) < position
        invariant MoreTermsAt(tokens, position, terms) == MoreTermsAt(tokens, start, [first.value])
        decreases |tokens| - position
      {
        position := position + 1;
        var term := ParseTerm();
        if term.Err? { return term; }
        terms := terms + [term.value];
      }
      return Ok(OneOr(terms, false));
    }

    method ParseAlternatives() returns (r: Result<Node, ParseError>)
      requires Valid()
      modifies this
      ensures Valid()
      ensures match AlternativesAt(tokens, old(position))
              case Err(why) => r == Err(why)
              case Ok((node, q)) => r == Ok(node) && position == q
      decreases |tokens| - position, 3
    {
      var first := ParseSequence();
      if first.Err? { return first; }
      var alternatives := [first.value];
      ghost var start := position;
      while tokens[position] == Punct('|')
        invariant Valid() && alternatives != [] && old(position) < position
        invariant MoreSequencesAt(tokens, position, alternatives) == MoreSequencesAt(tokens, start, [first.value])
        decreases |tokens| - position
      {
        position := position + 1;
        var node := ParseSequence();
        if node.Err? { return node; }
        alternatives := alternatives + [node.value];
      }
      return Ok(OneOr(alternatives, true));
    }

    /** One production, up to and with its semicolon. */
    method ParseProduction() returns (r: Result<Production, ParseError>)
      requires Valid()
      modifies this
      ensures Valid()
      ensures match ProductionAt(tokens, old(position))
              case Err(why) => r == Err(why)
              case Ok((production, q)) => r == Ok(production) && position == q
    {
      var token := tokens[position];
      if !token.Name? { return Err(Expected("NAME", position)); }
      position := position + 1;
      var equals := Take('=');
      if equals.Err? { return Err(equals.error); }
      var definition := ParseAlternatives();
      if definition.Err? { return Err(definition.error); }
      var end := Take(';');
      if end.Err? { return Err(end.error); }
      return Ok((token.text, definition.value));
    }

    method Parse() returns (r: Result<seq<Production>, ParseError>)
      requires Valid()
      modifies this
      ensures Valid()
      ensures r == ProductionsAt(tokens, old(position), [])
    {
      var productions: seq<Production> := [];
      while tokens[position] != Eof
        invariant Valid()
        invariant ProductionsAt(tokens, position, productions) == ProductionsAt(tokens, old(position), [])
        decreases |tokens| - position
      {
        var production := ParseProduction();
        if production.Err? { return Err(production.error); }
        var name := production.value.0;
        if First(productions, Named(name)).Some? { return Err(Duplicate(name)); }
        productions := productions + [production.value];
      }
      if productions == [] { return Err(NoProductions); }
      return Ok(productions);
    }
  }

  // ----- Whatever parses renders back to its own tokens ------------------------

  lemma Slice3(ts: seq<Token>, a: nat, b: nat, c: nat)
    requires a <= b <= c <= |ts|
    ensures ts[a..c] == ts[a..b] + ts[b..c]
  {
  }

  lemma SliceBetween(ts: seq<Token>, p: nat, q: nat)
    requires p < q < |ts|
    ensures ts[p..q + 1] == [ts[p]] + ts[p + 1..q] + [ts[q]]
  {
  }

  lemma {:induction false} TermSound(ts: seq<Token>, p: nat)
    requires Ended(ts) && p < |ts| && TermAt(ts, p).Ok?
    ensures var (node, q) := TermAt(ts, p).value;
            IsNormal(node) && IsTerm(node) && ts[p..q] == RenderTerm(node)
    decreases |ts| - p, 0
  {
    if ts[p].Punct? {
      AlternativesSound(ts, p + 1);
      var (child, q) := AlternativesAt(ts, p + 1).value;
      SliceBetween(ts, p, q);
    } else {
      assert ts[p..p + 1] == [ts[p]];
    }
  }

  lemma {:induction false} MoreTermsStep(ts: seq<Token>, q: nat, terms: seq<Node>, term: Node, r: nat)
    requires Ended(ts) && q < |ts| && terms != [] && ts[q] == Punct(',') && TermAt(ts, q + 1) == Ok((term, r))
    ensures MoreTermsAt(ts, q, terms) == MoreTermsAt(ts, r, terms + [term])
  {
  }

  lemma {:induction false} MoreTermsRendered(ts: seq<Token>, q: nat, r: nat, q': nat, terms: seq<Node>, term: Node,
                                             all: seq<Node>)
    requires q < r <= q' <= |ts| && ts[q] == Punct(',') && |all| > |terms| && all[..|terms| + 1] == terms + [term]
    requires forall i | 0 <= i < |all| :: IsNormal(all[i]) && IsTerm(all[i])
    requires IsNormal(term) && IsTerm(term) && ts[q + 1..r] == RenderTerm(term)
    requires ts[r..q'] == RenderMoreTerms(all[|terms| + 1..])
    ensures all[..|terms|] == terms && ts[q..q'] == RenderMoreTerms(all[|terms|..])
  {
    assert all[|terms|] == all[..|terms| + 1][|terms|] == term;
    assert all[..|terms|] == all[..|terms| + 1][..|terms|];
    assert all[|terms|..][1..] == all[|terms| + 1..];
    assert ts[q..q'] == [ts[q]] + ts[q + 1..r] + ts[r..q'];
  }

  lemma {:induction false} MoreTermsSound(ts: seq<Token>, q: nat, terms: seq<Node>)
    requires Ended(ts) && q < |ts| && terms != [] && MoreTermsAt(ts, q, terms).Ok?
    requires forall i | 0 <= i < |terms| :: IsNormal(terms[i]) && IsTerm(terms[i])
    ensures var (all, q') := MoreTermsAt(ts, q, terms).value;
            && |all| >= |terms| && all[..|terms|] == terms
            && (forall i | 0 <= i < |all| :: IsNormal(all[i]) && IsTerm(all[i]))
            && ts[q..q'] == RenderMoreTerms(all[|terms|..])
    decreases |ts| - q, 2
  {
    if ts[q] == Punct(',') {
      TermSound(ts, q + 1);
      var (term, r) := TermAt(ts, q + 1).value;
      MoreTermsSound(ts, r, terms + [term]);
      MoreTermsStep(ts, q, terms, term, r);
      var (all, q') := MoreTermsAt(ts, r, terms + [term]).value;
      MoreTermsRendered(ts, q, r, q', terms, term, all);
    } else {
      assert terms[|terms|..] == [];
    }
  }

  lemma {:induction false} SequenceSound(ts: seq<Token>, p: nat)
    requires Ended(ts) && p < |ts| && SequenceAt(ts, p).Ok?
    ensures var (node, q) := SequenceAt(ts, p).value;
            IsNormal(node) && !node.Alternative? && ts[p..q] == RenderSequence(node)
    decreases |ts| - p, 1
  {
    TermSound(ts, p);
    var (first, q) := TermAt(ts, p).value;
    MoreTermsSound(ts, q, [first]);
    var (terms, q') := MoreTermsAt(ts, q, [first]).value;
    assert terms[0] == terms[..1][0] == first;
    Slice3(ts, p, q, q');
  }

  lemma {:induction false} MoreSequencesStep(ts: seq<Token>, q: nat, nodes: seq<Node>, node: Node, r: nat)
    requires Ended(ts) && q < |ts| && nodes != [] && ts[q] == Punct('|') && SequenceAt(ts, q + 1) == Ok((node, r))
    ensures MoreSequencesAt(ts, q, nodes) == MoreSequencesAt(ts, r, nodes + [node])
  {
  }

  lemma {:induction false} MoreSequencesRendered(ts: seq<Token>, q: nat, r: nat, q': nat, nodes: seq<Node>,
                                                 node: Node, all: seq<Node>)
    requires q < r <= q' <= |ts| && ts[q] == Punct('|') && |all| > |nodes| && all[..|nodes| + 1] == nodes + [node]
    requires forall i | 0 <= i < |all| :: IsNormal(all[i]) && !all[i].Alternative?
    requires IsNormal(node) && !node.Alternative? && ts[q + 1..r] == RenderSequence(node)
    requires ts[r..q'] == RenderMoreSequences(all[|nodes| + 1..])
    ensures all[..|nodes|] == nodes && ts[q..q'] == RenderMoreSequences(all[|nodes|..])
  {
    assert all[|nodes|] == all[..|nodes| + 1][|nodes|] == node;
    assert all[..|nodes|] == all[..|nodes| + 1][..|nodes|];
    assert all[|nodes|..][1..] == all[|nodes| + 1..];
    assert ts[q..q'] == [ts[q]] + ts[q + 1..r] + ts[r..q'];
  }

  lemma {:induction false} MoreSequencesSound(ts: seq<Token>, q: nat, nodes: seq<Node>)
    requires Ended(ts) && q < |ts| && nodes != [] && MoreSequencesAt(ts, q, nodes).Ok?
    requires forall i | 0 <= i < |nodes| :: IsNormal(nodes[i]) && !nodes[i].Alternative?
    ensures var (all, q') := MoreSequencesAt(ts, q, nodes).value;
            && |all| >= |nodes| && all[..|nodes|] == nodes
            && (forall i | 0 <= i < |all| :: IsNormal(all[i]) && !all[i].Alternative?)
            && ts[q..q'] == RenderMoreSequences(all[|nodes|..])
    decreases |ts| - q, 4
  {
    if ts[q] == Punct('|') {
      SequenceSound(ts, q + 1);
      var (node, r) := SequenceAt(ts, q + 1).value;
      MoreSequencesSound(ts, r, nodes + [node]);
      MoreSequencesStep(ts, q, nodes, node, r);
      var (all, q') := MoreSequencesAt(ts, r, nodes + [node]).value;
      MoreSequencesRendered(ts, q, r, q', nodes, node, all);
    } else {
      assert nodes[|nodes|..] == [];
    }
  }

  lemma {:induction false} AlternativesSound(ts: seq<Token>, p: nat)
    requires Ended(ts) && p < |ts| && AlternativesAt(ts, p).Ok?
    ensures var (node, q) := AlternativesAt(ts, p).value;
            IsNormal(node) && ts[p..q] == RenderAlternatives(node)
    decreases |ts| - p, 3
  {
    SequenceSound(ts, p);
    var (first, q) := SequenceAt(ts, p).value;
    MoreSequencesSound(ts, q, [first]);
    var (nodes, q') := MoreSequencesAt(ts, q, [first]).value;
    assert nodes[0] == nodes[..1][0] == first;
    Slice3(ts, p, q, q');
  }

  lemma {:induction false} RenderProductionsPush(productions: seq<Production>, last: Production)
    requires NormalProductions(productions) && IsNormal(last.1)
    ensures NormalProductions(productions + [last])
    ensures RenderProductions(productions + [last])
            == RenderProductions(productions) + [Name(last.0), Punct('=')] + RenderAlternatives(last.1) + [Punct(';')]
  {
    if productions != [] {
      RenderProductionsPush(productions[1..], last);
      assert (productions + [last])[1..] == productions[1..] + [last];
    } else {
      assert [last][1..] == [];
    }
  }

  lemma {:induction false} ProductionsSound(ts: seq<Token>, p: nat, done: seq<Production>)
    requires Ended(ts) && p < |ts| && NormalProductions(done) && DistinctNames(done)
    requires ts[..p] == RenderProductions(done) && ProductionsAt(ts, p, done).Ok?
    ensures var all := ProductionsAt(ts, p, done).value;
            all != [] && NormalProductions(all) && DistinctNames(all) && ts == RenderProductions(all) + [Eof]
    decreases |ts| - p
  {
    if ts[p] == Eof {
      assert ts == ts[..p] + [Eof];
    } else {
      var (production, q) := ProductionAt(ts, p).value;
      ProductionRendered(ts, p, done);
      NameIsNew(done, production);
      ProductionsSound(ts, q, done + [production]);
    }
  }

  lemma {:induction false} ProductionRendered(ts: seq<Token>, p: nat, done: seq<Production>)
    requires Ended(ts) && p < |ts| && NormalProductions(done) && ts[..p] == RenderProductions(done) && ProductionAt(ts, p).Ok?
    ensures var (production, q) := ProductionAt(ts, p).value;
            NormalProductions(done + [production]) && ts[..q] == RenderProductions(done + [production])
  {
    var (production, q) := ProductionAt(ts, p).value;
    AlternativesSound(ts, p + 2);
    RenderProductionsPush(done, production);
    assert ts[..q] == ts[..p] + [ts[p], ts[p + 1]] + ts[p + 2..q - 1] + [ts[q - 1]];
  }

  lemma {:induction false} NameIsNew(done: seq<Production>, production: Production)
    requires DistinctNames(done) && First(done, Named(production.0)).None?
    ensures DistinctNames(done + [production])
  {
    forall i | 0 <= i < |done|
      ensures done[i].0 != production.0
    {
      assert done[i] in done && !Named(production.0)(done[i]);
    }
  }

  // ----- Whatever is in normal form parses back from its rendering --------------

  /** `part` stands in `ts` at `p`. */
  predicate StandsAt(ts: seq<Token>, p: nat, part: seq<Token>) {
    p + |part| <= |ts| && ts[p..p + |part|] == part
  }

  lemma StandsSplit(ts: seq<Token>, p: nat, a: seq<Token>, b: seq<Token>)
    requires StandsAt(ts, p, a + b)
    ensures StandsAt(ts, p, a) && StandsAt(ts, p + |a|, b)
  {
    assert ts[p..p + |a|] == ts[p..p + |a| + |b|][..|a|];
    assert ts[p + |a|..p + |a| + |b|] == ts[p..p + |a| + |b|][|a|..];
  }

  lemma StandsFirst(ts: seq<Token>, p: nat, part: seq<Token>)
    requires StandsAt(ts, p, part) && part != []
    ensures p < |ts| && ts[p] == part[0]
  {
    assert ts[p..p + |part|][0] == ts[p];
  }

  /** A separator, what follows it, and the rest, each in its place. */
  lemma StandsApart(ts: seq<Token>, p: nat, mark: Token, first: seq<Token>, rest: seq<Token>)
    requires StandsAt(ts, p, [mark] + first + rest)
    ensures p < |ts| && ts[p] == mark && StandsAt(ts, p + 1, first) && StandsAt(ts, p + 1 + |first|, rest)
    ensures rest != [] ==> p + 1 + |first| < |ts| && ts[p + 1 + |first|] == rest[0]
  {
    StandsSplit(ts, p, [mark] + first, rest);
    StandsSplit(ts, p, [mark], first);
    StandsFirst(ts, p, [mark]);
    if rest != [] {
      StandsFirst(ts, p + 1 + |first|, rest);
    }
  }

  lemma BracketStands(ts: seq<Token>, p: nat, open: char, inner: seq<Token>)
    requires IsOpen(open) && StandsAt(ts, p, [Punct(open)] + inner + [Punct(Closing(open))])
    ensures p < |ts| && ts[p] == Punct(open) && StandsAt(ts, p + 1, inner)
    ensures p + 1 + |inner| < |ts| && ts[p + 1 + |inner|] == Punct(Closing(open))
  {
    StandsSplit(ts, p, [Punct(open)] + inner, [Punct(Closing(open))]);
    StandsSplit(ts, p, [Punct(open)], inner);
    StandsFirst(ts, p, [Punct(open)]);
    StandsFirst(ts, p + 1 + |inner|, [Punct(Closing(open))]);
  }

  lemma {:induction false} TermComplete(ts: seq<Token>, p: nat, node: Node)
    requires Ended(ts) && IsNormal(node) && IsTerm(node) && StandsAt(ts, p, RenderTerm(node))
    ensures p < |ts| && TermAt(ts, p) == Ok((node, p + |RenderTerm(node)|))
    decreases node, 0
  {
    StandsFirst(ts, p, RenderTerm(node));
    if node.Group? || node.Optional? || node.Repetition? {
      var open := if node.Group? then '(' else if node.Optional? then '[' else '{';
      var inner := RenderAlternatives(node.child);
      BracketStands(ts, p, open, inner);
      AlternativesComplete(ts, p + 1, node.child);
      BracketOf(ts, p, open, node.child, p + 1 + |inner|);
    }
  }

  lemma {:induction false} BracketOf(ts: seq<Token>, p: nat, open: char, child: Node, q: nat)
    requires Ended(ts) && p < |ts| && ts[p] == Punct(open) && IsOpen(open)
    requires AlternativesAt(ts, p + 1) == Ok((child, q)) && ts[q] == Punct(Closing(open))
    ensures TermAt(ts, p) == Ok((Bracketed(open, child), q + 1))
  {
  }

  lemma {:induction false} MoreTermsNext(ts: seq<Token>, q: nat, terms: seq<Node>, more: seq<Node>, r: nat)
    requires Ended(ts) && q < |ts| && terms != [] && more != []
    requires ts[q] == Punct(',') && TermAt(ts, q + 1) == Ok((more[0], r))
    requires MoreTermsAt(ts, r, terms + [more[0]]).Ok?
    requires MoreTermsAt(ts, r, terms + [more[0]]).value.0 == terms + [more[0]] + more[1..]
    ensures MoreTermsAt(ts, q, terms) == Ok((terms + more, MoreTermsAt(ts, r, terms + [more[0]]).value.1))
  {
    assert terms + [more[0]] + more[1..] == terms + more;
  }

  lemma {:induction false} MoreTermsPlaced(ts: seq<Token>, q: nat, more: seq<Node>)
    requires more != [] && forall i | 0 <= i < |more| :: IsNormal(more[i]) && IsTerm(more[i])
    requires StandsAt(ts, q, RenderMoreTerms(more)) && q + |RenderMoreTerms(more)| < |ts|
    ensures var r := q + 1 + |RenderTerm(more[0])|;
      && r + |RenderMoreTerms(more[1..])| == q + |RenderMoreTerms(more)|
      && ts[q] == Punct(',') && StandsAt(ts, q + 1, RenderTerm(more[0])) && StandsAt(ts, r, RenderMoreTerms(more[1..]))
  {
    StandsApart(ts, q, Punct(','), RenderTerm(more[0]), RenderMoreTerms(more[1..]));
  }

  lemma {:induction false} MoreTermsComplete(ts: seq<Token>, q: nat, terms: seq<Node>, more: seq<Node>)
    requires Ended(ts) && terms != []
    requires forall i | 0 <= i < |more| :: IsNormal(more[i]) && IsTerm(more[i])
    requires StandsAt(ts, q, RenderMoreTerms(more)) && q + |RenderMoreTerms(more)| < |ts|
    requires ts[q + |RenderMoreTerms(more)|] != Punct(',')
    ensures MoreTermsAt(ts, q, terms) == Ok((terms + more, q + |RenderMoreTerms(more)|))
    decreases more, 1
  {
    if more == [] {
      assert terms + more == terms;
      NoMoreTerms(ts, q, terms);
    } else {
      var r := q + 1 + |RenderTerm(more[0])|;
      MoreTermsPlaced(ts, q, more);
      TermComplete(ts, q + 1, more[0]);
      MoreTermsComplete(ts, r, terms + [more[0]], more[1..]);
      MoreTermsNext(ts, q, terms, more, r);
    }
  }

  lemma {:induction false} SequenceOf(ts: seq<Token>, p: nat, first: Node, q: nat, terms: seq<Node>, q': nat)
    requires Ended(ts) && p < |ts| && TermAt(ts, p) == Ok((first, q)) && MoreTermsAt(ts, q, [first]) == Ok((terms, q'))
    ensures SequenceAt(ts, p) == Ok((OneOr(terms, false), q'))
  {
  }

  lemma {:induction false} SequenceStands(ts: seq<Token>, p: nat, node: Node)
    requires IsNormal(node) && node.Sequence? && StandsAt(ts, p, RenderSequence(node))
    ensures var first, more := node.children[0], node.children[1..];
      && StandsAt(ts, p, RenderTerm(first)) && StandsAt(ts, p + |RenderTerm(first)|, RenderMoreTerms(more))
      && |RenderSequence(node)| == |RenderTerm(first)| + |RenderMoreTerms(more)|
      && IsNormal(first) && IsTerm(first) && forall i | 0 <= i < |more| :: IsNormal(more[i]) && IsTerm(more[i])
  {
    StandsSplit(ts, p, RenderTerm(node.children[0]), RenderMoreTerms(node.children[1..]));
  }

  lemma {:induction false} SequenceComplete(ts: seq<Token>, p: nat, node: Node)
    requires Ended(ts) && IsNormal(node) && !node.Alternative? && StandsAt(ts, p, RenderSequence(node))
    requires p + |RenderSequence(node)| < |ts| && ts[p + |RenderSequence(node)|] != Punct(',')
    ensures SequenceAt(ts, p) == Ok((node, p + |RenderSequence(node)|))
    decreases node, 1
  {
    if node.Sequence? {
      ManyTermsComplete(ts, p, node);
    } else {
      var q := p + |RenderTerm(node)|;
      TermComplete(ts, p, node);
      NoMoreTerms(ts, q, [node]);
      SequenceOf(ts, p, node, q, [node], q);
    }
  }

  lemma {:induction false} NoMoreTerms(ts: seq<Token>, q: nat, terms: seq<Node>)
    requires Ended(ts) && q < |ts| && terms != [] && ts[q] != Punct(',')
    ensures MoreTermsAt(ts, q, terms) == Ok((terms, q))
  {
  }

  lemma {:induction false} ManyTermsComplete(ts: seq<Token>, p: nat, node: Node)
    requires Ended(ts) && IsNormal(node) && node.Sequence? && StandsAt(ts, p, RenderSequence(node))
    requires p + |RenderSequence(node)| < |ts| && ts[p + |RenderSequence(node)|] != Punct(',')
    ensures SequenceAt(ts, p) == Ok((node, p + |RenderSequence(node)|))
    decreases node, 0
  {
    var first, more := node.children[0], node.children[1..];
    var q := p + |RenderTerm(first)|;
    SequenceStands(ts, p, node);
    TermComplete(ts, p, first);
    MoreTermsComplete(ts, q, [first], more);
    assert [first] + more == node.children;
    SequenceOf(ts, p, first, q, node.children, p + |RenderSequence(node)|);
  }

  lemma {:induction false} MoreSequencesNext(ts: seq<Token>, q: nat, nodes: seq<Node>, more: seq<Node>, r: nat)
    requires Ended(ts) && q < |ts| && nodes != [] && more != []
    requires ts[q] == Punct('|') && SequenceAt(ts, q + 1) == Ok((more[0], r))
    requires MoreSequencesAt(ts, r, nodes + [more[0]]).Ok?
    requires MoreSequencesAt(ts, r, nodes + [more[0]]).value.0 == nodes + [more[0]] + more[1..]
    ensures MoreSequencesAt(ts, q, nodes) == Ok((nodes + more, MoreSequencesAt(ts, r, nodes + [more[0]]).value.1))
  {
    assert nodes + [more[0]] + more[1..] == nodes + more;
  }

  lemma {:induction false} MoreSequencesPlaced(ts: seq<Token>, q: nat, more: seq<Node>)
    requires more != [] && forall i | 0 <= i < |more| :: IsNormal(more[i]) && !more[i].Alternative?
    requires StandsAt(ts, q, RenderMoreSequences(more)) && q + |RenderMoreSequences(more)| < |ts|
    requires ts[q + |RenderMoreSequences(more)|] != Punct(',')
    ensures var r := q + 1 + |RenderSequence(more[0])|; var rest := RenderMoreSequences(more[1..]);
      && r + |rest| == q + |RenderMoreSequences(more)|
      && ts[q] == Punct('|') && StandsAt(ts, q + 1, RenderSequence(more[0])) && StandsAt(ts, r, rest)
      && ts[r] != Punct(',')
  {
    StandsApart(ts, q, Punct('|'), RenderSequence(more[0]), RenderMoreSequences(more[1..]));
  }

  lemma {:induction false} MoreSequencesComplete(ts: seq<Token>, q: nat, nodes: seq<Node>, more: seq<Node>)
    requires Ended(ts) && nodes != []
    requires forall i | 0 <= i < |more| :: IsNormal(more[i]) && !more[i].Alternative?
    requires StandsAt(ts, q, RenderMoreSequences(more)) && q + |RenderMoreSequences(more)| < |ts|
    requires ts[q + |RenderMoreSequences(more)|] != Punct(',') && ts[q + |RenderMoreSequences(more)|] != Punct('|')
    ensures MoreSequencesAt(ts, q, nodes) == Ok((nodes + more, q + |RenderMoreSequences(more)|))
    decreases more, 2
  {
    if more == [] {
      assert nodes + more == nodes;
      NoMoreSequences(ts, q, nodes);
    } else {
      var r := q + 1 + |RenderSequence(more[0])|;
      MoreSequencesPlaced(ts, q, more);
      SequenceComplete(ts, q + 1, more[0]);
      MoreSequencesComplete(ts, r, nodes + [more[0]], more[1..]);
      MoreSequencesNext(ts, q, nodes, more, r);
    }
  }

  lemma {:induction false} AlternativesOf(ts: seq<Token>, p: nat, first: Node, q: nat, nodes: seq<Node>, q': nat)
    requires Ended(ts) && p < |ts| && SequenceAt(ts, p) == Ok((first, q)) && MoreSequencesAt(ts, q, [first]) == Ok((nodes, q'))
    ensures AlternativesAt(ts, p) == Ok((OneOr(nodes, true), q'))
  {
  }

  lemma {:induction false} AlternativesComplete(ts: seq<Token>, p: nat, node: Node)
    requires Ended(ts) && IsNormal(node) && StandsAt(ts, p, RenderAlternatives(node))
    requires p + |RenderAlternatives(node)| < |ts|
    requires ts[p + |RenderAlternatives(node)|] != Punct(',') && ts[p + |RenderAlternatives(node)|] != Punct('|')
    ensures AlternativesAt(ts, p) == Ok((node, p + |RenderAlternatives(node)|))
    decreases node, 2
  {
    if node.Alternative? {
      ManySequencesComplete(ts, p, node);
    } else {
      var q := p + |RenderSequence(node)|;
      SequenceComplete(ts, p, node);
      NoMoreSequences(ts, q, [node]);
      AlternativesOf(ts, p, node, q, [node], q);
    }
  }

  lemma {:induction false} NoMoreSequences(ts: seq<Token>, q: nat, nodes: seq<Node>)
    requires Ended(ts) && q < |ts| && nodes != [] && ts[q] != Punct('|')
    ensures MoreSequencesAt(ts, q, nodes) == Ok((nodes, q))
  {
  }

  lemma {:induction false} AlternativesStand(ts: seq<Token>, p: nat, node: Node)
    requires IsNormal(node) && node.Alternative? && StandsAt(ts, p, RenderAlternatives(node))
    ensures var first, more := node.children[0], node.children[1..]; var q := p + |RenderSequence(first)|;
      && StandsAt(ts, p, RenderSequence(first)) && StandsAt(ts, q, RenderMoreSequences(more))
      && |RenderAlternatives(node)| == |RenderSequence(first)| + |RenderMoreSequences(more)|
      && q < |ts| && ts[q] == Punct('|')
      && IsNormal(first) && !first.Alternative? && forall i | 0 <= i < |more| :: IsNormal(more[i]) && !more[i].Alternative?
  {
    var first, more := node.children[0], node.children[1..];
    StandsSplit(ts, p, RenderSequence(first), RenderMoreSequences(more));
    StandsFirst(ts, p + |RenderSequence(first)|, RenderMoreSequences(more));
  }

  lemma {:induction false} ManySequencesComplete(ts: seq<Token>, p: nat, node: Node)
    requires Ended(ts) && IsNormal(node) && node.Alternative? && StandsAt(ts, p, RenderAlternatives(node))
    requires p + |RenderAlternatives(node)| < |ts|
    requires ts[p + |RenderAlternatives(node)|] != Punct(',') && ts[p + |RenderAlternatives(node)|] != Punct('|')
    ensures AlternativesAt(ts, p) == Ok((node, p + |RenderAlternatives(node)|))
    decreases node, 0
  {
    var first, more := node.children[0], node.children[1..];
    var q := p + |RenderSequence(first)|;
    AlternativesStand(ts, p, node);
    SequenceComplete(ts, p, first);
    MoreSequencesComplete(ts, q, [first], more);
    assert [first] + more == node.children;
    AlternativesOf(ts, p, first, q, node.children, p + |RenderAlternatives(node)|);
  }

  lemma Middle(ts: seq<Token>, p: nat, head: seq<Token>, inner: seq<Token>, mark: seq<Token>, rest: seq<Token>)
    requires p <= |ts| && ts[p..] == head + inner + mark + rest && |head| == 2 && |mark| == 1
    ensures var q := p + 3 + |inner|;
      && q + |rest| == |ts| && ts[p] == head[0] && ts[p + 1] == head[1] && ts[q - 1] == mark[0]
      && ts[p + 2..q - 1] == inner && ts[q..] == rest
  {
    assert head + inner + mark + rest == head + (inner + (mark + rest));
    CutFrom(ts, p, head, inner + (mark + rest));
    CutFrom(ts, p + 2, inner, mark + rest);
    CutFrom(ts, p + 2 + |inner|, mark, rest);
  }

  lemma {:induction false} CutFrom(ts: seq<Token>, p: nat, a: seq<Token>, b: seq<Token>)
    requires p <= |ts| && ts[p..] == a + b
    ensures p + |a| + |b| == |ts| && ts[p..p + |a|] == a && ts[p + |a|..] == b
    ensures a != [] ==> ts[p] == a[0] && ts[p + |a| - 1] == a[|a| - 1]
  {
    assert ts[p..p + |a|] == ts[p..][..|a|];
    assert ts[p + |a|..] == ts[p..][|a|..];
    if a != [] {
      assert ts[p] == ts[p..][0] && ts[p + |a| - 1] == ts[p..][|a| - 1];
    }
  }

  lemma ProductionComplete(ts: seq<Token>, p: nat, production: Production, rest: seq<Token>)
    requires Ended(ts) && IsNormal(production.1) && p <= |ts|
    requires ts[p..] == [Name(production.0), Punct('=')] + RenderAlternatives(production.1) + [Punct(';')] + rest
    requires rest != []
    ensures var q := p + 3 + |RenderAlternatives(production.1)|;
            p < q < |ts| && ProductionAt(ts, p) == Ok((production, q)) && ts[q..] == rest
  {
    var inner := RenderAlternatives(production.1);
    Middle(ts, p, [Name(production.0), Punct('=')], inner, [Punct(';')], rest);
    AlternativesComplete(ts, p + 2, production.1);
  }

  lemma RenderFrom(all: seq<Production>, i: nat)
    requires NormalProductions(all) && i < |all|
    ensures RenderProductions(all[i..]) + [Eof]
            == [Name(all[i].0), Punct('=')] + RenderAlternatives(all[i].1) + [Punct(';')]
               + (RenderProductions(all[i + 1..]) + [Eof])
  {
    assert all[i..][1..] == all[i + 1..];
  }

  lemma {:induction false} ProductionPlaced(ts: seq<Token>, p: nat, all: seq<Production>, i: nat) returns (q: nat)
    requires Ended(ts) && NormalProductions(all) && i < |all| && p <= |ts|
    requires ts[p..] == RenderProductions(all[i..]) + [Eof]
    ensures p < q < |ts| && ProductionAt(ts, p) == Ok((all[i], q)) && ts[q..] == RenderProductions(all[i + 1..]) + [Eof]
  {
    RenderFrom(all, i);
    ProductionComplete(ts, p, all[i], RenderProductions(all[i + 1..]) + [Eof]);
    q := p + 3 + |RenderAlternatives(all[i].1)|;
  }

  lemma {:induction false} ProductionsNext(ts: seq<Token>, p: nat, q: nat, all: seq<Production>, i: nat)
    requires Ended(ts) && p < q < |ts| && i < |all| && DistinctNames(all)
    requires ProductionAt(ts, p) == Ok((all[i], q)) && ProductionsAt(ts, q, all[..i + 1]) == Ok(all)
    ensures ProductionsAt(ts, p, all[..i]) == Ok(all)
  {
    assert all[..i] + [all[i]] == all[..i + 1];
  }

  lemma {:induction false} ProductionsComplete(ts: seq<Token>, p: nat, all: seq<Production>, i: nat)
    requires Ended(ts) && all != [] && NormalProductions(all) && DistinctNames(all) && i <= |all|
    requires p <= |ts| && ts[p..] == RenderProductions(all[i..]) + [Eof]
    ensures ProductionsAt(ts, p, all[..i]) == Ok(all)
    decreases |all| - i
  {
    if i == |all| {
      assert all[..i] == all && ts[p..][0] == Eof;
    } else {
      var q := ProductionPlaced(ts, p, all, i);
      ProductionsComplete(ts, q, all, i + 1);
      ProductionsNext(ts, p, q, all, i);
    }
  }

  /** Every successful parse is in normal form and renders back to its own tokens. */
  lemma {:induction false} ParseRenders(ts: seq<Token>)
    requires Ended(ts) && ProductionsAt(ts, 0, []).Ok?
    ensures var productions := ProductionsAt(ts, 0, []).value;
            && productions != [] && NormalProductions(productions) && DistinctNames(productions)
            && RenderProductions(productions) + [Eof] == ts
  {
    assert ts[..0] == [];
    ProductionsSound(ts, 0, []);
  }

  /** Parsing the rendering of any grammar in normal form yields that grammar. */
  lemma {:induction false} RenderParses(productions: seq<Production>)
    requires productions != [] && NormalProductions(productions) && DistinctNames(productions)
    ensures var ts := RenderProductions(productions) + [Eof];
            Ended(ts) && ProductionsAt(ts, 0, []) == Ok(productions)
  {
    var ts := RenderProductions(productions) + [Eof];
    assert ts[0..] == ts && productions[0..] == productions && productions[..0] == [];
    ProductionsComplete(ts, 0, productions, 0);
  }
}
