/** What a definition mentions, and where and why reading one stops. */
module EbnfErrors {
  import opened Base
  import opened EbnfGrammar
  import opened EbnfParser

  // ------------------------------------------------------------------ references

  lemma {:induction false} NamesOfTerm(node: Node, n: string)
    requires IsNormal(node) && IsTerm(node)
    ensures n in References(node) <==> Name(n) in RenderTerm(node)
    decreases node, 0
  {
    match node
    case Group(child) => NamesAre(child, n);
    case Optional(child) => NamesAre(child, n);
    case Repetition(child) => NamesAre(child, n);
    case _ =>
  }

  lemma {:induction false} NamesOfSequence(node: Node, n: string)
    requires IsNormal(node) && !node.Alternative?
    ensures n in References(node) <==> Name(n) in RenderSequence(node)
    decreases node, 1
  {
    if node.Sequence? {
      NamesOfTerm(node.children[0], n);
      NamesOfTerms(node.children[1..], n);
      assert node.children == [node.children[0]] + node.children[1..];
      SomeOf(node.children, n);
      SomeOf(node.children[1..], n);
    } else {
      NamesOfTerm(node, n);
    }
  }

  /** One of these mentions the name. */
  predicate Mention(nodes: seq<Node>, n: string) {
    nodes != [] && (n in References(nodes[0]) || Mention(nodes[1..], n))
  }

  lemma {:induction false} SomeOf(nodes: seq<Node>, n: string)
    ensures Mention(nodes, n) <==> exists i | 0 <= i < |nodes| :: n in References(nodes[i])
  {
    if nodes != [] {
      SomeOf(nodes[1..], n);
      if i :| 0 <= i < |nodes| && n in References(nodes[i]) {
        assert i > 0 ==> nodes[1..][i - 1] == nodes[i];
      }
      if i :| 0 <= i < |nodes| - 1 && n in References(nodes[1..][i]) {
        assert nodes[i + 1] == nodes[1..][i];
      }
    }
  }

  lemma {:induction false} NamesOfTerms(nodes: seq<Node>, n: string)
    requires forall i | 0 <= i < |nodes| :: IsNormal(nodes[i]) && IsTerm(nodes[i])
    ensures Mention(nodes, n) <==> Name(n) in RenderMoreTerms(nodes)
    decreases nodes, 1
  {
    if nodes != [] {
      NamesOfTerm(nodes[0], n);
      NamesOfTerms(nodes[1..], n);
    }
  }

  lemma {:induction false} NamesOfSequences(nodes: seq<Node>, n: string)
    requires forall i | 0 <= i < |nodes| :: IsNormal(nodes[i]) && !nodes[i].Alternative?
    ensures Mention(nodes, n) <==> Name(n) in RenderMoreSequences(nodes)
    decreases nodes, 2
  {
    if nodes != [] {
      NamesOfSequence(nodes[0], n);
      NamesOfSequences(nodes[1..], n);
    }
  }

  /** A definition refers to exactly the names among its tokens. */
  lemma {:induction false} NamesAre(node: Node, n: string)
    requires IsNormal(node)
    ensures n in References(node) <==> Name(n) in RenderAlternatives(node)
    decreases node, 2
  {
    if node.Alternative? {
      NamesOfSequence(node.children[0], n);
      NamesOfSequences(node.children[1..], n);
      assert node.children == [node.children[0]] + node.children[1..];
      SomeOf(node.children, n);
    } else {
      NamesOfSequence(node, n);
    }
  }

  // ------------------------------------------------------------------ errors

  predicate StartsTerm(t: Token) {
    t.Name? || t.Quoted? || t.Query? || t in {Punct('('), Punct('['), Punct('{')}
  }

  predicate EndsTerm(t: Token) {
    t.Name? || t.Quoted? || t.Query? || t in {Punct(')'), Punct(']'), Punct('}')}
  }

  predicate Joins(t: Token) {
    t == Punct(',') || t == Punct('|')
  }

  /** What must be followed by a term. */
  predicate AsksForTerm(t: Token) {
    Joins(t) || t in {Punct('('), Punct('['), Punct('{')}
  }

  predicate Mates(open: char, close: char) {
    (open == '(' && close == ')') || (open == '[' && close == ']') || (open == '{' && close == '}')
  }

  /** After the bracket at `j` comes a definition up to `k`, where it is not closed. */
  predicate LeftOpen(ts: seq<Token>, j: int, k: int, close: char)
    requires Ended(ts)
  {
    && 0 <= j < |ts| - 1 && k < |ts| && ts[j].Punct? && Mates(ts[j].symbol, close)
    && AlternativesAt(ts, j + 1).Ok? && AlternativesAt(ts, j + 1).value.1 == k && ts[k] != Punct(close)
  }

  /**
   * Why a definition that starts at `p` cannot be read: where a term must start none does, or a bracket is not closed
   * where its contents end.
   */
  ghost predicate Fails(ts: seq<Token>, p: nat, error: ParseError)
    requires Ended(ts)
  {
    match error
    case ExpectedTerm(k) => p <= k < |ts| && !StartsTerm(ts[k]) && (k == p || AsksForTerm(ts[k - 1]))
    case Expected(kind, k) =>
      && p < k < |ts| && EndsTerm(ts[k - 1]) && !Joins(ts[k])
      && exists j, close :: p <= j && kind == [close] && LeftOpen(ts, j, k, close)
    case _ => false
  }

  /** The same, but not at `p` itself. */
  ghost predicate FailsLater(ts: seq<Token>, p: nat, error: ParseError)
    requires Ended(ts)
  {
    Fails(ts, p, error) && (error.ExpectedTerm? ==> error.at > p)
  }

  lemma FailsEarlier(ts: seq<Token>, p: nat, q: nat, error: ParseError)
    requires Ended(ts) && p < q <= |ts| && Fails(ts, q, error) && (AsksForTerm(ts[q - 1]) || FailsLater(ts, q, error))
    ensures FailsLater(ts, p, error)
  {
    if error.Expected? {
      var j, close :| q <= j && error.kind == [close] && LeftOpen(ts, j, error.at, close);
      assert p <= j && error.kind == [close] && LeftOpen(ts, j, error.at, close);
    }
  }

  lemma {:induction false} TermFails(ts: seq<Token>, p: nat)
    requires Ended(ts) && p < |ts|
    ensures match TermAt(ts, p)
      case Ok((_, q)) => EndsTerm(ts[q - 1])
      case Err(error) => Fails(ts, p, error)
    decreases |ts| - p, 0
  {
    if ts[p].Punct? && IsOpen(ts[p].symbol) {
      DefinitionFails(ts, p + 1);
      var inner := AlternativesAt(ts, p + 1);
      if inner.Err? {
        FailsEarlier(ts, p, p + 1, inner.error);
      } else if ts[inner.value.1] != Punct(Closing(ts[p].symbol)) {
        var k, close := inner.value.1, Closing(ts[p].symbol);
        assert LeftOpen(ts, p, k, close);
        assert Fails(ts, p, Expected([close], k));
      }
    }
  }

  lemma {:induction false} MoreTermsFail(ts: seq<Token>, q: nat, terms: seq<Node>)
    requires Ended(ts) && 0 < q < |ts| && terms != [] && EndsTerm(ts[q - 1])
    ensures match MoreTermsAt(ts, q, terms)
      case Ok((_, r)) => EndsTerm(ts[r - 1]) && ts[r] != Punct(',')
      case Err(error) => FailsLater(ts, q, error)
    decreases |ts| - q, 2
  {
    if ts[q] == Punct(',') {
      TermFails(ts, q + 1);
      match TermAt(ts, q + 1)
      case Err(why) => FailsEarlier(ts, q, q + 1, why);
      case Ok((term, r)) =>
        MoreTermsFail(ts, r, terms + [term]);
        var more := MoreTermsAt(ts, r, terms + [term]);
        if more.Err? {
          FailsEarlier(ts, q, r, more.error);
        }
    }
  }

  lemma {:induction false} SequenceFails(ts: seq<Token>, p: nat)
    requires Ended(ts) && p < |ts|
    ensures match SequenceAt(ts, p)
      case Ok((_, q)) => EndsTerm(ts[q - 1]) && ts[q] != Punct(',')
      case Err(error) => Fails(ts, p, error)
    decreases |ts| - p, 1
  {
    TermFails(ts, p);
    var first := TermAt(ts, p);
    if first.Ok? {
      MoreTermsFail(ts, first.value.1, [first.value.0]);
      var more := MoreTermsAt(ts, first.value.1, [first.value.0]);
      if more.Err? {
        FailsEarlier(ts, p, first.value.1, more.error);
      }
    }
  }

  lemma {:induction false} MoreSequencesFail(ts: seq<Token>, q: nat, nodes: seq<Node>)
    requires Ended(ts) && 0 < q < |ts| && nodes != [] && EndsTerm(ts[q - 1]) && ts[q] != Punct(',')
    ensures match MoreSequencesAt(ts, q, nodes)
      case Ok((_, r)) => EndsTerm(ts[r - 1]) && !Joins(ts[r])
      case Err(error) => FailsLater(ts, q, error)
    decreases |ts| - q, 4
  {
    if ts[q] == Punct('|') {
      SequenceFails(ts, q + 1);
      match SequenceAt(ts, q + 1)
      case Err(why) => FailsEarlier(ts, q, q + 1, why);
      case Ok((node, r)) =>
        MoreSequencesFail(ts, r, nodes + [node]);
        var more := MoreSequencesAt(ts, r, nodes + [node]);
        if more.Err? {
          FailsEarlier(ts, q, r, more.error);
        }
    }
  }

  /** A definition is read up to what cannot go on with it, or stops where and why it must. */
  lemma {:induction false} DefinitionFails(ts: seq<Token>, p: nat)
    requires Ended(ts) && p < |ts|
    ensures match AlternativesAt(ts, p)
      case Ok((_, q)) => EndsTerm(ts[q - 1]) && !Joins(ts[q])
      case Err(error) => Fails(ts, p, error)
    decreases |ts| - p, 3
  {
    SequenceFails(ts, p);
    var first := SequenceAt(ts, p);
    if first.Ok? {
      MoreSequencesFail(ts, first.value.1, [first.value.0]);
      var more := MoreSequencesAt(ts, first.value.1, [first.value.0]);
      if more.Err? {
        FailsEarlier(ts, p, first.value.1, more.error);
      }
    }
  }

  /** A production: its name, an equals sign, a definition, and a semicolon right after it. */
  lemma ProductionFails(ts: seq<Token>, p: nat)
    requires Ended(ts) && p < |ts| && ProductionAt(ts, p).Err?
    ensures match ProductionAt(ts, p).error
      case Expected(kind, k) =>
        || (kind == "NAME" && k == p && !ts[p].Name?)
        || (kind == "=" && k == p + 1 < |ts| && ts[p].Name? && ts[k] != Punct('='))
        || (ts[p].Name? && p + 2 < |ts| && ts[p + 1] == Punct('=')
            && (Fails(ts, p + 2, Expected(kind, k))
                || (kind == ";" && p + 2 < k < |ts| && EndsTerm(ts[k - 1]) && !Joins(ts[k]) && ts[k] != Punct(';'))))
      case ExpectedTerm(k) =>
        ts[p].Name? && p + 2 < |ts| && ts[p + 1] == Punct('=') && Fails(ts, p + 2, ExpectedTerm(k))
      case _ => false
  {
    if ts[p].Name? && ts[p + 1] == Punct('=') {
      DefinitionFails(ts, p + 2);
    }
  }

  // ------------------------------------------------------------------ a whole grammar

  predicate Defined(done: seq<Production>, name: string) {
    exists i :: 0 <= i < |done| && done[i].0 == name
  }

  /** Read from the start, these productions of different names end before `p`. */
  ghost predicate ReadTo(ts: seq<Token>, p: nat, done: seq<Production>)
    requires Ended(ts) && p < |ts|
    decreases |done|
  {
    if done == [] then p == 0
    else
      var before, last := done[..|done| - 1], done[|done| - 1];
      !Defined(before, last.0) && exists q: nat :: q < |ts| && ReadTo(ts, q, before) && ProductionAt(ts, q) == Ok((last, p))
  }

  /** What stops the reading of a grammar: nothing in it, a production that cannot be read, or one defined again. */
  ghost predicate StopsAt(ts: seq<Token>, p: nat, done: seq<Production>, error: ParseError)
    requires Ended(ts) && p < |ts|
  {
    && ReadTo(ts, p, done)
    && if ts[p] == Eof then done == [] && error == NoProductions
       else
         match ProductionAt(ts, p)
         case Err(why) => error == why
         case Ok((production, _)) => Defined(done, production.0) && error == Duplicate(production.0)
  }

  lemma {:induction false} DefinedIs(done: seq<Production>, name: string)
    ensures First(done, Named(name)).Some? <==> Defined(done, name)
  {
    var found := First(done, Named(name));
    if found.None? {
      assert forall i | 0 <= i < |done| :: done[i] in done && !Named(name)(done[i]);
    } else {
      assert Named(name)(done[found.value]);
    }
  }

  /** All of a grammar is read, or reading stops at the first production that it must. */
  lemma {:induction false} GrammarFails(ts: seq<Token>, p: nat, done: seq<Production>)
    requires Ended(ts) && p < |ts| && ReadTo(ts, p, done)
    ensures var r := ProductionsAt(ts, p, done);
      if r.Ok? then r.value != [] && ReadTo(ts, |ts| - 1, r.value)
      else exists q: nat, before :: q < |ts| && StopsAt(ts, q, before, r.error)
    decreases |ts| - p
  {
    var next := ProductionAt(ts, p);
    if ts[p] == Eof {
      assert p == |ts| - 1;
      assert done == [] ==> StopsAt(ts, p, done, NoProductions);
    } else if next.Err? {
      assert StopsAt(ts, p, done, next.error);
    } else {
      var (production, q) := next.value;
      DefinedIs(done, production.0);
      if Defined(done, production.0) {
        assert StopsAt(ts, p, done, Duplicate(production.0));
      } else {
        assert (done + [production])[..|done|] == done;
        GrammarFails(ts, q, done + [production]);
      }
    }
  }
}
