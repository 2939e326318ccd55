/** The left-corner graph has a cycle exactly when the grammar is left recursive. */
module EbnfLeftRecursion {
  import opened EbnfGrammar
  import opened EbnfMeaning
  import opened EbnfCycles

  // ----- Leading references ---------------------------------------------------

  /** `node` yields something in which only `nullable` names stand before `name`. */
  ghost predicate LeadsWith(node: Node, nullable: set<string>, name: string) {
    exists before, after :: LeadsBy(node, nullable, name, before, after)
  }

  ghost predicate LeadsBy(node: Node, nullable: set<string>, name: string, before: Form, after: Form) {
    Yields(node, before + [N(name)] + after) && Within(before, nullable, false)
  }

  lemma {:induction false} JoinedConcat(a: seq<Form>, b: seq<Form>)
    ensures Joined(a + b) == Joined(a) + Joined(b)
  {
    if a == [] {
      assert a + b == b;
    } else {
      assert (a + b)[1..] == a[1..] + b;
      JoinedConcat(a[1..], b);
    }
  }

  /** Which part a symbol of a joined form comes from. */
  lemma {:induction false} JoinedAt(parts: seq<Form>, before: Form, s: Symbol, after: Form)
    returns (i: nat, left: Form, right: Form)
    requires Joined(parts) == before + [s] + after
    ensures i < |parts| && parts[i] == left + [s] + right && before == Joined(parts[..i]) + left
  {
    assert (before + [s] + after)[|before|] == s;
    if |before| < |parts[0]| {
      i, left, right := 0, before, parts[0][|before| + 1..];
      assert parts[0] == Joined(parts)[..|parts[0]|];
      assert parts[..0] == [];
    } else {
      var rest := parts[1..];
      assert Joined(rest) == Joined(parts)[|parts[0]|..];
      assert before[..|parts[0]|] == parts[0];
      assert Joined(rest) == before[|parts[0]|..] + [s] + after;
      i, left, right := JoinedAt(rest, before[|parts[0]|..], s, after);
      assert parts[..i + 1] == [parts[0]] + rest[..i];
      JoinedConcat([parts[0]], rest[..i]);
      assert Joined([parts[0]]) == parts[0];
      i := i + 1;
    }
  }

  lemma {:induction false} LeadingOfSequenceAt(children: seq<Node>, nullable: set<string>, name: string)
    ensures name in LeadingOfSequence(children, nullable)
            <==> exists i :: LeadsAt(children, nullable, name, i)
  {
    if children != [] {
      var rest := children[1..];
      LeadingOfSequenceAt(rest, nullable, name);
      if i :| LeadsAt(children, nullable, name, i) && i > 0 {
        assert forall j | 0 <= j < i - 1 :: rest[j] == children[j + 1];
        assert LeadsAt(rest, nullable, name, i - 1);
      }
      if i :| LeadsAt(rest, nullable, name, i) {
        if IsNullable(children[0], nullable) {
          assert forall j | 0 < j < i + 1 :: children[j] == rest[j - 1];
          assert LeadsAt(children, nullable, name, i + 1);
        }
      }
      assert name in LeadingReferences(children[0], nullable) ==> LeadsAt(children, nullable, name, 0);
    }
  }

  ghost predicate LeadsAt(children: seq<Node>, nullable: set<string>, name: string, i: int) {
    0 <= i < |children| && name in LeadingReferences(children[i], nullable)
    && forall j | 0 <= j < i :: IsNullable(children[j], nullable)
  }

  ghost predicate CanYield(node: Node) {
    exists form :: Yields(node, form)
  }

  /** Every definition in normal form yields something. */
  lemma {:induction false} YieldsSomething(node: Node)
    requires IsNormal(node)
    ensures CanYield(node)
    decreases node
  {
    match node
    case Reference(name) => assert Yields(node, [N(name)]);
    case Terminal(value) => assert Yields(node, [T(value)]);
    case Special(value) => assert Yields(node, [T(value)]);
    case Group(child) =>
      YieldsSomething(child);
      var form :| Yields(child, form);
      assert Yields(node, form);
    case Optional(_) => assert Yields(node, []);
    case Repetition(_) =>
      assert Joined([]) == [];
      assert Yields(node, []);
    case Alternative(children) =>
      YieldsSomething(children[0]);
      var form :| Yields(children[0], form);
      assert Yields(node, form);
    case Sequence(children) =>
      forall i | 0 <= i < |children|
        ensures CanYield(children[i])
      {
        YieldsSomething(children[i]);
      }
      var parts := SomeParts(children);
      assert Yields(node, Joined(parts));
  }

  ghost function SomeParts(children: seq<Node>): (parts: seq<Form>)
    requires forall i | 0 <= i < |children| :: CanYield(children[i])
    ensures |parts| == |children| && forall i | 0 <= i < |children| :: Yields(children[i], parts[i])
  {
    if children == [] then []
    else
      assert CanYield(children[0]);
      var form :| Yields(children[0], form);
      [form] + SomeParts(children[1..])
  }

  lemma {:induction false} LeadingIsLeads(node: Node, nullable: set<string>, name: string)
    requires IsNormal(node)
    ensures name in LeadingReferences(node, nullable) <==> LeadsWith(node, nullable, name)
    decreases node
  {
    match node
    case Reference(other) =>
      if name == other {
        assert [] + [N(name)] + [] == [N(name)];
        assert LeadsBy(node, nullable, name, [], []);
      }
      if before, after :| LeadsBy(node, nullable, name, before, after) {
        assert (before + [N(name)] + after)[|before|] == N(name);
      }
    case Terminal(_) => NoReference(node, nullable, name);
    case Special(_) => NoReference(node, nullable, name);
    case Group(child) =>
      LeadingIsLeads(child, nullable, name);
      assert forall before, after :: LeadsBy(node, nullable, name, before, after) <==> LeadsBy(child, nullable, name, before, after);
    case Optional(child) =>
      LeadingIsLeads(child, nullable, name);
      assert forall before, after :: LeadsBy(node, nullable, name, before, after) <==> LeadsBy(child, nullable, name, before, after);
    case Repetition(child) =>
      LeadingIsLeads(child, nullable, name);
      RepetitionLeads(child, nullable, name);
    case Alternative(children) =>
      forall i | 0 <= i < |children|
        ensures name in LeadingReferences(children[i], nullable) <==> LeadsWith(children[i], nullable, name)
      {
        LeadingIsLeads(children[i], nullable, name);
      }
      AlternativeLeads(children, nullable, name);
    case Sequence(children) =>
      forall i | 0 <= i < |children|
        ensures name in LeadingReferences(children[i], nullable) <==> LeadsWith(children[i], nullable, name)
      {
        LeadingIsLeads(children[i], nullable, name);
      }
      SequenceLeads(children, nullable, name);
  }

  lemma NoReference(node: Node, nullable: set<string>, name: string)
    requires node.Terminal? || node.Special?
    ensures !LeadsWith(node, nullable, name)
  {
    forall before, after
      ensures !LeadsBy(node, nullable, name, before, after)
    {
      assert (before + [N(name)] + after)[|before|] == N(name);
    }
  }

  lemma RepetitionLeads(child: Node, nullable: set<string>, name: string)
    ensures LeadsWith(Repetition(child), nullable, name) <==> LeadsWith(child, nullable, name)
  {
    if before, after :| LeadsBy(child, nullable, name, before, after) {
      var form := before + [N(name)] + after;
      assert Joined([form]) == form;
      assert Yields(Repetition(child), form);
      assert LeadsBy(Repetition(child), nullable, name, before, after);
    }
    if before, after :| LeadsBy(Repetition(child), nullable, name, before, after) {
      var parts: seq<Form> :| Joined(parts) == before + [N(name)] + after && forall p | p in parts :: Yields(child, p);
      var i, left, right := JoinedAt(parts, before, N(name), after);
      WithinConcat(Joined(parts[..i]), left, nullable, false);
      assert parts[i] in parts;
      assert LeadsBy(child, nullable, name, left, right);
    }
  }

  lemma {:induction false} AlternativeLeads(children: seq<Node>, nullable: set<string>, name: string)
    requires forall i | 0 <= i < |children| ::
      name in LeadingReferences(children[i], nullable) <==> LeadsWith(children[i], nullable, name)
    ensures name in LeadingReferences(Alternative(children), nullable) <==> LeadsWith(Alternative(children), nullable, name)
  {
    if i :| 0 <= i < |children| && name in LeadingReferences(children[i], nullable) {
      var before, after :| LeadsBy(children[i], nullable, name, before, after);
      assert LeadsBy(Alternative(children), nullable, name, before, after);
    }
    if before, after :| LeadsBy(Alternative(children), nullable, name, before, after) {
      var i :| 0 <= i < |children| && Yields(children[i], before + [N(name)] + after);
      assert LeadsBy(children[i], nullable, name, before, after);
    }
  }

  lemma {:induction false} SequenceLeads(children: seq<Node>, nullable: set<string>, name: string)
    requires forall i | 0 <= i < |children| :: IsNormal(children[i])
    requires forall i | 0 <= i < |children| ::
      name in LeadingReferences(children[i], nullable) <==> LeadsWith(children[i], nullable, name)
    ensures name in LeadingReferences(Sequence(children), nullable) <==> LeadsWith(Sequence(children), nullable, name)
  {
    LeadingOfSequenceAt(children, nullable, name);
    if i :| LeadsAt(children, nullable, name, i) {
      SequenceLeadsAt(children, nullable, name, i);
    }
    if before, after :| LeadsBy(Sequence(children), nullable, name, before, after) {
      var parts: seq<Form> :| |parts| == |children| && Joined(parts) == before + [N(name)] + after
                              && forall i | 0 <= i < |children| :: Yields(children[i], parts[i]);
      var i, left, right := JoinedAt(parts, before, N(name), after);
      WithinConcat(Joined(parts[..i]), left, nullable, false);
      WithinJoined(parts[..i], nullable, false);
      assert LeadsBy(children[i], nullable, name, left, right);
      forall j | 0 <= j < i
        ensures IsNullable(children[j], nullable)
      {
        assert parts[..i][j] == parts[j];
        HoldsIsYields(children[j], nullable, false);
      }
      assert LeadsAt(children, nullable, name, i);
    }
  }

  lemma SequenceLeadsAt(children: seq<Node>, nullable: set<string>, name: string, i: int)
    requires forall i | 0 <= i < |children| :: IsNormal(children[i])
    requires LeadsAt(children, nullable, name, i) && LeadsWith(children[i], nullable, name)
    ensures LeadsWith(Sequence(children), nullable, name)
  {
    var earlier, later := children[..i], children[i + 1..];
    forall j | 0 <= j < i
      ensures exists form :: Yields(earlier[j], form) && Within(form, nullable, false)
    {
      HoldsIsYields(children[j], nullable, false);
    }
    var first := ChosenParts(earlier, nullable, false);
    WithinJoined(first, nullable, false);
    forall j | 0 <= j < |later|
      ensures CanYield(later[j])
    {
      YieldsSomething(later[j]);
    }
    var last := SomeParts(later);
    var before, after :| LeadsBy(children[i], nullable, name, before, after);
    PartsYield(children, i, first, before + [N(name)] + after, last);
    WithinConcat(Joined(first), before, nullable, false);
    Regroup(Joined(first), before, [N(name)], after, Joined(last));
    assert LeadsBy(Sequence(children), nullable, name, Joined(first) + before, after + Joined(last));
  }

  lemma Regroup(a: Form, b: Form, c: Form, d: Form, e: Form)
    ensures a + (b + c + d) + e == (a + b) + c + (d + e)
  {
  }

  lemma {:induction false} PartsYield(children: seq<Node>, i: nat, first: seq<Form>, middle: Form, last: seq<Form>)
    requires i < |children| && |first| == i && |last| == |children| - i - 1
    requires forall j | 0 <= j < i :: Yields(children[..i][j], first[j])
    requires Yields(children[i], middle)
    requires forall j | 0 <= j < |last| :: Yields(children[i + 1..][j], last[j])
    ensures Yields(Sequence(children), Joined(first) + middle + Joined(last))
  {
    var parts := first + [middle] + last;
    JoinedConcat(first + [middle], last);
    JoinedConcat(first, [middle]);
    assert Joined([middle]) == middle;
    forall j | 0 <= j < |children|
      ensures Yields(children[j], parts[j])
    {
      if j < i {
        assert children[..i][j] == children[j];
      } else if j > i {
        assert children[i + 1..][j - i - 1] == children[j];
      }
    }
  }

  // ----- Left recursion -------------------------------------------------------

  /** The left-corner graph. */
  function LeftGraph(g: Grammar, nullable: set<string>): Graph {
    map name | name in g :: LeadingReferences(g[name], nullable) * g.Keys
  }

  /** In at least one step `name` derives a form that begins with `other`. */
  ghost predicate LeftDerives(g: Grammar, name: string, other: string) {
    exists m, after :: Step(g, [N(name)], m) && Derives(g, m, [N(other)] + after)
  }

  ghost predicate LeftRecursive(g: Grammar) {
    exists name :: name in g && LeftDerives(g, name, name)
  }

  ghost predicate IsNullableSet(g: Grammar, nullable: set<string>) {
    forall n :: n in nullable <==> n in g && DerivesEmpty(g, n)
  }

  ghost predicate Normal(g: Grammar) {
    forall n | n in g :: IsNormal(g[n])
  }

  lemma {:induction false} NullableDerives(g: Grammar, form: Form, nullable: set<string>)
    requires IsNullableSet(g, nullable) && Within(form, nullable, false)
    ensures Derives(g, form, [])
  {
    forall n | n in nullable
      ensures Reaches(g, n, false)
    {
      ReachesMeans(g, n);
    }
    WithinDerives(g, form, nullable, false);
    var end :| Derives(g, form, end) && Within(end, {}, false);
    NothingWithin(end);
  }

  lemma EdgeDerives(g: Grammar, nullable: set<string>, a: string, b: string)
    requires Normal(g) && IsNullableSet(g, nullable) && Edge(LeftGraph(g, nullable), a, b)
    ensures LeftDerives(g, a, b)
  {
    LeadingIsLeads(g[a], nullable, b);
    var before, after :| LeadsBy(g[a], nullable, b, before, after);
    NullableDerives(g, before, nullable);
    var form := before + [N(b)] + after;
    assert [] + before + ([N(b)] + after) == form && [] + [] + ([N(b)] + after) == [N(b)] + after;
    DerivesWithin(g, before, [], [], [N(b)] + after);
    ProductionStep(g, a, form);
  }

  lemma {:induction false} ProductionStep(g: Grammar, name: string, form: Form)
    requires name in g && Yields(g[name], form)
    ensures Step(g, [N(name)], form)
  {
    assert form == [N(name)][..0] + form + [N(name)][1..];
    assert IsStep(g, [N(name)], 0, form, form);
  }

  lemma LeftDerivesThen(g: Grammar, a: string, b: string, c: string)
    requires LeftDerives(g, a, b) && LeftDerives(g, b, c)
    ensures LeftDerives(g, a, c)
  {
    var m: Form, x: Form :| Step(g, [N(a)], m) && Derives(g, m, [N(b)] + x);
    var n: Form, y: Form :| Step(g, [N(b)], n) && Derives(g, n, [N(c)] + y);
    StepDerives(g, [N(b)], n);
    DerivesThen(g, [N(b)], n, [N(c)] + y);
    DerivesBefore(g, [N(b)], [N(c)], y, x);
    DerivesThen(g, m, [N(b)] + x, [N(c)] + (y + x));
  }

  lemma DerivesBefore(g: Grammar, a: Form, b: Form, y: Form, x: Form)
    requires Derives(g, a, b + y)
    ensures Derives(g, a + x, b + (y + x))
  {
    DerivesWithin(g, a, b + y, [], x);
    assert [] + a + x == a + x && [] + (b + y) + x == b + (y + x);
  }

  lemma StepDerives(g: Grammar, a: Form, b: Form)
    requires Step(g, a, b)
    ensures Derives(g, a, b)
  {
    StepThen(g, a, b, b, 0);
  }

  lemma {:induction false} WalkDerives(g: Grammar, nullable: set<string>, path: seq<string>)
    requires Normal(g) && IsNullableSet(g, nullable) && |path| >= 2 && Walk(LeftGraph(g, nullable), path)
    ensures LeftDerives(g, path[0], path[|path| - 1])
  {
    assert Edge(LeftGraph(g, nullable), path[0], path[1]);
    EdgeDerives(g, nullable, path[0], path[1]);
    if |path| > 2 {
      WalkDerives(g, nullable, path[1..]);
      LeftDerivesThen(g, path[0], path[1], path[|path| - 1]);
    }
  }

  /** The names that can begin a form, behind nothing but nullable ones, lie in `reach`. */
  ghost predicate BeginsIn(g: Grammar, nullable: set<string>, reach: set<string>, form: Form) {
    forall i | 0 <= i < |form| ::
      form[i].N? && form[i].name in g && Within(form[..i], nullable, false) ==> form[i].name in reach
  }

  /** `reach` is closed under the graph's edges. */
  ghost predicate ClosedUnder(graph: Graph, reach: set<string>) {
    forall a, b | a in reach && Edge(graph, a, b) :: b in reach
  }

  lemma NullableClosed(g: Grammar, nullable: set<string>)
    requires IsNullableSet(g, nullable)
    ensures Closed(g, nullable, false)
  {
    forall n | n in nullable
      ensures Reaches(g, n, false)
    {
      ReachesMeans(g, n);
    }
    forall n | n in g && Holds(g[n], nullable, false)
      ensures n in nullable
    {
      HoldsReaches(g, n, nullable, false);
      ReachesMeans(g, n);
    }
  }

  lemma {:induction false} FirstOfProduction(g: Grammar, nullable: set<string>, name: string, form: Form, p: nat)
    requires Normal(g) && name in g && Yields(g[name], form)
    requires p < |form| && form[p].N? && form[p].name in g && Within(form[..p], nullable, false)
    ensures Edge(LeftGraph(g, nullable), name, form[p].name)
  {
    assert form == form[..p] + [N(form[p].name)] + form[p + 1..];
    assert LeadsBy(g[name], nullable, form[p].name, form[..p], form[p + 1..]);
    LeadingIsLeads(g[name], nullable, form[p].name);
  }

  /** A symbol of a step's result stood behind nullable names before the step, too. */
  lemma {:induction false} StepBefore(g: Grammar, nullable: set<string>, a: Form, i: nat, form: Form, p: nat)
    requires IsNullableSet(g, nullable) && i < p <= |a| && a[i].N? && a[i].name in g && Yields(g[a[i].name], form)
    requires Within(a[..i] + form + a[i + 1..p], nullable, false)
    ensures Within(a[..p], nullable, false)
  {
    WithinConcat(a[..i] + form, a[i + 1..p], nullable, false);
    WithinConcat(a[..i], form, nullable, false);
    HoldsIsYields(g[a[i].name], nullable, false);
    NullableClosed(g, nullable);
    assert Within([a[i]], nullable, false);
    WithinConcat(a[..i], [a[i]], nullable, false);
    WithinConcat(a[..i] + [a[i]], a[i + 1..p], nullable, false);
    assert a[..p] == a[..i] + [a[i]] + a[i + 1..p];
  }

  lemma FormAt(x: Form, y: Form, z: Form, p: nat)
    requires p < |y|
    ensures (x + y + z)[|x| + p] == y[p] && (x + y + z)[..|x| + p] == x + y[..p]
    ensures z == [] ==> x + y + z == x + y
  {
  }

  /** A name after the step's result was reached before the step. */
  lemma AfterBegins(g: Grammar, nullable: set<string>, reach: set<string>, a: Form, i: nat, form: Form, k: nat)
    requires IsNullableSet(g, nullable) && BeginsIn(g, nullable, reach, a)
    requires i < |a| && a[i].N? && a[i].name in g && Yields(g[a[i].name], form)
    requires var b := a[..i] + form + a[i + 1..];
      i + |form| <= k < |b| && b[k].N? && b[k].name in g && Within(b[..k], nullable, false)
    ensures (a[..i] + form + a[i + 1..])[k].name in reach
  {
    var p := k - |form| + 1;
    FormAt(a[..i] + form, a[i + 1..], [], p - i - 1);
    assert a[i + 1..][..p - i - 1] == a[i + 1..p];
    StepBefore(g, nullable, a, i, form, p);
  }

  lemma StepBegins(g: Grammar, nullable: set<string>, reach: set<string>, a: Form, b: Form)
    requires Normal(g) && IsNullableSet(g, nullable) && ClosedUnder(LeftGraph(g, nullable), reach)
    requires BeginsIn(g, nullable, reach, a) && Step(g, a, b)
    ensures BeginsIn(g, nullable, reach, b)
  {
    var i, form: Form :| IsStep(g, a, i, form, b);
    forall k | 0 <= k < |b| && b[k].N? && b[k].name in g && Within(b[..k], nullable, false)
      ensures b[k].name in reach
    {
      if k < i {
        assert b[k] == a[k] && b[..k] == a[..k];
      } else if k < i + |form| {
        FormAt(a[..i], form, a[i + 1..], k - i);
        InsideBegins(g, nullable, reach, a, i, form, k - i);
      } else {
        AfterBegins(g, nullable, reach, a, i, form, k);
      }
    }
  }

  /** A symbol of what replaced the one at `i`. */
  lemma {:induction false} InsideBegins(g: Grammar, nullable: set<string>, reach: set<string>, a: Form, i: nat,
                                        form: Form, p: nat)
    requires Normal(g) && IsNullableSet(g, nullable) && ClosedUnder(LeftGraph(g, nullable), reach)
    requires BeginsIn(g, nullable, reach, a) && i < |a| && a[i].N? && a[i].name in g && Yields(g[a[i].name], form)
    requires p < |form| && form[p].N? && form[p].name in g && Within(a[..i] + form[..p], nullable, false)
    ensures form[p].name in reach
  {
    WithinConcat(a[..i], form[..p], nullable, false);
    FirstOfProduction(g, nullable, a[i].name, form, p);
  }

  lemma {:induction false} RunBegins(g: Grammar, nullable: set<string>, reach: set<string>, a: Form, b: Form, steps: nat)
    requires Normal(g) && IsNullableSet(g, nullable) && ClosedUnder(LeftGraph(g, nullable), reach)
    requires BeginsIn(g, nullable, reach, a) && DerivesIn(g, a, b, steps)
    ensures BeginsIn(g, nullable, reach, b)
    decreases steps
  {
    if steps > 0 {
      var m := FirstStep(g, a, b, steps);
      StepBegins(g, nullable, reach, a, m);
      RunBegins(g, nullable, reach, m, b, steps - 1);
    }
  }

  /** The names a walk of at least one edge leads to. */
  ghost function ReachFrom(graph: Graph, a: string): set<string> {
    set b | b in graph && exists path :: Joins(graph, a, b, path)
  }

  lemma ReachFromIsClosed(g: Grammar, nullable: set<string>, a: string)
    ensures var graph := LeftGraph(g, nullable);
            ClosedUnder(graph, ReachFrom(graph, a)) && forall b | Edge(graph, a, b) :: b in ReachFrom(graph, a)
  {
    var graph := LeftGraph(g, nullable);
    forall b, c | b in ReachFrom(graph, a) && Edge(graph, b, c)
      ensures c in ReachFrom(graph, a)
    {
      var path :| Joins(graph, a, b, path);
      var longer := path + [c];
      forall i | 0 <= i < |longer| - 1
        ensures Edge(graph, longer[i], longer[i + 1])
      {
        assert i < |path| - 1 ==> Edge(graph, path[i], path[i + 1]);
      }
      assert Joins(graph, a, c, longer);
    }
    forall b | Edge(graph, a, b)
      ensures b in ReachFrom(graph, a)
    {
      assert Joins(graph, a, b, [a, b]);
    }
  }

  lemma {:induction false} OneSymbolStep(g: Grammar, name: string, form: Form)
    requires Step(g, [N(name)], form)
    ensures name in g && Yields(g[name], form)
  {
    var i, yielded: Form :| IsStep(g, [N(name)], i, yielded, form);
    assert [N(name)][..0] + yielded + [N(name)][1..] == yielded;
  }

  lemma LeftDerivesWalk(g: Grammar, nullable: set<string>, a: string, b: string)
    requires Normal(g) && IsNullableSet(g, nullable) && LeftDerives(g, a, b) && b in g
    ensures b in ReachFrom(LeftGraph(g, nullable), a)
  {
    var graph := LeftGraph(g, nullable);
    ReachFromIsClosed(g, nullable, a);
    var m: Form, after: Form :| Step(g, [N(a)], m) && Derives(g, m, [N(b)] + after);
    OneSymbolStep(g, a, m);
    forall k | 0 <= k < |m| && m[k].N? && m[k].name in g && Within(m[..k], nullable, false)
      ensures m[k].name in ReachFrom(graph, a)
    {
      FirstOfProduction(g, nullable, a, m, k);
    }
    var steps :| DerivesIn(g, m, [N(b)] + after, steps);
    RunBegins(g, nullable, ReachFrom(graph, a), m, [N(b)] + after, steps);
    assert ([N(b)] + after)[0] == N(b) && Within(([N(b)] + after)[..0], nullable, false);
  }

  /** The left-corner graph has a simple cycle exactly when some nonterminal left-derives itself. */
  lemma CyclesAreLeftRecursion(g: Grammar, nullable: set<string>)
    requires Normal(g) && IsNullableSet(g, nullable)
    ensures (exists body :: SimpleCycle(LeftGraph(g, nullable), body)) <==> LeftRecursive(g)
  {
    var graph := LeftGraph(g, nullable);
    CyclesAreReturns(graph);
    if a, path :| Joins(graph, a, a, path) {
      WalkDerives(g, nullable, path);
      assert Edge(graph, path[0], path[1]);
    }
    if name :| name in g && LeftDerives(g, name, name) {
      LeftDerivesWalk(g, nullable, name, name);
      var path :| Joins(graph, name, name, path);
    }
  }

  // ----- The whole analysis ---------------------------------------------------

  ghost predicate RefersTo(g: Grammar, a: string, b: string) {
    a in g && b in References(g[a]) && b in g
  }

  ghost predicate ReferenceChain(g: Grammar, start: string, name: string, path: seq<string>) {
    path != [] && path[0] == start && path[|path| - 1] == name
    && forall i | 0 <= i < |path| - 1 :: RefersTo(g, path[i], path[i + 1])
  }

  lemma ChainExtends(g: Grammar, start: string, name: string, target: string)
    requires (exists path :: ReferenceChain(g, start, name, path)) && RefersTo(g, name, target)
    ensures exists path :: ReferenceChain(g, start, target, path)
  {
    var path :| ReferenceChain(g, start, name, path);
    var longer := path + [target];
    forall i | 0 <= i < |longer| - 1
      ensures RefersTo(g, longer[i], longer[i + 1])
    {
      assert i < |path| - 1 ==> RefersTo(g, path[i], path[i + 1]);
    }
    assert ReferenceChain(g, start, target, longer);
  }

  lemma {:induction false} ChainStays(g: Grammar, reachable: set<string>, path: seq<string>)
    requires path != [] && path[0] in reachable && forall i | 0 <= i < |path| - 1 :: RefersTo(g, path[i], path[i + 1])
    requires forall a, b | a in reachable && RefersTo(g, a, b) :: b in reachable
    ensures path[|path| - 1] in reachable
  {
    if |path| > 1 {
      assert RefersTo(g, path[0], path[1]);
      ChainStays(g, reachable, path[1..]);
    }
  }

  /** The names a chain of references leads to from `start`. */
  method Reachable(g: Grammar, start: string) returns (reachable: set<string>)
    requires start in g
    ensures forall n :: n in reachable <==> exists path :: ReferenceChain(g, start, n, path)
  {
    reachable := {start};
    var changed := true;
    assert ReferenceChain(g, start, start, [start]);
    while changed
      invariant start in reachable && reachable <= g.Keys
      invariant forall n | n in reachable :: exists path :: ReferenceChain(g, start, n, path)
      invariant !changed ==> forall a, b | a in reachable && RefersTo(g, a, b) :: b in reachable
      decreases g.Keys - reachable, changed
    {
      changed := false;
      ghost var before := reachable;
      var names := reachable;
      while names != {}
        invariant before <= reachable <= g.Keys && names <= before
        invariant forall n | n in reachable :: exists path :: ReferenceChain(g, start, n, path)
        invariant changed <==> reachable != before
        invariant forall a, b | a in before - names && RefersTo(g, a, b) :: b in reachable
        decreases names
      {
        var name :| name in names;
        var targets := References(g[name]) * g.Keys;
        names := names - {name};
        forall t | t in targets
          ensures exists path :: ReferenceChain(g, start, t, path)
        {
          ChainExtends(g, start, name, t);
        }
        if !(targets <= reachable) {
          reachable := reachable + targets;
          changed := true;
        }
      }
      Grows(g.Keys, before, reachable);
    }
    forall n | exists path :: ReferenceChain(g, start, n, path)
      ensures n in reachable
    {
      var path :| ReferenceChain(g, start, n, path);
      ChainStays(g, reachable, path);
    }
  }

  datatype Diagnostics = Diagnostics(
    undefined: set<string>,
    unreachable: set<string>,
    unproductive: set<string>,
    leftRecursive: set<seq<string>>)
  {
    predicate Passed() {
      undefined == {} && unreachable == {} && unproductive == {} && leftRecursive == {}
    }
  }

  /** The analysis passes a grammar exactly when it should. */
  method Validate(g: Grammar, order: seq<string>, start: string) returns (d: Diagnostics, nullable: set<string>)
    requires Normal(g) && start in g && forall n :: n in order <==> n in g
    ensures forall n :: n in nullable <==> n in g && DerivesEmpty(g, n)
    ensures forall n :: n in d.undefined <==> n !in g && exists m :: m in g && n in References(g[m])
    ensures forall n :: n in d.unreachable <==> n in g && !exists path :: ReferenceChain(g, start, n, path)
    ensures forall n :: n in d.unproductive <==> n in g && !DerivesTerminals(g, n)
    ensures d.leftRecursive != {} <==> LeftRecursive(g)
    ensures forall c | c in d.leftRecursive :: SimpleCycle(LeftGraph(g, nullable), c) && IsLeastRotation(c)
    ensures forall body | SimpleCycle(LeftGraph(g, nullable), body) ::
              exists c :: c in d.leftRecursive && IsRotation(body, c)
                          && forall other | other in d.leftRecursive && IsRotation(body, other) :: other == c
  {
    var undefined := (set m, n | m in g && n in References(g[m]) :: n) - g.Keys;
    var reachable := Reachable(g, start);
    var productive;
    nullable, productive := Fixpoints(g, order);
    var cycles := FindCycles(LeftGraph(g, nullable));
    CyclesAreLeftRecursion(g, nullable);
    d := Diagnostics(undefined, g.Keys - reachable, g.Keys - productive, cycles);
  }
}
