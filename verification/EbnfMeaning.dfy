/** What a grammar derives, and that the analyser's sets are exactly what they are named for. */
module EbnfMeaning {
  import opened EbnfGrammar

  // ----- Derivations ----------------------------------------------------------

  /** One symbol of a sentential form. Terminals and special sequences stand for something non-empty. */
  datatype Symbol = T(value: string) | N(name: string)

  type Form = seq<Symbol>

  function Joined(parts: seq<Form>): Form {
    if parts == [] then [] else parts[0] + Joined(parts[1..])
  }

  /** `node` stands for `form`, its references not yet expanded. */
  ghost predicate Yields(node: Node, form: Form) {
    match node
    case Reference(name) => form == [N(name)]
    case Terminal(value) => form == [T(value)]
    case Special(value) => form == [T(value)]
    case Group(child) => Yields(child, form)
    case Optional(child) => form == [] || Yields(child, form)
    case Repetition(child) => exists parts: seq<Form> :: Joined(parts) == form && forall p | p in parts :: Yields(child, p)
    case Alternative(children) => exists i | 0 <= i < |children| :: Yields(children[i], form)
    case Sequence(children) =>
      exists parts: seq<Form> :: |parts| == |children| && Joined(parts) == form
                                 && forall i | 0 <= i < |children| :: Yields(children[i], parts[i])
  }

  /** `b` is `a` with one nonterminal replaced by what its production yields. */
  ghost predicate Step(g: Grammar, a: Form, b: Form) {
    exists i, form: Form :: IsStep(g, a, i, form, b)
  }

  ghost predicate IsStep(g: Grammar, a: Form, i: int, form: Form, b: Form) {
    0 <= i < |a| && a[i].N? && a[i].name in g && Yields(g[a[i].name], form) && b == a[..i] + form + a[i + 1..]
  }

  /** `step` taken so many times. */
  ghost predicate Repeated(step: (Form, Form) -> bool, a: Form, b: Form, times: nat)
    decreases times
  {
    if times == 0 then a == b
    else exists m :: step(a, m) && Repeated(step, m, b, times - 1)
  }

  lemma RepeatedFirst(step: (Form, Form) -> bool, a: Form, b: Form, times: nat) returns (m: Form)
    requires times > 0 && Repeated(step, a, b, times)
    ensures step(a, m) && Repeated(step, m, b, times - 1)
  {
    m :| step(a, m) && Repeated(step, m, b, times - 1);
  }

  lemma RepeatedOnce(step: (Form, Form) -> bool, a: Form, m: Form, b: Form, times: nat)
    requires step(a, m) && Repeated(step, m, b, times)
    ensures Repeated(step, a, b, times + 1)
  {
  }

  lemma {:induction false} RepeatedThen(step: (Form, Form) -> bool, a: Form, b: Form, c: Form, first: nat, second: nat)
    requires Repeated(step, a, b, first) && Repeated(step, b, c, second)
    ensures Repeated(step, a, c, first + second)
    decreases first
  {
    if first > 0 {
      var m := RepeatedFirst(step, a, b, first);
      RepeatedThen(step, m, b, c, first - 1, second);
      RepeatedOnce(step, a, m, c, first - 1 + second);
    }
  }

  /** What turns every step into a step turns every repetition into one. */
  lemma {:induction false} RepeatedThrough(step: (Form, Form) -> bool, f: Form -> Form, a: Form, b: Form, times: nat)
    requires forall x, y | step(x, y) :: step(f(x), f(y))
    requires Repeated(step, a, b, times)
    ensures Repeated(step, f(a), f(b), times)
    decreases times
  {
    if times > 0 {
      var m := RepeatedFirst(step, a, b, times);
      RepeatedThrough(step, f, m, b, times - 1);
      RepeatedOnce(step, f(a), f(m), f(b), times - 1);
    }
  }

  ghost function Steps(g: Grammar): (Form, Form) -> bool {
    (a: Form, b: Form) => Step(g, a, b)
  }

  ghost predicate DerivesIn(g: Grammar, a: Form, b: Form, steps: nat) {
    Repeated(Steps(g), a, b, steps)
  }

  ghost predicate Derives(g: Grammar, a: Form, b: Form) {
    exists steps :: DerivesIn(g, a, b, steps)
  }

  lemma FirstStep(g: Grammar, a: Form, b: Form, steps: nat) returns (m: Form)
    requires steps > 0 && DerivesIn(g, a, b, steps)
    ensures Step(g, a, m) && DerivesIn(g, m, b, steps - 1)
  {
    m := RepeatedFirst(Steps(g), a, b, steps);
  }

  lemma StepThen(g: Grammar, a: Form, m: Form, b: Form, steps: nat)
    requires Step(g, a, m) && DerivesIn(g, m, b, steps)
    ensures DerivesIn(g, a, b, steps + 1)
  {
    RepeatedOnce(Steps(g), a, m, b, steps);
  }

  lemma StepWithin(g: Grammar, a: Form, b: Form, before: Form, after: Form)
    requires Step(g, a, b)
    ensures Step(g, before + a + after, before + b + after)
  {
    var i, form :| IsStep(g, a, i, form, b);
    var wide, at := before + a + after, |before| + i;
    assert wide[..at] == before + a[..i] && wide[at + 1..] == a[i + 1..] + after && wide[at] == a[i];
    assert before + b + after == wide[..at] + form + wide[at + 1..];
    assert IsStep(g, wide, at, form, before + b + after);
  }

  lemma DerivesInWithin(g: Grammar, a: Form, b: Form, before: Form, after: Form, steps: nat)
    requires DerivesIn(g, a, b, steps)
    ensures DerivesIn(g, before + a + after, before + b + after, steps)
  {
    var wrap := (x: Form) => before + x + after;
    forall x, y | Steps(g)(x, y)
      ensures Steps(g)(wrap(x), wrap(y))
    {
      StepWithin(g, x, y, before, after);
    }
    RepeatedThrough(Steps(g), wrap, a, b, steps);
  }

  lemma DerivesThen(g: Grammar, a: Form, b: Form, c: Form)
    requires Derives(g, a, b) && Derives(g, b, c)
    ensures Derives(g, a, c)
  {
    var first: nat :| DerivesIn(g, a, b, first);
    var second: nat :| DerivesIn(g, b, c, second);
    RepeatedThen(Steps(g), a, b, c, first, second);
    assert DerivesIn(g, a, c, first + second);
  }

  lemma DerivesWithin(g: Grammar, a: Form, b: Form, before: Form, after: Form)
    requires Derives(g, a, b)
    ensures Derives(g, before + a + after, before + b + after)
  {
    var steps :| DerivesIn(g, a, b, steps);
    DerivesInWithin(g, a, b, before, after, steps);
  }

  lemma DerivesBoth(g: Grammar, a: Form, a': Form, b: Form, b': Form)
    requires Derives(g, a, a') && Derives(g, b, b')
    ensures Derives(g, a + b, a' + b')
  {
    assert Derives(g, a + b, a' + b) by {
      DerivesWithin(g, a, a', [], b);
      assert [] + a + b == a + b && [] + a' + b == a' + b;
    }
    assert Derives(g, a' + b, a' + b') by {
      DerivesWithin(g, b, b', a', []);
      assert a' + b + [] == a' + b && a' + b' + [] == a' + b';
    }
    DerivesThen(g, a + b, a' + b, a' + b');
  }

  lemma DerivesSelf(g: Grammar, a: Form)
    ensures Derives(g, a, a)
  {
    assert DerivesIn(g, a, a, 0);
  }

  lemma {:induction false} DerivesProduction(g: Grammar, name: string, form: Form)
    requires name in g && Yields(g[name], form)
    ensures Derives(g, [N(name)], form)
  {
    var a: Form := [N(name)];
    assert form == a[..0] + form + a[1..];
    assert IsStep(g, a, 0, form, form);
    StepThen(g, a, form, form, 0);
  }

  // ----- Nullable and productive ----------------------------------------------

  /** A nonterminal of `names`, or a terminal where `terminals` allows it. */
  predicate Admits(s: Symbol, names: set<string>, terminals: bool) {
    if s.N? then s.name in names else terminals
  }

  ghost predicate Within(form: Form, names: set<string>, terminals: bool) {
    forall i | 0 <= i < |form| :: Admits(form[i], names, terminals)
  }

  lemma WithinConcat(a: Form, b: Form, names: set<string>, terminals: bool)
    ensures Within(a + b, names, terminals) <==> Within(a, names, terminals) && Within(b, names, terminals)
  {
    if Within(a + b, names, terminals) {
      forall i | 0 <= i < |a| ensures Admits(a[i], names, terminals) { assert a[i] == (a + b)[i]; }
      forall i | 0 <= i < |b| ensures Admits(b[i], names, terminals) { assert b[i] == (a + b)[|a| + i]; }
    }
  }

  /** The two membership tests are one: they differ only on terminals. */
  predicate Holds(node: Node, names: set<string>, terminals: bool) {
    if terminals then IsProductive(node, names) else IsNullable(node, names)
  }

  lemma {:induction false} WithinJoined(parts: seq<Form>, names: set<string>, terminals: bool)
    ensures Within(Joined(parts), names, terminals) <==> forall i | 0 <= i < |parts| :: Within(parts[i], names, terminals)
  {
    if parts != [] {
      var rest := parts[1..];
      WithinJoined(rest, names, terminals);
      WithinConcat(parts[0], Joined(rest), names, terminals);
      assert forall i | 0 < i < |parts| :: parts[i] == rest[i - 1];
      if forall i | 0 <= i < |parts| :: Within(parts[i], names, terminals) {
        forall i | 0 <= i < |rest|
          ensures Within(rest[i], names, terminals)
        {
          assert rest[i] == parts[i + 1];
        }
      }
    }
  }

  ghost predicate YieldsWithin(node: Node, names: set<string>, terminals: bool) {
    exists form :: Yields(node, form) && Within(form, names, terminals)
  }

  /** A definition passes the test exactly when something it yields lies within the names. */
  lemma {:induction false} HoldsIsYields(node: Node, names: set<string>, terminals: bool)
    ensures Holds(node, names, terminals) <==> YieldsWithin(node, names, terminals)
    decreases node
  {
    match node
    case Reference(name) =>
      assert Yields(node, [N(name)]) && [N(name)][0] == N(name);
    case Terminal(value) =>
      assert Yields(node, [T(value)]) && !Admits([T(value)][0], names, false);
    case Special(value) =>
      assert Yields(node, [T(value)]) && !Admits([T(value)][0], names, false);
    case Group(child) =>
      HoldsIsYields(child, names, terminals);
      assert forall form :: Yields(node, form) <==> Yields(child, form);
    case Optional(child) =>
      assert Yields(node, []);
    case Repetition(child) =>
      assert Joined([]) == [];
      assert Yields(node, []);
    case Alternative(children) =>
      forall i | 0 <= i < |children|
        ensures Holds(children[i], names, terminals)
                <==> YieldsWithin(children[i], names, terminals)
      {
        HoldsIsYields(children[i], names, terminals);
      }
      assert forall i, form | 0 <= i < |children| && Yields(children[i], form) :: Yields(node, form);
    case Sequence(children) =>
      SequenceHolds(children, names, terminals);
  }

  lemma {:induction false} SequenceHolds(children: seq<Node>, names: set<string>, terminals: bool)
    ensures Holds(Sequence(children), names, terminals)
            <==> YieldsWithin(Sequence(children), names, terminals)
    decreases children
  {
    forall i | 0 <= i < |children|
      ensures Holds(children[i], names, terminals)
              <==> YieldsWithin(children[i], names, terminals)
    {
      HoldsIsYields(children[i], names, terminals);
    }
    if Holds(Sequence(children), names, terminals) {
      assert forall i | 0 <= i < |children| :: Holds(children[i], names, terminals);
      var parts := ChosenParts(children, names, terminals);
      WithinJoined(parts, names, terminals);
      assert Yields(Sequence(children), Joined(parts));
    }
    if form :| Yields(Sequence(children), form) && Within(form, names, terminals) {
      var parts: seq<Form> :| |parts| == |children| && Joined(parts) == form
                              && forall i | 0 <= i < |children| :: Yields(children[i], parts[i]);
      WithinJoined(parts, names, terminals);
      assert forall i | 0 <= i < |children| :: Holds(children[i], names, terminals);
    }
  }

  /** For each child something it yields within the names. */
  ghost function ChosenParts(children: seq<Node>, names: set<string>, terminals: bool): (parts: seq<Form>)
    requires forall i | 0 <= i < |children| :: YieldsWithin(children[i], names, terminals)
    ensures |parts| == |children|
    ensures forall i | 0 <= i < |children| :: Yields(children[i], parts[i]) && Within(parts[i], names, terminals)
  {
    if children == [] then []
    else
      assert YieldsWithin(children[0], names, terminals);
      assert forall i | 0 <= i < |children[1..]| :: children[1..][i] == children[i + 1];
      var form :| Yields(children[0], form) && Within(form, names, terminals);
      [form] + ChosenParts(children[1..], names, terminals)
  }

  /** `name` derives a form of terminals only; of nothing at all unless `terminals`. */
  ghost predicate Reaches(g: Grammar, name: string, terminals: bool) {
    exists form :: Derives(g, [N(name)], form) && Within(form, {}, terminals)
  }

  lemma SymbolDerives(g: Grammar, s: Symbol, names: set<string>, terminals: bool)
    requires Admits(s, names, terminals) && forall n | n in names :: Reaches(g, n, terminals)
    ensures exists end :: Derives(g, [s], end) && Within(end, {}, terminals)
  {
    if s.N? {
      assert Reaches(g, s.name, terminals);
    } else {
      DerivesSelf(g, [s]);
      assert Within([s], {}, terminals);
    }
  }

  lemma {:induction false} WithinDerives(g: Grammar, form: Form, names: set<string>, terminals: bool)
    requires Within(form, names, terminals) && forall n | n in names :: Reaches(g, n, terminals)
    ensures exists end :: Derives(g, form, end) && Within(end, {}, terminals)
  {
    if form == [] {
      DerivesSelf(g, []);
      assert Within([], {}, terminals);
    } else {
      assert form == [form[0]] + form[1..];
      WithinConcat([form[0]], form[1..], names, terminals);
      WithinDerives(g, form[1..], names, terminals);
      var rest :| Derives(g, form[1..], rest) && Within(rest, {}, terminals);
      SymbolDerives(g, form[0], names, terminals);
      var first :| Derives(g, [form[0]], first) && Within(first, {}, terminals);
      DerivesBoth(g, [form[0]], first, form[1..], rest);
      WithinConcat(first, rest, {}, terminals);
    }
  }

  /** Passing the test on names that reach makes a name reach. */
  lemma HoldsReaches(g: Grammar, name: string, names: set<string>, terminals: bool)
    requires name in g && Holds(g[name], names, terminals) && forall n | n in names :: Reaches(g, n, terminals)
    ensures Reaches(g, name, terminals)
  {
    HoldsIsYields(g[name], names, terminals);
    var form :| Yields(g[name], form) && Within(form, names, terminals);
    WithinDerives(g, form, names, terminals);
    var end :| Derives(g, form, end) && Within(end, {}, terminals);
    DerivesProduction(g, name, form);
    DerivesThen(g, [N(name)], form, end);
  }

  /** No production adds a name. */
  ghost predicate Closed(g: Grammar, names: set<string>, terminals: bool) {
    forall n | n in g && Holds(g[n], names, terminals) :: n in names
  }

  lemma ClosedStepBackward(g: Grammar, names: set<string>, terminals: bool, a: Form, b: Form)
    requires Closed(g, names, terminals) && Step(g, a, b) && Within(b, names, terminals)
    ensures Within(a, names, terminals)
  {
    var i, form :| IsStep(g, a, i, form, b);
    WithinConcat(a[..i] + form, a[i + 1..], names, terminals);
    WithinConcat(a[..i], form, names, terminals);
    HoldsIsYields(g[a[i].name], names, terminals);
    assert Within([a[i]], names, terminals);
    WithinConcat(a[..i], [a[i]], names, terminals);
    WithinConcat(a[..i] + [a[i]], a[i + 1..], names, terminals);
    assert a == a[..i] + [a[i]] + a[i + 1..];
  }

  lemma {:induction false} ClosedBackward(g: Grammar, names: set<string>, terminals: bool, a: Form, b: Form, steps: nat)
    requires Closed(g, names, terminals) && DerivesIn(g, a, b, steps) && Within(b, names, terminals)
    ensures Within(a, names, terminals)
    decreases steps
  {
    if steps > 0 {
      var m := FirstStep(g, a, b, steps);
      ClosedBackward(g, names, terminals, m, b, steps - 1);
      ClosedStepBackward(g, names, terminals, a, m);
    }
  }

  /** A set that is closed, and holds only names that reach, holds exactly those. */
  lemma FixpointIsMeaning(g: Grammar, names: set<string>, terminals: bool)
    requires Closed(g, names, terminals) && forall n | n in names :: n in g && Reaches(g, n, terminals)
    ensures forall n :: n in names <==> n in g && Reaches(g, n, terminals)
  {
    forall n | n in g && Reaches(g, n, terminals)
      ensures n in names
    {
      var form :| Derives(g, [N(n)], form) && Within(form, {}, terminals);
      var steps :| DerivesIn(g, [N(n)], form, steps);
      ClosedBackward(g, names, terminals, [N(n)], form, steps);
      assert [N(n)][0] == N(n);
    }
  }

  ghost predicate DerivesEmpty(g: Grammar, name: string) {
    Derives(g, [N(name)], [])
  }

  ghost predicate AllTerminals(form: Form) {
    forall i | 0 <= i < |form| :: form[i].T?
  }

  /** `name` derives some sequence of terminals. */
  ghost predicate DerivesTerminals(g: Grammar, name: string) {
    exists form :: Derives(g, [N(name)], form) && AllTerminals(form)
  }

  lemma NothingWithin(form: Form)
    ensures Within(form, {}, false) <==> form == []
  {
    if form != [] {
      assert !Admits(form[0], {}, false);
    }
  }

  lemma ReachesMeans(g: Grammar, name: string)
    ensures Reaches(g, name, false) <==> DerivesEmpty(g, name)
    ensures Reaches(g, name, true) <==> DerivesTerminals(g, name)
  {
    if form :| Derives(g, [N(name)], form) && Within(form, {}, false) {
      NothingWithin(form);
    }
    if DerivesEmpty(g, name) {
      assert Within([], {}, false);
    }
    if form :| Derives(g, [N(name)], form) && AllTerminals(form) {
      assert Within(form, {}, true);
    }
    if form :| Derives(g, [N(name)], form) && Within(form, {}, true) {
      assert AllTerminals(form);
    }
  }

  /** The chaotic iteration: whatever order the productions come in, it ends with
      exactly the names that derive nothing and exactly those that derive terminals. */
  method Fixpoints(g: Grammar, order: seq<string>) returns (nullable: set<string>, productive: set<string>)
    requires forall n :: n in order <==> n in g
    ensures forall n :: n in nullable <==> n in g && DerivesEmpty(g, n)
    ensures forall n :: n in productive <==> n in g && DerivesTerminals(g, n)
  {
    nullable, productive := {}, {};
    var changed := true;
    while changed
      invariant forall n | n in nullable :: n in g && Reaches(g, n, false)
      invariant forall n | n in productive :: n in g && Reaches(g, n, true)
      invariant !changed ==> Closed(g, nullable, false) && Closed(g, productive, true)
      decreases g.Keys - nullable, g.Keys - productive, changed
    {
      changed := false;
      ghost var nullable0, productive0 := nullable, productive;
      for i := 0 to |order|
        invariant nullable0 <= nullable && productive0 <= productive
        invariant forall n | n in nullable :: n in g && Reaches(g, n, false)
        invariant forall n | n in productive :: n in g && Reaches(g, n, true)
        invariant changed <==> nullable != nullable0 || productive != productive0
        invariant !changed ==> forall k | 0 <= k < i ::
            (Holds(g[order[k]], nullable, false) ==> order[k] in nullable)
            && (Holds(g[order[k]], productive, true) ==> order[k] in productive)
      {
        var name := order[i];
        if name !in nullable && IsNullable(g[name], nullable) {
          HoldsReaches(g, name, nullable, false);
          nullable := nullable + {name};
          changed := true;
        }
        if name !in productive && IsProductive(g[name], productive) {
          HoldsReaches(g, name, productive, true);
          productive := productive + {name};
          changed := true;
        }
      }
      Grows(g.Keys, nullable0, nullable);
      Grows(g.Keys, productive0, productive);
    }
    FixpointIsMeaning(g, nullable, false);
    FixpointIsMeaning(g, productive, true);
    forall n
      ensures n in nullable <==> n in g && DerivesEmpty(g, n)
      ensures n in productive <==> n in g && DerivesTerminals(g, n)
    {
      ReachesMeans(g, n);
    }
  }

  lemma Grows<X>(all: set<X>, before: set<X>, after: set<X>)
    requires before <= after <= all
    ensures before != after ==> all - after < all - before
  {
    if before != after {
      var x :| x in after && x !in before;
      assert x in all - before && x !in all - after;
    }
  }
}
