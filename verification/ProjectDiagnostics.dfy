/** The diagnostics of one project evaluation, and the order they are reported in. */
module ProjectDiagnostics {
  import opened Order

  datatype Diagnostic = Diagnostic(error: string, stage: string, source: string, offset: nat)

  const STAGES: seq<string> := [
    "localization", "lexical", "grammar_or_schema", "resolution",
    "static_or_expression", "validation", "execution", "verification_or_completion"
  ]

  /** The last position of `x` in `s`. */
  function LastIndex(s: seq<string>, x: string): (i: nat)
    requires x in s
    ensures i < |s| && s[i] == x
    ensures forall j | i < j < |s| :: s[j] != x
  {
    if s[|s| - 1] == x then |s| - 1 else LastIndex(s[..|s| - 1], x)
  }

  /** A diagnostic can be placed: its stage is registered and its source was loaded. */
  predicate Placed(sources: seq<string>, d: Diagnostic) {
    d.stage in STAGES && d.source in sources
  }

  predicate AllPlaced(sources: seq<string>, s: seq<Diagnostic>) {
    forall i | 0 <= i < |s| :: Placed(sources, s[i])
  }

  /** By stage, then by the last load of the source, then by offset, then by error. */
  predicate Leq(sources: seq<string>, a: Diagnostic, b: Diagnostic)
    requires Placed(sources, a) && Placed(sources, b)
  {
    var p, q := LastIndex(STAGES, a.stage), LastIndex(STAGES, b.stage);
    var i, j := LastIndex(sources, a.source), LastIndex(sources, b.source);
    p < q || (p == q && (i < j || (i == j && (a.offset < b.offset
                                               || (a.offset == b.offset && StringLeq(a.error, b.error))))))
  }

  /** The sort key tells any two different diagnostics apart. */
  lemma LeqIsTotal(sources: seq<string>, a: Diagnostic, b: Diagnostic)
    requires Placed(sources, a) && Placed(sources, b)
    ensures Leq(sources, a, b) || Leq(sources, b, a)
    ensures Leq(sources, a, b) && Leq(sources, b, a) ==> a == b
  {
    StringLeqTotal(a.error, b.error);
    assert STAGES[LastIndex(STAGES, a.stage)] == a.stage && STAGES[LastIndex(STAGES, b.stage)] == b.stage;
    assert sources[LastIndex(sources, a.source)] == a.source && sources[LastIndex(sources, b.source)] == b.source;
  }

  lemma LeqIsTransitive(sources: seq<string>, a: Diagnostic, b: Diagnostic, c: Diagnostic)
    requires Placed(sources, a) && Placed(sources, b) && Placed(sources, c)
    requires Leq(sources, a, b) && Leq(sources, b, c)
    ensures Leq(sources, a, c)
  {
    if StringLeq(a.error, b.error) && StringLeq(b.error, c.error) {
      StringLeqTransitive(a.error, b.error, c.error);
    }
  }

  /** Strictly increasing: sorted, with nothing twice. */
  ghost predicate Listed(sources: seq<string>, s: seq<Diagnostic>)
    requires AllPlaced(sources, s)
  {
    forall i, j | 0 <= i < j < |s| :: Leq(sources, s[i], s[j]) && s[i] != s[j]
  }

  function Insert(sources: seq<string>, d: Diagnostic, s: seq<Diagnostic>): (r: seq<Diagnostic>)
    requires Placed(sources, d) && AllPlaced(sources, s)
    ensures AllPlaced(sources, r)
    ensures forall x :: x in r <==> x == d || x in s
  {
    if s == [] then [d]
    else if Leq(sources, d, s[0]) then [d] + s
    else
      assert s == [s[0]] + s[1..];
      [s[0]] + Insert(sources, d, s[1..])
  }

  lemma {:induction false} InsertListed(sources: seq<string>, d: Diagnostic, s: seq<Diagnostic>)
    requires Placed(sources, d) && AllPlaced(sources, s) && Listed(sources, s) && d !in s
    ensures Listed(sources, Insert(sources, d, s))
  {
    if s != [] {
      LeqIsTotal(sources, d, s[0]);
      if Leq(sources, d, s[0]) {
        forall j | 0 <= j < |s|
          ensures Leq(sources, d, s[j])
        {
          if j > 0 {
            LeqIsTransitive(sources, d, s[0], s[j]);
          }
        }
      } else {
        InsertListed(sources, d, s[1..]);
        var rest := Insert(sources, d, s[1..]);
        forall j | 0 <= j < |rest|
          ensures Leq(sources, s[0], rest[j]) && s[0] != rest[j]
        {
          assert rest[j] in rest;
        }
      }
    }
  }

  /** The different elements of `s`, sorted. */
  function Sorted(sources: seq<string>, s: seq<Diagnostic>): (r: seq<Diagnostic>)
    requires AllPlaced(sources, s)
    ensures AllPlaced(sources, r)
    ensures forall x :: x in r <==> x in s
  {
    if s == [] then []
    else
      var rest := Sorted(sources, s[..|s| - 1]);
      assert s == s[..|s| - 1] + [s[|s| - 1]];
      if s[|s| - 1] in rest then rest else Insert(sources, s[|s| - 1], rest)
  }

  lemma {:induction false} SortedIsListed(sources: seq<string>, s: seq<Diagnostic>)
    requires AllPlaced(sources, s)
    ensures Listed(sources, Sorted(sources, s))
  {
    if s != [] {
      SortedIsListed(sources, s[..|s| - 1]);
      var rest := Sorted(sources, s[..|s| - 1]);
      if s[|s| - 1] !in rest {
        InsertListed(sources, s[|s| - 1], rest);
      }
    }
  }

  /** Only one listing has the elements it has. */
  lemma {:induction false} ListingIsUnique(sources: seq<string>, a: seq<Diagnostic>, b: seq<Diagnostic>)
    requires AllPlaced(sources, a) && AllPlaced(sources, b) && Listed(sources, a) && Listed(sources, b)
    requires forall x :: x in a <==> x in b
    ensures a == b
  {
    assert b != [] ==> b[0] in a;
    if a != [] {
      assert a[0] in b;
      FirstIsLeast(sources, a, b);
      FirstIsLeast(sources, b, a);
      LeqIsTotal(sources, a[0], b[0]);
      forall x
        ensures x in a[1..] <==> x in b[1..]
      {
        assert a == [a[0]] + a[1..] && b == [b[0]] + b[1..];
        assert a[0] !in a[1..] && b[0] !in b[1..];
        assert x in a <==> x in b;
      }
      ListingIsUnique(sources, a[1..], b[1..]);
      assert a == [a[0]] + a[1..] && b == [b[0]] + b[1..];
    }
  }

  lemma FirstIsLeast(sources: seq<string>, a: seq<Diagnostic>, b: seq<Diagnostic>)
    requires AllPlaced(sources, a) && AllPlaced(sources, b) && Listed(sources, a)
    requires a != [] && b != [] && b[0] in a
    ensures Leq(sources, a[0], b[0])
  {
    var i :| 0 <= i < |a| && a[i] == b[0];
    LeqIsTotal(sources, a[0], a[0]);
  }

  /** What is reported does not depend on the order in which the diagnostics were emitted, or how often. */
  lemma {:induction false} EmissionOrderIsIrrelevant(sources: seq<string>, a: seq<Diagnostic>, b: seq<Diagnostic>)
    requires AllPlaced(sources, a) && AllPlaced(sources, b)
    requires forall x :: x in a <==> x in b
    ensures Sorted(sources, a) == Sorted(sources, b)
  {
    SortedIsListed(sources, a);
    SortedIsListed(sources, b);
    ListingIsUnique(sources, Sorted(sources, a), Sorted(sources, b));
  }

  /** The different diagnostics in the order of their first emission, then sorted. */
  method Finish(sources: seq<string>, emitted: seq<Diagnostic>) returns (reported: seq<Diagnostic>, accept: bool)
    requires AllPlaced(sources, emitted)
    ensures reported == Sorted(sources, emitted)
    ensures accept <==> emitted == []
  {
    var distinct: seq<Diagnostic> := [];
    for i := 0 to |emitted|
      invariant forall x :: x in distinct <==> x in emitted[..i]
      invariant AllPlaced(sources, distinct)
    {
      assert emitted[..i + 1] == emitted[..i] + [emitted[i]];
      if emitted[i] !in distinct {
        distinct := distinct + [emitted[i]];
      }
    }
    assert emitted[..|emitted|] == emitted;
    EmissionOrderIsIrrelevant(sources, distinct, emitted);
    reported := Sorted(sources, distinct);
    accept := reported == [];
    assert emitted == [] || emitted[0] in reported;
  }
}
