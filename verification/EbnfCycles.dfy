/** The cycle search over the left-corner graph. */
module EbnfCycles {
  import opened Order

  type Graph = map<string, set<string>>

  // ----- Order ----------------------------------------------------------------

  /** Tuples of strings, element by element. */
  predicate TupleLeq(a: seq<string>, b: seq<string>) {
    a == [] || (b != [] && (if a[0] == b[0] then TupleLeq(a[1..], b[1..]) else StringLeq(a[0], b[0])))
  }

  lemma {:induction false} TupleLeqTotal(a: seq<string>, b: seq<string>)
    ensures TupleLeq(a, b) || TupleLeq(b, a)
    ensures TupleLeq(a, b) && TupleLeq(b, a) ==> a == b
  {
    if a != [] && b != [] {
      StringLeqTotal(a[0], b[0]);
      TupleLeqTotal(a[1..], b[1..]);
      assert a == [a[0]] + a[1..] && b == [b[0]] + b[1..];
    }
  }

  lemma {:induction false} TupleLeqTransitive(a: seq<string>, b: seq<string>, c: seq<string>)
    requires TupleLeq(a, b) && TupleLeq(b, c)
    ensures TupleLeq(a, c)
  {
    if a != [] {
      if a[0] == b[0] == c[0] {
        TupleLeqTransitive(a[1..], b[1..], c[1..]);
      } else {
        StringLeqTotal(a[0], b[0]);
        StringLeqTotal(b[0], c[0]);
        StringLeqTotal(a[0], c[0]);
        if a[0] != b[0] && b[0] != c[0] {
          StringLeqTransitive(a[0], b[0], c[0]);
        }
      }
    }
  }

  // ----- Cycles ---------------------------------------------------------------

  predicate Edge(graph: Graph, a: string, b: string) {
    a in graph && b in graph[a]
  }

  predicate Walk(graph: Graph, path: seq<string>) {
    forall i | 0 <= i < |path| - 1 :: Edge(graph, path[i], path[i + 1])
  }

  /** The nodes of a cycle that passes through each of them once, from any of them on. */
  predicate SimpleCycle(graph: Graph, body: seq<string>) {
    body != [] && Distinct(body) && Walk(graph, body) && Edge(graph, body[|body| - 1], body[0])
  }

  function Rotated(s: seq<string>, i: nat): seq<string>
    requires i <= |s|
  {
    s[i..] + s[..i]
  }

  ghost predicate IsRotation(a: seq<string>, b: seq<string>) {
    exists i :: 0 <= i < |a| && Rotated(a, i) == b
  }

  ghost predicate IsLeastRotation(s: seq<string>) {
    forall i | 0 <= i < |s| :: TupleLeq(s, Rotated(s, i))
  }

  lemma RotatedTwice(s: seq<string>, i: nat, j: nat)
    requires i < |s| && j < |s|
    ensures var k := if i + j < |s| then i + j else i + j - |s|;
            Rotated(Rotated(s, i), j) == Rotated(s, k)
  {
    var k := if i + j < |s| then i + j else i + j - |s|;
    var a, b := Rotated(Rotated(s, i), j), Rotated(s, k);
    forall p | 0 <= p < |s|
      ensures a[p] == b[p]
    {
    }
  }

  lemma RotatedAgree(a: seq<string>, b: seq<string>)
    requires IsRotation(a, b)
    ensures IsRotation(b, a) && forall c :: IsRotation(a, c) <==> IsRotation(b, c)
  {
    var i :| 0 <= i < |a| && Rotated(a, i) == b;
    var back := if i == 0 then 0 else |a| - i;
    RotatedTwice(a, i, back);
    assert Rotated(a, 0) == a;
    assert Rotated(b, back) == a;
    forall c
      ensures IsRotation(a, c) <==> IsRotation(b, c)
    {
      if j :| 0 <= j < |a| && Rotated(a, j) == c {
        RotatedTwice(b, back, j);
      }
      if j :| 0 <= j < |b| && Rotated(b, j) == c {
        RotatedTwice(a, i, j);
      }
    }
  }

  lemma RotatedCycle(graph: Graph, body: seq<string>, i: nat)
    requires SimpleCycle(graph, body) && i < |body|
    ensures SimpleCycle(graph, Rotated(body, i))
  {
    var r := Rotated(body, i);
    forall k | 0 <= k < |r| - 1
      ensures Edge(graph, r[k], r[k + 1])
    {
      if k == |body| - i - 1 {
        assert r[k] == body[|body| - 1] && r[k + 1] == body[0];
      } else if k < |body| - i - 1 {
        assert r[k] == body[i + k] && r[k + 1] == body[i + k + 1];
      } else {
        var p := k - (|body| - i);
        assert r[k] == body[p] && r[k + 1] == body[p + 1];
      }
    }
    if i > 0 {
      assert Edge(graph, body[i - 1], body[i]);
    }
  }

  /** The least of the first `n` rotations. */
  function LeastOf(s: seq<string>, n: nat): (r: seq<string>)
    requires 0 < n <= |s|
    ensures IsRotation(s, r)
    ensures forall i | 0 <= i < n :: TupleLeq(r, Rotated(s, i))
  {
    if n == 1 then
      TupleLeqTotal(Rotated(s, 0), Rotated(s, 0));
      Rotated(s, 0)
    else
      var earlier, last := LeastOf(s, n - 1), Rotated(s, n - 1);
      TupleLeqTotal(earlier, last);
      TupleLeqTotal(last, last);
      if TupleLeq(earlier, last) then earlier
      else
        assert forall i | 0 <= i < n - 1 :: TupleLeq(last, Rotated(s, i)) by {
          forall i | 0 <= i < n - 1
            ensures TupleLeq(last, Rotated(s, i))
          {
            TupleLeqTransitive(last, earlier, Rotated(s, i));
          }
        }
        last
  }

  function LeastRotation(s: seq<string>): (r: seq<string>)
    requires s != []
    ensures IsRotation(s, r) && IsLeastRotation(r)
  {
    var r := LeastOf(s, |s|);
    assert IsLeastRotation(r) by {
      RotatedAgree(s, r);
      forall i | 0 <= i < |r|
        ensures TupleLeq(r, Rotated(r, i))
      {
        assert IsRotation(r, Rotated(r, i));
      }
    }
    r
  }

  /** Two rotations of one cycle that are both least are the same. */
  lemma LeastIsUnique(a: seq<string>, b: seq<string>)
    requires IsRotation(a, b) && IsLeastRotation(a) && IsLeastRotation(b)
    ensures a == b
  {
    RotatedAgree(a, b);
    TupleLeqTotal(a, b);
  }

  // ----- The search -----------------------------------------------------------

  function Targets(graph: Graph, node: string): set<string> {
    if node in graph then graph[node] else {}
  }

  /** The nodes a path can still add. */
  ghost function Unvisited(graph: Graph, path: seq<string>): set<string> {
    graph.Keys + (set a, b | a in graph && b in graph[a] :: b) - (set i | 0 <= i < |path| :: path[i])
  }

  ghost predicate OnGraph(graph: Graph, path: seq<string>, node: string) {
    && Distinct(path) && Walk(graph, path)
    && (path == [] ==> node in graph) && (path != [] ==> Edge(graph, path[|path| - 1], node))
  }

  lemma PathGrows(graph: Graph, path: seq<string>, node: string)
    requires OnGraph(graph, path, node) && node !in path
    ensures Unvisited(graph, path + [node]) < Unvisited(graph, path)
    ensures forall t | t in Targets(graph, node) :: OnGraph(graph, path + [node], t)
  {
    assert node in Unvisited(graph, path);
    var longer := path + [node];
    assert longer[|path|] == node;
    assert forall i | 0 <= i < |path| :: longer[i] == path[i];
    assert Unvisited(graph, longer) == Unvisited(graph, path) - {node};
  }

  /** A visit of `node` at the end of `path` adds `c` to the cycles. */
  ghost predicate Found(graph: Graph, node: string, path: seq<string>, c: seq<string>)
    requires OnGraph(graph, path, node)
    decreases Unvisited(graph, path)
  {
    if node in path then c == LeastRotation(path[IndexOf(path, node)..])
    else
      PathGrows(graph, path, node);
      exists t :: t in Targets(graph, node) && Found(graph, t, path + [node], c)
  }

  class Search {
    var cycles: set<seq<string>>

    constructor ()
      ensures cycles == {}
    {
      cycles := {};
    }

    method Visit(graph: Graph, node: string, path: seq<string>)
      requires OnGraph(graph, path, node)
      modifies this
      ensures forall c :: c in cycles <==> c in old(cycles) || Found(graph, node, path, c)
      decreases Unvisited(graph, path)
    {
      if node in path {
        cycles := cycles + {LeastRotation(path[IndexOf(path, node)..])};
        return;
      }
      PathGrows(graph, path, node);
      var targets := Targets(graph, node);
      ghost var done := {};
      while targets != {}
        invariant targets + done == Targets(graph, node)
        invariant forall c :: c in cycles <==>
            c in old(cycles) || exists t :: t in done && Found(graph, t, path + [node], c)
        decreases targets
      {
        var target :| target in targets;
        Visit(graph, target, path + [node]);
        targets, done := targets - {target}, done + {target};
      }
      assert done == Targets(graph, node);
    }
  }

  lemma {:induction false} FoundIsSound(graph: Graph, node: string, path: seq<string>, c: seq<string>)
    requires OnGraph(graph, path, node) && Found(graph, node, path, c)
    ensures SimpleCycle(graph, c) && IsLeastRotation(c)
    decreases Unvisited(graph, path)
  {
    if node in path {
      var k := IndexOf(path, node);
      var body := path[k..];
      forall i | 0 <= i < |body| - 1
        ensures Edge(graph, body[i], body[i + 1])
      {
        assert body[i] == path[k + i] && body[i + 1] == path[k + i + 1];
      }
      assert SimpleCycle(graph, body);
      var i :| 0 <= i < |body| && Rotated(body, i) == c;
      RotatedCycle(graph, body, i);
    } else {
      PathGrows(graph, path, node);
      var t :| t in Targets(graph, node) && Found(graph, t, path + [node], c);
      FoundIsSound(graph, t, path + [node], c);
    }
  }

  lemma CyclePrefix(graph: Graph, body: seq<string>, i: nat)
    requires SimpleCycle(graph, body) && i <= |body|
    ensures OnGraph(graph, body[..i], if i < |body| then body[i] else body[0])
  {
    if i > 0 && i < |body| {
      assert Edge(graph, body[i - 1], body[i]);
    }
    if i == 0 && |body| > 1 {
      assert Edge(graph, body[0], body[1]);
    }
  }

  lemma {:induction false} FoundIsComplete(graph: Graph, body: seq<string>, i: nat)
    requires SimpleCycle(graph, body) && i <= |body|
    ensures var node := if i < |body| then body[i] else body[0];
            OnGraph(graph, body[..i], node) && Found(graph, node, body[..i], LeastRotation(body))
    decreases |body| - i
  {
    CyclePrefix(graph, body, i);
    if i == |body| {
      assert body[..i] == body && IndexOf(body, body[0]) == 0 && body[0..] == body;
    } else {
      var next := if i + 1 < |body| then body[i + 1] else body[0];
      FoundIsComplete(graph, body, i + 1);
      PathGrows(graph, body[..i], body[i]);
      assert body[..i] + [body[i]] == body[..i + 1];
      assert i + 1 < |body| ==> Edge(graph, body[i], body[i + 1]);
      assert next in Targets(graph, body[i]);
    }
  }

  /** The search ends, reports only simple cycles, and reports each of them once: as its least rotation. */
  method FindCycles(graph: Graph) returns (cycles: set<seq<string>>)
    ensures forall c | c in cycles :: SimpleCycle(graph, c) && IsLeastRotation(c)
    ensures forall body | SimpleCycle(graph, body) ::
              exists c :: c in cycles && IsRotation(body, c) && forall d | d in cycles && IsRotation(body, d) :: d == c
  {
    var search := new Search();
    var names := graph.Keys;
    ghost var done := {};
    while names != {}
      invariant names + done == graph.Keys
      invariant forall c :: c in search.cycles <==> exists n :: n in done && OnGraph(graph, [], n) && Found(graph, n, [], c)
      decreases names
    {
      var name :| name in names;
      search.Visit(graph, name, []);
      names, done := names - {name}, done + {name};
    }
    cycles := search.cycles;
    forall c | c in cycles
      ensures SimpleCycle(graph, c) && IsLeastRotation(c)
    {
      var n :| n in done && OnGraph(graph, [], n) && Found(graph, n, [], c);
      FoundIsSound(graph, n, [], c);
    }
    forall body | SimpleCycle(graph, body)
      ensures exists c :: c in cycles && IsRotation(body, c) && forall d | d in cycles && IsRotation(body, d) :: d == c
    {
      FoundIsComplete(graph, body, 0);
      assert body[..0] == [] && body[0] in done;
      var c := LeastRotation(body);
      assert c in cycles;
      forall d | d in cycles && IsRotation(body, d)
        ensures d == c
      {
        RotatedAgree(body, c);
        LeastIsUnique(c, d);
      }
    }
  }

  // ----- Cycles and closed walks ----------------------------------------------

  /** A walk of at least one edge from `a` to `b`. */
  ghost predicate Joins(graph: Graph, a: string, b: string, path: seq<string>) {
    |path| >= 2 && Walk(graph, path) && path[0] == a && path[|path| - 1] == b
  }

  lemma {:induction false} ClosedWalkHasCycle(graph: Graph, path: seq<string>)
    requires |path| >= 2 && Walk(graph, path) && path[0] == path[|path| - 1]
    ensures exists body :: SimpleCycle(graph, body)
    decreases |path|
  {
    var body := path[..|path| - 1];
    if Distinct(body) {
      assert Edge(graph, path[|path| - 2], path[|path| - 1]);
      assert SimpleCycle(graph, body);
    } else {
      var i, j :| 0 <= i < j < |body| && body[i] == body[j];
      ClosedWalkHasCycle(graph, path[i..j + 1]);
    }
  }

  /** There is a simple cycle exactly when some node can be left and reached again. */
  lemma CyclesAreReturns(graph: Graph)
    ensures (exists body :: SimpleCycle(graph, body)) <==> exists a, path :: Joins(graph, a, a, path)
  {
    if body :| SimpleCycle(graph, body) {
      var path := body + [body[0]];
      forall i | 0 <= i < |path| - 1
        ensures Edge(graph, path[i], path[i + 1])
      {
        assert i < |body| - 1 ==> Edge(graph, body[i], body[i + 1]);
      }
      assert Joins(graph, body[0], body[0], path);
    }
    if a, path :| Joins(graph, a, a, path) {
      ClosedWalkHasCycle(graph, path);
    }
  }
}
