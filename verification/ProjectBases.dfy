/** Cycles of DEFINE blocks through their BASE references. */
module ProjectBases {
  import opened Order

  /** What a definition is based on, and where it says so: its unit's rank and the offset in it. */
  datatype Base = Base(target: string, rank: nat, offset: nat)

  type Bases = map<string, Base>

  predicate Before(a: Base, b: Base) {
    a.rank < b.rank || (a.rank == b.rank && a.offset <= b.offset)
  }

  function After(i: nat, n: nat): nat {
    if i + 1 < n then i + 1 else 0
  }

  /** Each name is based on the next, and the last on the first. */
  predicate Linked(bases: Bases, ring: seq<string>) {
    forall i | 0 <= i < |ring| :: ring[i] in bases && bases[ring[i]].target == ring[After(i, |ring|)]
  }

  /** A cycle of the graph, each member based on the next. */
  predicate Ring(bases: Bases, ring: seq<string>) {
    ring != [] && Distinct(ring) && Linked(bases, ring)
  }

  ghost predicate IsFirst(bases: Bases, ring: seq<string>, name: string) {
    name in ring && name in bases && forall other | other in ring :: other in bases && Before(bases[name], bases[other])
  }

  /** The position `k` places on from `p` in a ring of `n`. */
  function Around(p: nat, k: nat, n: nat): nat
    requires p < n
    ensures Around(p, k, n) < n
  {
    if k == 0 then p else After(Around(p, k - 1, n), n)
  }

  lemma {:induction false} AroundIsEverywhere(p: nat, i: nat, n: nat)
    requires p < n && i < n
    ensures exists k :: Around(p, k, n) == i
  {
    var k := 0;
    while Around(p, k, n) != i
      decreases if Around(p, k, n) <= i then i - Around(p, k, n) else i + n - Around(p, k, n)
    {
      k := k + 1;
    }
  }

  lemma LinkedNext(bases: Bases, ring: seq<string>, i: nat)
    requires Linked(bases, ring) && i < |ring|
    ensures ring[i] in bases && bases[ring[i]].target == ring[After(i, |ring|)] && After(i, |ring|) < |ring|
  {
  }

  lemma {:induction false} RingStays(bases: Bases, a: seq<string>, b: seq<string>, p: nat, k: nat)
    requires Linked(bases, a) && Linked(bases, b) && p < |a| && a[p] in b
    ensures a[Around(p, k, |a|)] in b
  {
    if k > 0 {
      RingStays(bases, a, b, p, k - 1);
      var i := Around(p, k - 1, |a|);
      var j :| 0 <= j < |b| && b[j] == a[i];
      LinkedNext(bases, a, i);
      LinkedNext(bases, b, j);
    }
  }

  /** Two cycles that meet have the same members. */
  lemma RingsMeet(bases: Bases, a: seq<string>, b: seq<string>, x: string)
    requires Linked(bases, a) && Linked(bases, b) && x in a && x in b
    ensures forall y | y in a :: y in b
  {
    var p :| 0 <= p < |a| && a[p] == x;
    forall y | y in a
      ensures y in b
    {
      var i :| 0 <= i < |a| && a[i] == y;
      AroundIsEverywhere(p, i, |a|);
      var k :| Around(p, k, |a|) == i;
      RingStays(bases, a, b, p, k);
    }
  }

  /** Each name is based on the next, and the last on `current`. */
  predicate Walk(bases: Bases, seen: seq<string>, current: string) {
    forall i | 0 <= i < |seen| :: seen[i] in bases && bases[seen[i]].target == NextIn(seen, current, i)
  }

  function NextIn(seen: seq<string>, current: string, i: nat): string {
    if i + 1 < |seen| then seen[i + 1] else current
  }

  /** The names from `start` on, each the base of the one before. */
  predicate Chain(bases: Bases, start: string, seen: seq<string>, current: string) {
    Distinct(seen) && NextIn([start] + seen, current, 0) == start && Walk(bases, seen, current)
  }

  lemma {:induction false} SizeOfDistinct(seen: seq<string>, all: set<string>)
    requires Distinct(seen) && forall i | 0 <= i < |seen| :: seen[i] in all
    ensures |seen| <= |all|
  {
    if seen != [] {
      var last := |seen| - 1;
      SizeOfDistinct(seen[..last], all - {seen[last]});
    }
  }

  lemma WalkOn(bases: Bases, seen: seq<string>, current: string)
    requires Walk(bases, seen, current) && current in bases
    ensures Walk(bases, seen + [current], bases[current].target)
  {
    var longer := seen + [current];
    forall i | 0 <= i < |longer|
      ensures longer[i] in bases && bases[longer[i]].target == NextIn(longer, bases[current].target, i)
    {
      if i < |seen| {
        assert longer[i] == seen[i] && NextIn(longer, bases[current].target, i) == NextIn(seen, current, i);
      }
    }
  }

  /** Follow the bases from `start` until they leave the graph or come back. */
  method Follow(bases: Bases, start: string) returns (seen: seq<string>, current: string)
    ensures Chain(bases, start, seen, current)
    ensures current !in bases || current in seen
  {
    seen, current := [], start;
    while current in bases && current !in seen
      invariant Distinct(seen) && Walk(bases, seen, current)
      invariant NextIn([start] + seen, current, 0) == start
      decreases |bases.Keys| - |seen|
    {
      WalkOn(bases, seen, current);
      SizeOfDistinct(seen + [current], bases.Keys);
      seen := seen + [current];
      current := bases[current].target;
    }
  }

  /** A chain that comes back ends in a cycle. */
  lemma {:induction false} ChainCloses(bases: Bases, seen: seq<string>, current: string)
    requires Distinct(seen) && Walk(bases, seen, current) && current in seen
    ensures Ring(bases, seen[IndexOf(seen, current)..])
  {
    var k := IndexOf(seen, current);
    var ring := seen[k..];
    forall i | 0 <= i < |ring|
      ensures ring[i] in bases && bases[ring[i]].target == ring[After(i, |ring|)]
    {
      assert ring[i] == seen[k + i];
      assert NextIn(seen, current, k + i) == ring[After(i, |ring|)];
    }
  }

  lemma {:induction false} ChainIsPrefix(bases: Bases, ring: seq<string>, seen: seq<string>, current: string, i: nat)
    requires Linked(bases, ring) && ring != [] && Distinct(seen) && Walk(bases, seen, current)
    requires i < |seen| && seen[0] == ring[0]
    ensures i < |ring| && seen[i] == ring[i]
  {
    if i > 0 {
      ChainIsPrefix(bases, ring, seen, current, i - 1);
      LinkedNext(bases, ring, i - 1);
      assert bases[seen[i - 1]].target == NextIn(seen, current, i - 1) == seen[i];
      assert seen[i] != seen[0];
    }
  }

  /** A chain from a member of a cycle is that cycle. */
  lemma {:induction false} ChainOfRing(bases: Bases, ring: seq<string>, seen: seq<string>, current: string)
    requires Ring(bases, ring) && Chain(bases, ring[0], seen, current)
    requires current !in bases || current in seen
    ensures current in seen && IndexOf(seen, current) == 0 && seen == ring
  {
    LinkedNext(bases, ring, 0);
    var n := |seen|;
    if n == 0 {
      assert false;
    }
    assert ([ring[0]] + seen)[1] == seen[0];
    forall i | 0 <= i < n
      ensures i < |ring| && seen[i] == ring[i]
    {
      ChainIsPrefix(bases, ring, seen, current, i);
    }
    ChainIsPrefix(bases, ring, seen, current, n - 1);
    ChainEnds(bases, ring, seen, current);
  }

  lemma {:induction false} ChainEnds(bases: Bases, ring: seq<string>, seen: seq<string>, current: string)
    requires Ring(bases, ring) && Walk(bases, seen, current) && (current !in bases || current in seen)
    requires 0 < |seen| <= |ring| && seen == ring[..|seen|]
    ensures current in seen && IndexOf(seen, current) == 0 && seen == ring
  {
    var last := |seen| - 1;
    LinkedNext(bases, ring, last);
    LinkedNext(bases, ring, After(last, |ring|));
    assert current == NextIn(seen, current, last) == ring[After(last, |ring|)];
    var j := IndexOf(seen, current);
    assert ring[j] == ring[After(last, |ring|)];
  }

  method First(bases: Bases, ring: seq<string>) returns (first: string)
    requires Ring(bases, ring)
    ensures IsFirst(bases, ring, first)
  {
    first := ring[0];
    for i := 1 to |ring|
      invariant first in ring && first in bases
      invariant forall k | 0 <= k < i :: Before(bases[first], bases[ring[k]])
    {
      if !Before(bases[first], bases[ring[i]]) {
        first := ring[i];
      }
    }
  }

  predicate Apart(a: seq<string>, b: seq<string>) {
    forall x | x in a :: x !in b
  }

  predicate OneOf(rings: seq<seq<string>>, x: string) {
    exists i :: 0 <= i < |rings| && x in rings[i]
  }

  /** One report for each of these separate cycles. */
  ghost predicate Recorded(bases: Bases, reports: seq<string>, rings: seq<seq<string>>) {
    && |rings| == |reports|
    && (forall i | 0 <= i < |rings| :: Ring(bases, rings[i]))
    && (forall i | 0 <= i < |rings| :: IsFirst(bases, rings[i], reports[i]))
    && forall i, j | 0 <= i < j < |rings| :: Apart(rings[i], rings[j])
  }

  /** A cycle none of whose members is in an earlier one is separate from them all. */
  lemma CycleIsNew(rings: seq<seq<string>>, reported: set<string>, cycle: seq<string>)
    requires forall x :: x in reported <==> OneOf(rings, x)
    requires forall x | x in cycle :: x !in reported
    ensures forall i | 0 <= i < |rings| :: Apart(rings[i], cycle)
  {
    forall i, x | 0 <= i < |rings| && x in rings[i]
      ensures x !in cycle
    {
      assert OneOf(rings, x);
    }
  }

  lemma OneOfMore(rings: seq<seq<string>>, cycle: seq<string>, x: string)
    ensures OneOf(rings + [cycle], x) <==> OneOf(rings, x) || x in cycle
  {
    var more := rings + [cycle];
    if OneOf(rings, x) {
      var i :| 0 <= i < |rings| && x in rings[i];
      assert x in more[i];
    }
    if x in cycle {
      assert x in more[|rings|];
    }
  }

  /** A cycle that meets an earlier one lies within it. */
  lemma CycleIsOld(bases: Bases, rings: seq<seq<string>>, cycle: seq<string>, x: string)
    requires forall i | 0 <= i < |rings| :: Ring(bases, rings[i])
    requires Ring(bases, cycle) && x in cycle && OneOf(rings, x)
    ensures forall y | y in cycle :: OneOf(rings, y)
  {
    var i :| 0 <= i < |rings| && x in rings[i];
    RingsMeet(bases, cycle, rings[i], x);
  }

  ghost predicate Reports(bases: Bases, ring: seq<string>, name: string) {
    Ring(bases, ring) && IsFirst(bases, ring, name)
  }

  ghost predicate FirstOfSome(bases: Bases, name: string) {
    exists ring :: Reports(bases, ring, name)
  }

  /** Exactly one of the reports names a member of `ring`. */
  predicate ReportedOnce(reports: seq<string>, ring: seq<string>) {
    exists i :: 0 <= i < |reports| && reports[i] in ring && forall j | 0 <= j < |reports| && j != i :: reports[j] !in ring
  }

  lemma OneReport(bases: Bases, reports: seq<string>, rings: seq<seq<string>>, ring: seq<string>)
    requires Recorded(bases, reports, rings) && Ring(bases, ring) && OneOf(rings, ring[0])
    ensures ReportedOnce(reports, ring)
  {
    var i :| 0 <= i < |rings| && ring[0] in rings[i];
    RingsMeet(bases, rings[i], ring, ring[0]);
    assert IsFirst(bases, rings[i], reports[i]);
    RingsMeet(bases, ring, rings[i], ring[0]);
    forall j | 0 <= j < |reports| && j != i
      ensures reports[j] !in ring
    {
      assert IsFirst(bases, rings[j], reports[j]);
      assert if j < i then Apart(rings[j], rings[i]) else Apart(rings[i], rings[j]);
    }
  }

  /** When every cycle starts in the record, the record has one report for each and no other. */
  lemma RecordIsComplete(bases: Bases, reports: seq<string>, rings: seq<seq<string>>)
    requires Recorded(bases, reports, rings)
    requires forall ring | Ring(bases, ring) :: OneOf(rings, ring[0])
    ensures forall i | 0 <= i < |reports| :: FirstOfSome(bases, reports[i])
    ensures forall ring | Ring(bases, ring) :: ReportedOnce(reports, ring)
  {
    forall i | 0 <= i < |reports|
      ensures FirstOfSome(bases, reports[i])
    {
      assert Reports(bases, rings[i], reports[i]);
    }
    forall ring | Ring(bases, ring)
      ensures ReportedOnce(reports, ring)
    {
      OneReport(bases, reports, rings, ring);
    }
  }

  lemma AddReport(bases: Bases, reports: seq<string>, rings: seq<seq<string>>, first: string, cycle: seq<string>)
    requires Recorded(bases, reports, rings) && Reports(bases, cycle, first)
    requires forall i | 0 <= i < |rings| :: Apart(rings[i], cycle)
    ensures Recorded(bases, reports + [first], rings + [cycle])
  {
  }

  lemma {:induction false} CycleFound(bases: Bases, ring: seq<string>, seen: seq<string>, current: string)
    requires Ring(bases, ring) && Chain(bases, ring[0], seen, current)
    requires current !in bases || current in seen
    ensures current in seen && ring[0] in seen[IndexOf(seen, current)..]
  {
    ChainOfRing(bases, ring, seen, current);
    assert ring[0] == seen[IndexOf(seen, current)..][0];
  }

  function SetOf(s: seq<string>): (r: set<string>)
    ensures forall x :: x in s <==> x in r
  {
    set x | x in s
  }

  ghost predicate Members(reported: set<string>, rings: seq<seq<string>>) {
    forall x :: x in reported <==> OneOf(rings, x)
  }

  lemma MembersMore(reported: set<string>, rings: seq<seq<string>>, cycle: seq<string>)
    requires Members(reported, rings)
    ensures Members(reported + SetOf(cycle), rings + [cycle])
  {
    forall x
      ensures x in reported + SetOf(cycle) <==> OneOf(rings + [cycle], x)
    {
      OneOfMore(rings, cycle, x);
    }
  }

  /** Every cycle that starts at one of `starts` has been reported. */
  ghost predicate Covered(bases: Bases, starts: seq<string>, reported: set<string>) {
    forall ring | Ring(bases, ring) && ring[0] in starts :: ring[0] in reported
  }

  lemma {:induction false} CoveredMore(bases: Bases, starts: seq<string>, reported: set<string>, start: string,
                                       more: set<string>, seen: seq<string>, current: string)
    requires Covered(bases, starts, reported) && reported <= more
    requires Chain(bases, start, seen, current) && (current !in bases || current in seen)
    requires current in seen ==> SetOf(seen[IndexOf(seen, current)..]) <= more
    ensures Covered(bases, starts + [start], more)
  {
    forall ring | Ring(bases, ring) && ring[0] in starts + [start]
      ensures ring[0] in more
    {
      if ring[0] !in starts {
        CycleFound(bases, ring, seen, current);
      }
    }
  }

  lemma AllFound(bases: Bases, starts: seq<string>, reported: set<string>, rings: seq<seq<string>>)
    requires forall name :: name in starts <==> name in bases
    requires Covered(bases, starts, reported) && Members(reported, rings)
    ensures forall ring | Ring(bases, ring) :: OneOf(rings, ring[0])
  {
    forall ring | Ring(bases, ring)
      ensures OneOf(rings, ring[0])
    {
      LinkedNext(bases, ring, 0);
      assert ring[0] in reported;
    }
  }

  /** Take the cycle a walk closed into the record, unless it is there already. */
  method Record(bases: Bases, cycle: seq<string>, before: seq<string>, known: set<string>, ghost rings: seq<seq<string>>)
    returns (reports: seq<string>, reported: set<string>, ghost more: seq<seq<string>>)
    requires Recorded(bases, before, rings) && Members(known, rings) && Ring(bases, cycle)
    ensures Recorded(bases, reports, more) && Members(reported, more)
    ensures known + SetOf(cycle) <= reported
  {
    if known * SetOf(cycle) == {} {
      var first := First(bases, cycle);
      forall x | x in cycle
        ensures x !in known
      {
        assert x in SetOf(cycle) && x !in known * SetOf(cycle);
      }
      CycleIsNew(rings, known, cycle);
      AddReport(bases, before, rings, first, cycle);
      MembersMore(known, rings, cycle);
      return before + [first], known + SetOf(cycle), rings + [cycle];
    } else {
      ghost var x :| x in known * SetOf(cycle);
      CycleIsOld(bases, rings, cycle, x);
      return before, known, rings;
    }
  }

  /** Follow the bases from `start`, and record the cycle they close, if any. */
  method ReportFrom(bases: Bases, ghost starts: seq<string>, start: string, before: seq<string>, known: set<string>,
                    ghost rings: seq<seq<string>>)
    returns (reports: seq<string>, reported: set<string>, ghost more: seq<seq<string>>)
    requires Recorded(bases, before, rings) && Members(known, rings) && Covered(bases, starts, known)
    ensures Recorded(bases, reports, more) && Members(reported, more)
    ensures Covered(bases, starts + [start], reported)
  {
    reports, reported, more := before, known, rings;
    var seen, current := Follow(bases, start);
    if current in seen {
      ChainCloses(bases, seen, current);
      reports, reported, more := Record(bases, seen[IndexOf(seen, current)..], before, known, rings);
    }
    CoveredMore(bases, starts, known, start, reported, seen, current);
  }

  /** One report for each cycle, at its first member, and none for anything else. */
  method CycleReports(bases: Bases, starts: seq<string>) returns (reports: seq<string>)
    requires forall name :: name in starts <==> name in bases
    ensures forall i | 0 <= i < |reports| :: FirstOfSome(bases, reports[i])
    ensures forall ring | Ring(bases, ring) :: ReportedOnce(reports, ring)
  {
    reports := [];
    var reported: set<string> := {};
    ghost var rings: seq<seq<string>> := [];
    for s := 0 to |starts|
      invariant Recorded(bases, reports, rings)
      invariant Members(reported, rings)
      invariant Covered(bases, starts[..s], reported)
    {
      reports, reported, rings := ReportFrom(bases, starts[..s], starts[s], reports, reported, rings);
      assert starts[..s + 1] == starts[..s] + [starts[s]];
    }
    assert starts[..|starts|] == starts;
    AllFound(bases, starts, reported, rings);
    RecordIsComplete(bases, reports, rings);
  }
}
