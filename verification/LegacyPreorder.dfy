/** Which entries of a project an old app is given, and in which order, told by the paths that lead to them. */
module LegacyPreorder {
  import opened Base
  import opened LegacyTree

  /** A child by its place in its folder's listing, and so on downwards. */
  type Path = seq<nat>

  /** The path leads to a well-formed child, through folders that are well-formed and listed. */
  predicate Leads(list: Lister, answer: Listing, p: Path)
    decreases |p|
  {
    && p != [] && answer.Listed? && answer.children.Some? && p[0] < |answer.children.value|
    && var c := answer.children.value[p[0]];
       c.id.Some? && c.directory.Some? && (|p| == 1 || (c.directory.value && Leads(list, list(c.id.value), p[1..])))
  }

  /** The entry of the child that the path leads to. */
  function EntryAt(list: Lister, answer: Listing, p: Path): Entry
    requires Leads(list, answer, p)
    decreases |p|
  {
    var c := answer.children.value[p[0]];
    if |p| == 1 then Entry(c.id.value, c.directory.value, c.kind) else EntryAt(list, list(c.id.value), p[1..])
  }

  /** A folder comes before what is in it, and what is in an earlier child before a later child. */
  predicate Before(p: Path, q: Path) {
    q != [] && (p == [] || p[0] < q[0] || (p[0] == q[0] && Before(p[1..], q[1..])))
  }

  predicate Preorder(paths: seq<Path>) {
    forall i, j | 0 <= i < j < |paths| :: Before(paths[i], paths[j])
  }

  predicate Within(list: Lister, answer: Listing, lo: nat, hi: nat, n: nat, p: Path) {
    Leads(list, answer, p) && lo <= p[0] < hi && |p| <= n
  }

  /** The paths through the children from `lo` up to `hi` that are no longer than `n`, in order, and their entries. */
  ghost predicate Covers(list: Lister, answer: Listing, lo: nat, hi: nat, n: nat, paths: seq<Path>, es: seq<Entry>) {
    && Preorder(paths)
    && (forall p :: p in paths <==> Within(list, answer, lo, hi, n, p))
    && |paths| == |es|
    && forall k | 0 <= k < |paths| :: Leads(list, answer, paths[k]) && es[k] == EntryAt(list, answer, paths[k])
  }

  lemma JoinPreorder(a: seq<Path>, b: seq<Path>)
    requires Preorder(a) && Preorder(b) && forall p, q | p in a && q in b :: Before(p, q)
    ensures Preorder(a + b)
  {
    forall i, j | 0 <= i < j < |a + b|
      ensures Before((a + b)[i], (a + b)[j])
    {
      if i < |a| <= j {
        assert a[i] in a && b[j - |a|] in b;
      }
    }
  }

  lemma JoinCovers(list: Lister, answer: Listing, lo: nat, mid: nat, hi: nat, n: nat,
                   a: seq<Path>, ea: seq<Entry>, b: seq<Path>, eb: seq<Entry>)
    requires lo <= mid <= hi && Covers(list, answer, lo, mid, n, a, ea) && Covers(list, answer, mid, hi, n, b, eb)
    ensures Covers(list, answer, lo, hi, n, a + b, ea + eb)
  {
    forall p, q | p in a && q in b
      ensures Before(p, q)
    {
      assert Within(list, answer, lo, mid, n, p) && Within(list, answer, mid, hi, n, q);
    }
    JoinPreorder(a, b);
    forall p
      ensures p in a + b <==> Within(list, answer, lo, hi, n, p)
    {
      assert p in a + b <==> p in a || p in b;
    }
  }

  /** The same paths one folder further up. */
  function Under(i: nat, paths: seq<Path>): (r: seq<Path>)
    ensures |r| == |paths| && forall k | 0 <= k < |r| :: r[k] == [i] + paths[k]
  {
    seq(|paths|, k requires 0 <= k < |paths| => [i] + paths[k])
  }

  lemma UnderHas(i: nat, paths: seq<Path>, p: Path)
    ensures p in Under(i, paths) <==> p != [] && p[0] == i && p[1..] in paths
  {
    var r := Under(i, paths);
    if p in r {
      var k :| 0 <= k < |r| && r[k] == p;
      assert p[1..] == paths[k];
    }
    if p != [] && p[0] == i && p[1..] in paths {
      var k :| 0 <= k < |paths| && paths[k] == p[1..];
      assert r[k] == [i] + p[1..] == p;
    }
  }

  lemma UnderPreorder(i: nat, paths: seq<Path>)
    requires Preorder(paths) && forall p | p in paths :: p != []
    ensures Preorder([[i]] + Under(i, paths))
  {
    var r := [[i]] + Under(i, paths);
    forall j, k | 0 <= j < k < |r|
      ensures Before(r[j], r[k])
    {
      assert r[k] == [i] + paths[k - 1] && r[k][1..] == paths[k - 1] && paths[k - 1] in paths;
      if j == 0 {
        assert r[0][1..] == [];
      } else {
        assert r[j] == [i] + paths[j - 1] && r[j][1..] == paths[j - 1];
      }
    }
  }

  /** What is below a child: the contents of a folder, and nothing otherwise. */
  ghost predicate CoversBelow(list: Lister, c: Child, n: nat, below: seq<Path>, eb: seq<Entry>)
    requires c.id.Some? && c.directory.Some?
  {
    if c.directory.value then Covers(list, list(c.id.value), 0, Size(list(c.id.value)), n, below, eb) else below == [] && eb == []
  }

  lemma {:induction false} LeadsInside(list: Lister, answer: Listing, p: Path)
    ensures Leads(list, answer, p) ==> p[0] < Size(answer)
  {
  }

  lemma {:induction false} BelowHas(list: Lister, answer: Listing, i: nat, n: nat, below: seq<Path>, eb: seq<Entry>, p: Path)
    requires Leads(list, answer, [i]) && CoversBelow(list, answer.children.value[i], n, below, eb)
    ensures p != [] && p[0] == i && p[1..] in below <==> Within(list, answer, i, i + 1, n + 1, p) && |p| > 1
  {
    var c := answer.children.value[i];
    if p != [] && p[0] == i {
      LeadsInside(list, list(c.id.value), p[1..]);
    }
    if c.directory.value && p != [] && p[0] == i {
      assert p[1..] in below <==> Within(list, list(c.id.value), 0, Size(list(c.id.value)), n, p[1..]);
    }
  }

  /** A child's own entry, and then what is below it. */
  lemma {:induction false} NestCovers(list: Lister, answer: Listing, i: nat, n: nat, below: seq<Path>, eb: seq<Entry>)
    requires Leads(list, answer, [i]) && CoversBelow(list, answer.children.value[i], n, below, eb)
    ensures Covers(list, answer, i, i + 1, n + 1, [[i]] + Under(i, below), [EntryOf(answer.children.value[i])] + eb)
  {
    var c := answer.children.value[i];
    var paths, es := [[i]] + Under(i, below), [EntryOf(c)] + eb;
    forall p | p in below
      ensures p != [] && c.directory.value && Leads(list, list(c.id.value), p)
    {
      assert Within(list, list(c.id.value), 0, Size(list(c.id.value)), n, p);
    }
    UnderPreorder(i, below);
    forall p
      ensures p in paths <==> Within(list, answer, i, i + 1, n + 1, p)
    {
      UnderHas(i, below, p);
      BelowHas(list, answer, i, n, below, eb, p);
      assert p in paths <==> p == [i] || p in Under(i, below);
    }
    forall k | 0 <= k < |paths|
      ensures Leads(list, answer, paths[k]) && es[k] == EntryAt(list, answer, paths[k])
    {
      if k > 0 {
        assert paths[k] == [i] + below[k - 1] && paths[k][1..] == below[k - 1] && below[k - 1] in below;
      }
    }
  }

  /** How many children the listing has. */
  function Size(answer: Listing): nat {
    if answer.Listed? && answer.children.Some? then |answer.children.value| else 0
  }

  lemma NothingCovers(list: Lister, answer: Listing, lo: nat, n: nat)
    ensures Covers(list, answer, lo, lo, n, [], [])
  {
  }

  /** The walk's entries in a folder are those its paths lead to, in preorder. */
  lemma {:induction false} FolderCovers(list: Lister, answer: Listing, depth: nat) returns (paths: seq<Path>)
    requires depth <= 12
    ensures Covers(list, answer, 0, Size(answer), 13 - depth, paths, Entries(FolderItems(list, answer, depth)))
    decreases 12 - depth, 2, 0
  {
    if Size(answer) > 0 {
      var head: seq<Item> := if answer.truncated then [LeftOut] else [];
      var children := answer.children.value;
      paths := ChildrenCover(list, answer, |children|, depth);
      assert children[..|children|] == children && head[..0] == [];
      EntriesJoin(head, ChildrenItems(list, children, depth));
      assert Entries(head) == [];
      assert Entries(FolderItems(list, answer, depth)) == Entries(ChildrenItems(list, children, depth));
    } else {
      NothingCovers(list, answer, 0, 13 - depth);
      paths := [];
      NoEntries(list, answer, depth);
    }
  }

  lemma {:induction false} NoEntries(list: Lister, answer: Listing, depth: nat)
    requires depth <= 12 && Size(answer) == 0
    ensures Entries(FolderItems(list, answer, depth)) == []
  {
    assert [LeftOut][..0] == [] && Entries([LeftOut]) == [];
    var some: seq<Item> := [LeftOut];
    assert some + [] == some;
  }

  lemma {:induction false} ChildrenCover(list: Lister, answer: Listing, n: nat, depth: nat) returns (paths: seq<Path>)
    requires depth <= 12 && answer.Listed? && answer.children.Some? && n <= |answer.children.value|
    ensures Covers(list, answer, 0, n, 13 - depth, paths, Entries(ChildrenItems(list, answer.children.value[..n], depth)))
    decreases 12 - depth, 1, n
  {
    if n == 0 {
      NothingCovers(list, answer, 0, 13 - depth);
      paths := [];
    } else {
      var some := answer.children.value[..n];
      assert some[..n - 1] == answer.children.value[..n - 1];
      var before := ChildrenCover(list, answer, n - 1, depth);
      var last := ChildCovers(list, answer, n - 1, depth);
      var a, b := ChildrenItems(list, some[..n - 1], depth), ChildItems(list, some[n - 1], depth);
      EntriesJoin(a, b);
      JoinCovers(list, answer, 0, n - 1, n, 13 - depth, before, Entries(a), last, Entries(b));
      paths := before + last;
    }
  }

  lemma {:induction false} ChildCovers(list: Lister, answer: Listing, i: nat, depth: nat) returns (paths: seq<Path>)
    requires depth <= 12 && answer.Listed? && answer.children.Some? && i < |answer.children.value|
    ensures Covers(list, answer, i, i + 1, 13 - depth, paths, Entries(ChildItems(list, answer.children.value[i], depth)))
    decreases 12 - depth, 0, 1
  {
    var c := answer.children.value[i];
    if WellFormed(c) {
      var inside := BelowCovers(list, c, depth);
      ChildEntries(list, c, depth);
      NestCovers(list, answer, i, 12 - depth, inside, Entries(Below(list, c, depth)));
      paths := [[i]] + Under(i, inside);
    } else {
      paths := [];
      assert [Reach][..0] == [] && Entries([Reach]) == [];
      UnformedCovers(list, answer, i, 13 - depth);
    }
  }

  lemma {:induction false} ChildEntries(list: Lister, c: Child, depth: nat)
    requires depth <= 12 && WellFormed(c)
    ensures Entries(ChildItems(list, c, depth)) == [EntryOf(c)] + Entries(Below(list, c, depth))
  {
    var head := [Reach, Put(EntryOf(c))];
    assert [Reach][..0] == [] && Entries([Reach]) == [];
    assert head[..1] == [Reach] && Entries(head) == [EntryOf(c)];
    EntriesJoin(head, Below(list, c, depth));
  }

  lemma {:induction false} BelowCovers(list: Lister, c: Child, depth: nat) returns (paths: seq<Path>)
    requires depth <= 12 && WellFormed(c)
    ensures CoversBelow(list, c, 12 - depth, paths, Entries(Below(list, c, depth)))
    decreases 12 - depth, 0, 0
  {
    if c.directory.value && depth + 1 <= 12 {
      paths := FolderCovers(list, list(c.id.value), depth + 1);
    } else {
      paths := [];
      assert [LeftOut][..0] == [] && Entries(Below(list, c, depth)) == [];
      NoneCovers(list, list(c.id.value));
    }
  }

  lemma NoneCovers(list: Lister, answer: Listing)
    ensures Covers(list, answer, 0, Size(answer), 0, [], [])
  {
  }

  lemma UnformedCovers(list: Lister, answer: Listing, i: nat, n: nat)
    requires answer.Listed? && answer.children.Some? && i < |answer.children.value| && !WellFormed(answer.children.value[i])
    ensures Covers(list, answer, i, i + 1, n, [], [])
  {
  }

  /**
   * The answer for a project is the entries of its well-formed children down to the thirteenth level, a folder before
   * what is in it and the children of a folder in their order, and of these the first 4096.
   */
  lemma AnswerIsPreorder(list: Lister, root: Listing) returns (paths: seq<Path>)
    ensures Preorder(paths) && forall p :: p in paths <==> Leads(list, root, p) && |p| <= 13
    ensures var es := Take(FolderItems(list, root, 0), Answer([], false)).entries;
      && |es| == (if |paths| <= 4096 then |paths| else 4096)
      && forall k | 0 <= k < |es| :: Leads(list, root, paths[k]) && es[k] == EntryAt(list, root, paths[k])
  {
    paths := FolderCovers(list, root, 0);
    TakeIsFirst(FolderItems(list, root, 0));
    forall p
      ensures Leads(list, root, p) ==> p[0] < Size(root)
    {
      LeadsInside(list, root, p);
    }
  }
}
