/** Keeping a copy of what an installation will write, and putting it back. */
module Rollback {
  import opened Base
  import opened FileTree
  import Decimal

  /** What asking about a path says: what is there, that nothing is, or an error of another kind. */
  datatype Meta = Found(node: Node) | Missing | Unknown

  datatype Entry = Entry(target: Path, copy: Option<Path>)

  /** The names of a directory, each once, in some order. */
  ghost predicate Lists(names: seq<string>, entries: map<string, Node>) {
    (forall i, j | 0 <= i < j < |names| :: names[i] != names[j]) && forall x :: x in names <==> x in entries
  }

  /** The filesystem. Every call may fail for a reason of its own. */
  class FileSystem {
    var root: Node

    constructor (root: Node)
      ensures this.root == root
    {
      this.root := root;
    }

    method SymlinkMetadata(path: Path) returns (meta: Meta)
      ensures meta.Found? ==> Get(root, path) == Some(meta.node)
      ensures meta.Missing? ==> Get(root, path).None?
    {
      if * {
        meta := Unknown;
      } else {
        meta := if Get(root, path).Some? then Found(Get(root, path).value) else Missing;
      }
    }

    /** Make a new link or an empty directory. */
    method Create(path: Path, node: Node) returns (ok: bool)
      modifies this
      ensures ok ==> HasParent(old(root), path) && Get(old(root), path).None? && root == Put(old(root), path, node)
      ensures !ok ==> root == old(root)
    {
      if * {
        return false;
      }
      ok := HasParent(root, path) && Get(root, path).None?;
      if ok {
        root := Put(root, path, node);
      }
    }

    /** Set the permissions of a directory. */
    method SetMode(path: Path, mode: nat) returns (ok: bool)
      modifies this
      ensures ok ==>
        && Get(old(root), path).Some? && Get(old(root), path).value.Dir? && HasParent(old(root), path)
        && root == Put(old(root), path, Dir(mode, Get(old(root), path).value.entries))
      ensures !ok ==> root == old(root)
    {
      if * {
        return false;
      }
      var node := Get(root, path);
      ok := node.Some? && node.value.Dir?;
      if ok {
        GetHasParent(root, path);
        root := Put(root, path, Dir(mode, node.value.entries));
      }
    }

    method ReadDir(path: Path) returns (names: Option<seq<string>>)
      ensures names.Some? ==>
        Get(root, path).Some? && Get(root, path).value.Dir? && Lists(names.value, Get(root, path).value.entries)
    {
      if * {
        return None;
      }
      var node := Get(root, path);
      if node.None? || !node.value.Dir? {
        return None;
      }
      var list: seq<string>, left := [], node.value.entries.Keys;
      while left != {}
        invariant left <= node.value.entries.Keys
        invariant forall i, j | 0 <= i < j < |list| :: list[i] != list[j]
        invariant forall x :: x in list <==> x in node.value.entries.Keys - left
        decreases left
      {
        var x :| x in left;
        assert x !in list;
        list, left := list + [x], left - {x};
      }
      return Some(list);
    }

    /** Copy a file's contents and permissions; a copy that fails may leave something behind. */
    method CopyFile(from: Path, to: Path) returns (ok: bool)
      modifies this
      ensures ok ==>
        && Get(old(root), from).Some? && Get(old(root), from).value.File? && HasParent(old(root), to)
        && root == Put(old(root), to, Get(old(root), from).value)
    {
      var node, there := Get(root, from), Get(root, to);
      ok := node.Some? && node.value.File? && HasParent(root, to) && (there.Some? ==> there.value.File?);
      if ok {
        if * {
          var partial: Node := *;
          root := Put(root, to, partial);
          ok := false;
        } else {
          root := Put(root, to, node.value);
        }
      }
    }

    /** Remove a directory and everything in it; a removal that fails may have removed some of it. */
    method RemoveDirAll(path: Path) returns (ok: bool)
      requires path != []
      modifies this
      ensures ok ==> root == Without(old(root), path)
      ensures forall q | Apart(path, q) :: Get(root, q) == Get(old(root), q)
    {
      forall q | Apart(path, q)
        ensures Get(Without(root, path), q) == Get(root, q)
      {
        GetWithoutApart(root, path, q);
      }
      if * {
        if HasParent(root, path) {
          var rest: Node := *;
          forall q | Apart(path, q)
            ensures Get(Put(root, path, rest), q) == Get(root, q)
          {
            GetPutApart(root, path, rest, q);
          }
          root := Put(root, path, rest);
        }
        return false;
      }
      root := Without(root, path);
      ok := true;
    }

    method RemoveFile(path: Path) returns (ok: bool)
      requires path != []
      modifies this
      ensures ok ==> root == Without(old(root), path)
    {
      if * {
        return false;
      }
      root := Without(root, path);
      ok := true;
    }

    /** Put at one path a node equal to the one at another, of whatever kind. */
    method CopyTree(from: Path, to: Path, ghost node: Node) returns (ok: bool)
      requires Apart(from, to) && (Get(root, from).Some? ==> Get(root, from).value == node)
      modifies this
      ensures ok ==> Get(old(root), from) == Some(node) && HasParent(old(root), to) && root == Put(old(root), to, node)
      decreases node
    {
      var meta := SymlinkMetadata(from);
      if !meta.Found? {
        return false;
      }
      match meta.node
      case Link(target) =>
        ok := Create(to, meta.node);
      case File(_, _) =>
        ok := CopyFile(from, to);
      case Dir(mode, entries) =>
        ok := Create(to, Dir(0, map[]));
        if ok {
          ghost var start := root;
          GetPut(old(root), to, Dir(0, map[]));
          ok := SetMode(to, mode);
          if ok {
            PutTwice(old(root), to, Dir(0, map[]), Dir(mode, map[]));
            GetPutApart(old(root), to, Dir(mode, map[]), from);
            ok := CopyChildren(from, to, mode, old(root), node);
          }
        }
    }

    method CopyChildren(from: Path, to: Path, mode: nat, ghost before: Node, ghost node: Node) returns (ok: bool)
      requires Apart(from, to) && node.Dir? && node.mode == mode && Get(before, from) == Some(node)
      requires HasParent(before, to) && root == Put(before, to, Dir(mode, map[]))
      modifies this
      ensures ok ==> root == Put(before, to, node)
      decreases node, 0
    {
      GetPutApart(before, to, Dir(mode, map[]), from);
      var names := ReadDir(from);
      if names.None? {
        return false;
      }
      ghost var done: map<string, Node> := map[];
      for i := 0 to |names.value|
        invariant root == Put(before, to, Dir(mode, done))
        invariant forall x :: x in done <==> x in names.value[..i]
        invariant forall x | x in done :: x in node.entries && done[x] == node.entries[x]
      {
        var name := names.value[i];
        assert name in names.value;
        ghost var child := node.entries[name];
        GetPutApart(before, to, Dir(mode, done), from);
        GetJoin(root, from, [name]);
        assert Get(node, [name]) == Some(child) by { assert [name][1..] == []; }
        ApartBelow(from, to, name);
        ok := CopyTree(from + [name], to + [name], child);
        if !ok {
          return;
        }
        PutChild(before, to, mode, done, name, child);
        done := done[name := child];
        assert names.value[..i + 1] == names.value[..i] + [name];
      }
      assert names.value[..|names.value|] == names.value;
      assert done == node.entries;
      ok := true;
    }

    /** Make a directory and every folder on the way to it, and make it private. */
    method PrivateDir(path: Path) returns (ok: bool)
      requires path != []
      modifies this
      ensures forall q | Apart(path, q) :: Get(root, q) == Get(old(root), q)
    {
      for i := 1 to |path| + 1
        invariant forall q | Apart(path, q) :: Get(root, q) == Get(old(root), q)
      {
        var part := path[..i];
        var meta := SymlinkMetadata(part);
        if meta.Missing? {
          ghost var before := root;
          var made := Create(part, Dir(0x1ff, map[]));
          if !made {
            return false;
          }
          forall q | Apart(path, q)
            ensures Get(root, q) == Get(before, q)
          {
            NewFolder(before, path, i, q);
          }
        } else if meta.Unknown? || !meta.node.Dir? {
          return false;
        }
      }
      ghost var before := root;
      ok := SetMode(path, 0x1c0);
      if ok {
        forall q | Apart(path, q)
          ensures Get(root, q) == Get(before, q)
        {
          GetPutApart(before, path, Dir(0x1c0, Get(before, path).value.entries), q);
        }
      }
    }

    method RemoveTree(path: Path) returns (ok: bool)
      requires path != []
      modifies this
      ensures ok ==> root == Without(old(root), path)
    {
      var meta := SymlinkMetadata(path);
      match meta
      case Found(node) =>
        if node.Dir? {
          ok := RemoveDirAll(path);
        } else {
          ok := RemoveFile(path);
        }
      case Missing =>
        WithoutAbsent(root, path);
        ok := true;
      case Unknown =>
        ok := false;
    }
  }

  lemma PrefixAbove(p: Path, q: Path, name: string)
    ensures p + [name] <= q + [name] ==> p <= q
  {
    if p + [name] <= q + [name] {
      assert p == (p + [name])[..|p|] == (q + [name])[..|p|] == q[..|p|];
    }
  }

  lemma ApartBelow(from: Path, to: Path, name: string)
    requires Apart(from, to)
    ensures Apart(from + [name], to + [name])
  {
    PrefixAbove(from, to, name);
    PrefixAbove(to, from, name);
  }

  // ------------------------------------------------------------------ keeping and putting back

  /** Where the copy of the target at `i` goes. */
  function CopyPath(dir: Path, i: nat): Path {
    dir + [Decimal.Text(i)]
  }

  lemma CopyPathsApart(dir: Path, i: nat, j: nat)
    requires i != j
    ensures Apart(CopyPath(dir, i), CopyPath(dir, j))
  {
    Decimal.ValueOfText(i);
    Decimal.ValueOfText(j);
    assert CopyPath(dir, i)[|dir|] != CopyPath(dir, j)[|dir|];
  }

  lemma RelatedThroughCopy(dir: Path, i: nat, target: Path)
    ensures CopyPath(dir, i) <= target ==> dir <= target
    ensures target <= CopyPath(dir, i) ==> target <= dir || dir <= target
  {
    var copy := CopyPath(dir, i);
    if copy <= target {
      assert dir == copy[..|dir|] == target[..|dir|];
    }
    if target <= copy {
      if |target| <= |dir| {
        assert target == copy[..|target|] == dir[..|target|];
      } else {
        assert target == copy && dir == copy[..|dir|];
      }
    }
  }

  lemma CopyPathApart(dir: Path, i: nat, target: Path)
    requires Apart(dir, target)
    ensures Apart(CopyPath(dir, i), target)
  {
    RelatedThroughCopy(dir, i, target);
  }

  predicate Targets(dir: Path, targets: seq<Path>) {
    forall i | 0 <= i < |targets| :: targets[i] != [] && Apart(dir, targets[i])
  }

  /** Entry by entry: the target, and where its copy is if there is one. */
  predicate Entries(dir: Path, targets: seq<Path>, entries: seq<Entry>) {
    && |entries| == |targets|
    && forall i | 0 <= i < |entries| ::
      entries[i].target == targets[i] && (entries[i].copy.Some? ==> entries[i].copy.value == CopyPath(dir, i))
  }

  /** The copies hold what was at their targets in `before`. */
  predicate Kept(before: Node, now: Node, entries: seq<Entry>) {
    forall i | 0 <= i < |entries| && entries[i].copy.Some? ::
      Get(before, entries[i].target).Some? && Get(now, entries[i].copy.value) == Get(before, entries[i].target)
  }

  /** Every target without a copy was truly absent. */
  predicate AllAbsent(before: Node, entries: seq<Entry>) {
    forall i | 0 <= i < |entries| && entries[i].copy.None? :: Get(before, entries[i].target).None?
  }

  /** Every target from `from` on is as it was. */
  predicate AsBefore(before: Node, now: Node, targets: seq<Path>, from: nat) {
    forall i | from <= i < |targets| :: Get(now, targets[i]) == Get(before, targets[i])
  }

  /** Copy aside what is at each target. A target that cannot be looked at counts as absent. */
  method Take(fs: FileSystem, dir: Path, targets: seq<Path>) returns (entries: Option<seq<Entry>>)
    requires dir != [] && Targets(dir, targets)
    modifies fs
    ensures entries.Some? ==>
      Entries(dir, targets, entries.value) && Kept(old(fs.root), fs.root, entries.value)
      && AsBefore(old(fs.root), fs.root, targets, 0)
  {
    ghost var before := fs.root;
    var removed := fs.RemoveDirAll(dir);
    var made := fs.PrivateDir(dir);
    if !made {
      return None;
    }
    var list: seq<Entry> := [];
    for i := 0 to |targets|
      invariant Entries(dir, targets[..i], list) && Kept(before, fs.root, list)
      invariant AsBefore(before, fs.root, targets, 0)
    {
      var meta := fs.SymlinkMetadata(targets[i]);
      var copy: Option<Path> := None;
      ghost var start := fs.root;
      if meta.Found? {
        CopyPathApart(dir, i, targets[i]);
        var ok := fs.CopyTree(targets[i], CopyPath(dir, i), meta.node);
        if !ok {
          return None;
        }
        PutAside(before, start, dir, targets, list, i, meta.node);
        copy := Some(CopyPath(dir, i));
      }
      list := list + [Entry(targets[i], copy)];
    }
    assert targets[..|targets|] == targets;
    return Some(list);
  }

  /** Putting one more copy aside leaves the targets and the earlier copies. */
  lemma {:induction false} PutAside(before: Node, start: Node, dir: Path, targets: seq<Path>, list: seq<Entry>,
                                    i: nat, node: Node)
    requires Targets(dir, targets) && AsBefore(before, start, targets, 0) && i < |targets|
    requires Entries(dir, targets[..i], list) && Kept(before, start, list)
    requires HasParent(start, CopyPath(dir, i))
    ensures var now := Put(start, CopyPath(dir, i), node);
      AsBefore(before, now, targets, 0) && Get(now, CopyPath(dir, i)) == Some(node) && Kept(before, now, list)
  {
    var now := Put(start, CopyPath(dir, i), node);
    GetPut(start, CopyPath(dir, i), node);
    forall k | 0 <= k < |targets|
      ensures Get(now, targets[k]) == Get(start, targets[k])
    {
      CopyPathApart(dir, i, targets[k]);
      GetPutApart(start, CopyPath(dir, i), node, targets[k]);
    }
    forall k | 0 <= k < i && list[k].copy.Some?
      ensures Get(now, list[k].copy.value) == Get(start, list[k].copy.value)
    {
      CopyPathsApart(dir, i, k);
      GetPutApart(start, CopyPath(dir, i), node, CopyPath(dir, k));
    }
  }

  // ------------------------------------------------------------------ one target put back

  /** The target was removed and, if something was saved, that was put in its place. */
  ghost predicate Replaced(here: Node, after: Node, target: Path, saved: Option<Node>)
    requires target != []
  {
    var cleared := Without(here, target);
    match saved
    case None => after == cleared
    case Some(node) => HasParent(cleared, target) && after == Put(cleared, target, node)
  }

  lemma {:induction false} ReplacedAt(here: Node, after: Node, target: Path, saved: Option<Node>)
    requires target != [] && Replaced(here, after, target, saved)
    ensures Get(after, target) == saved
    ensures Get(here, target) == saved ==> after == here
  {
    GetWithout(here, target);
    if saved.Some? {
      GetPut(Without(here, target), target, saved.value);
      if Get(here, target) == saved {
        PutBack(here, target, saved.value);
      }
    } else if Get(here, target).None? {
      WithoutAbsent(here, target);
    }
  }

  lemma {:induction false} ReplacedApart(here: Node, after: Node, target: Path, saved: Option<Node>, q: Path)
    requires target != [] && Replaced(here, after, target, saved) && Apart(target, q)
    ensures Get(after, q) == Get(here, q)
  {
    GetWithoutApart(here, target, q);
    if saved.Some? {
      GetPutApart(Without(here, target), target, saved.value, q);
    }
  }

  /** Above the target, a replacement is one further down. */
  lemma {:induction false} ReplacedAbove(here: Node, after: Node, target: Path, saved: Option<Node>, q: Path)
    requires target != [] && Replaced(here, after, target, saved) && q <= target && q != target
    ensures Get(here, q).Some? == Get(after, q).Some?
    ensures Get(here, q).Some? ==> Replaced(Get(here, q).value, Get(after, q).value, target[|q|..], saved)
    decreases |q|
  {
    if Get(here, q).None? {
      assert target == q + target[|q|..];
      GetJoin(here, q, target[|q|..]);
      WithoutAbsent(here, target);
      if saved.Some? {
        ParentIsThere(here, target, q);
      }
    } else if q == [] {
      assert target[0..] == target;
    } else {
      var name := target[0];
      assert target[1..][..|q| - 1] == q[1..] && target[1..][|q| - 1..] == target[|q|..];
      ReplacedInside(here, after, target, saved);
      ReplacedAbove(here.entries[name], after.entries[name], target[1..], saved, q[1..]);
    }
  }

  lemma ReplacedInside(here: Node, after: Node, target: Path, saved: Option<Node>)
    requires |target| > 1 && Replaced(here, after, target, saved) && here.Dir? && target[0] in here.entries
    ensures after.Dir? && target[0] in after.entries
    ensures Replaced(here.entries[target[0]], after.entries[target[0]], target[1..], saved)
  {
  }

  /** The same replacement makes the same of the same. */
  lemma {:induction false} ReplacedAlike(x: Node, x': Node, y: Node, y': Node, target: Path, saved: Option<Node>, q: Path)
    requires target != [] && Replaced(x, x', target, saved) && Replaced(y, y', target, saved)
    requires Get(x, q) == Get(y, q)
    ensures Get(x', q) == Get(y', q)
  {
    if target <= q {
      ReplacedAt(x, x', target, saved);
      ReplacedAt(y, y', target, saved);
      assert q == target + q[|target|..];
      GetJoin(x', target, q[|target|..]);
      GetJoin(y', target, q[|target|..]);
    } else if q <= target {
      ReplacedAbove(x, x', target, saved, q);
      ReplacedAbove(y, y', target, saved, q);
    } else {
      ReplacedApart(x, x', target, saved, q);
      ReplacedApart(y, y', target, saved, q);
    }
  }

  // ------------------------------------------------------------------ what is lost

  predicate AllPaths(ps: seq<Path>) {
    forall i | 0 <= i < |ps| :: ps[i] != []
  }

  /** The tree without any of these. */
  function Erased(root: Node, ps: seq<Path>): Node
    requires AllPaths(ps)
  {
    if ps == [] then root else Without(Erased(root, ps[1..]), ps[0])
  }

  /** Those that do not lie at or below `target`. */
  function Outside(ps: seq<Path>, target: Path): (r: seq<Path>)
    ensures forall p | p in r :: p in ps && !(target <= p)
    ensures forall p | p in ps && !(target <= p) :: p in r
  {
    if ps == [] then []
    else (if target <= ps[0] then [] else [ps[0]]) + Outside(ps[1..], target)
  }

  /** The targets removed from `from` on and not put back since: without a copy, and under no target with one since. */
  function Lost(entries: seq<Entry>, from: nat): seq<Path>
    requires from <= |entries|
    decreases |entries| - from
  {
    if from == |entries| then []
    else if entries[from].copy.Some? then Outside(Lost(entries, from + 1), entries[from].target)
    else [entries[from].target] + Lost(entries, from + 1)
  }

  /** The target at `i` was not copied, and lies under no target before it that was. */
  predicate IsLost(entries: seq<Entry>, from: nat, i: nat)
    requires from <= i < |entries|
  {
    entries[i].copy.None?
    && forall j | from <= j < i :: entries[j].copy.None? || !(entries[j].target <= entries[i].target)
  }

  lemma {:induction false} LostIs(entries: seq<Entry>, from: nat, p: Path)
    requires from <= |entries|
    ensures p in Lost(entries, from) <==> exists i :: from <= i < |entries| && entries[i].target == p && IsLost(entries, from, i)
    decreases |entries| - from
  {
    if from < |entries| {
      LostIs(entries, from + 1, p);
      if i :| from + 1 <= i < |entries| && entries[i].target == p && IsLost(entries, from + 1, i) {
        assert entries[from].copy.None? || !(entries[from].target <= p) ==> IsLost(entries, from, i);
      }
      if i :| from <= i < |entries| && entries[i].target == p && IsLost(entries, from, i) {
        assert i > from ==> IsLost(entries, from + 1, i);
      }
      assert entries[from].copy.None? ==> IsLost(entries, from, from);
    }
  }

  lemma {:induction false} LostArePaths(dir: Path, targets: seq<Path>, entries: seq<Entry>, from: nat)
    requires Targets(dir, targets) && Entries(dir, targets, entries) && from <= |entries|
    ensures AllPaths(Lost(entries, from))
  {
    forall k | 0 <= k < |Lost(entries, from)|
      ensures Lost(entries, from)[k] != []
    {
      LostIs(entries, from, Lost(entries, from)[k]);
    }
  }

  lemma {:induction false} ErasedGone(root: Node, ps: seq<Path>, p: Path)
    requires AllPaths(ps) && p in ps
    ensures Get(Erased(root, ps), p).None?
  {
    if p == ps[0] {
      GetWithout(Erased(root, ps[1..]), p);
    } else {
      ErasedGone(root, ps[1..], p);
      GetWithoutNone(Erased(root, ps[1..]), ps[0], p);
    }
  }

  lemma {:induction false} ErasedAbsent(root: Node, ps: seq<Path>)
    requires AllPaths(ps) && forall p | p in ps :: Get(root, p).None?
    ensures Erased(root, ps) == root
  {
    if ps != [] {
      ErasedAbsent(root, ps[1..]);
      assert ps[0] in ps;
      WithoutAbsent(root, ps[0]);
    }
  }

  lemma {:induction false} ErasedApart(root: Node, ps: seq<Path>, q: Path)
    requires AllPaths(ps) && forall p | p in ps :: Apart(p, q)
    ensures Get(Erased(root, ps), q) == Get(root, q)
  {
    if ps != [] {
      ErasedApart(root, ps[1..], q);
      assert ps[0] in ps;
      GetWithoutApart(Erased(root, ps[1..]), ps[0], q);
    }
  }

  /** What is erased at or below a path does not matter once the path is removed. */
  lemma {:induction false} ErasedOutside(root: Node, ps: seq<Path>, target: Path)
    requires AllPaths(ps) && target != [] && forall p | p in ps :: target <= p || Apart(p, target)
    ensures AllPaths(Outside(ps, target))
    ensures Without(Erased(root, ps), target) == Without(Erased(root, Outside(ps, target)), target)
  {
    if ps != [] {
      var rest, p := ps[1..], ps[0];
      assert p in ps;
      ErasedOutside(root, rest, target);
      var all, some := Erased(root, rest), Erased(root, Outside(rest, target));
      if target <= p {
        WithoutBelow(all, target, p);
        assert Outside(ps, target) == Outside(rest, target);
      } else {
        WithoutCommute(all, p, target);
        WithoutCommute(some, p, target);
        OutsideKeeps(ps, target);
      }
    }
  }

  lemma {:induction false} OutsideKeeps(ps: seq<Path>, target: Path)
    requires ps != [] && !(target <= ps[0])
    ensures Outside(ps, target) != [] && Outside(ps, target)[0] == ps[0] && Outside(ps, target)[1..] == Outside(ps[1..], target)
  {
  }

  // ------------------------------------------------------------------ all targets put back

  /** What is at the targets from `from` on is what was there before, without what is lost. */
  ghost predicate AsBeforeButLost(before: Node, now: Node, entries: seq<Entry>, from: nat)
    requires from <= |entries| && AllPaths(Lost(entries, from))
  {
    forall k | from <= k < |entries| :: Get(now, entries[k].target) == Get(Erased(before, Lost(entries, from)), entries[k].target)
  }

  /** A copy put back ends the loss of what lies under it. */
  lemma CopyMendsLost(before: Node, here: Node, after: Node, entries: seq<Entry>, i: nat, node: Node)
    requires i < |entries| && AllPaths(Lost(entries, i + 1)) && AllPaths(Lost(entries, i)) && entries[i].target != []
    requires entries[i].copy.Some? && Get(before, entries[i].target) == Some(node)
    requires AsBeforeButLost(before, here, entries, i + 1) && Replaced(here, after, entries[i].target, Some(node))
    ensures Replaced(Erased(before, Lost(entries, i + 1)), Erased(before, Lost(entries, i)), entries[i].target, Some(node))
  {
    var lost, target := Lost(entries, i + 1), entries[i].target;
    forall p | p in lost
      ensures target <= p || Apart(p, target)
    {
      ErasedGone(before, lost, p);
      LostIs(entries, i + 1, p);
      GetWithoutNone(here, target, p);
      if p <= target && p != target {
        ParentIsThere(Without(here, target), target, p);
      }
    }
    ErasedOutside(before, lost, target);
    ErasedApart(before, Outside(lost, target), target);
    PutBack(Erased(before, Outside(lost, target)), target, node);
  }

  /** What one step of `Restore` achieves. */
  lemma OneRestored(before: Node, here: Node, after: Node, dir: Path, targets: seq<Path>, entries: seq<Entry>, i: nat)
    requires Targets(dir, targets) && Entries(dir, targets, entries) && Kept(before, here, entries) && i < |entries|
    requires var saved := if entries[i].copy.Some? then Get(before, targets[i]) else None;
      Replaced(here, after, targets[i], saved)
    requires AllPaths(Lost(entries, i + 1)) && AsBeforeButLost(before, here, entries, i + 1)
    ensures Kept(before, after, entries)
    ensures AllPaths(Lost(entries, i)) && AsBeforeButLost(before, after, entries, i)
  {
    var saved := if entries[i].copy.Some? then Get(before, targets[i]) else None;
    LostArePaths(dir, targets, entries, i);
    var x, y := Erased(before, Lost(entries, i + 1)), Erased(before, Lost(entries, i));
    if entries[i].copy.Some? {
      CopyMendsLost(before, here, after, entries, i, saved.value);
    } else {
      assert Lost(entries, i)[1..] == Lost(entries, i + 1);
    }
    ReplacedAt(here, after, targets[i], saved);
    ReplacedAt(x, y, targets[i], saved);
    forall k | i < k < |entries|
      ensures Get(after, entries[k].target) == Get(y, entries[k].target)
    {
      ReplacedAlike(here, after, x, y, targets[i], saved, entries[k].target);
    }
    CopiesStay(here, after, dir, targets, entries, i, saved);
  }

  lemma {:induction false} CopiesStay(here: Node, after: Node, dir: Path, targets: seq<Path>, entries: seq<Entry>,
                                      i: nat, saved: Option<Node>)
    requires Targets(dir, targets) && Entries(dir, targets, entries) && i < |entries|
    requires Replaced(here, after, targets[i], saved)
    ensures forall k | 0 <= k < |entries| && entries[k].copy.Some? ::
      Get(after, entries[k].copy.value) == Get(here, entries[k].copy.value)
  {
    forall k | 0 <= k < |entries| && entries[k].copy.Some?
      ensures Get(after, entries[k].copy.value) == Get(here, entries[k].copy.value)
    {
      CopyPathApart(dir, k, targets[i]);
      ReplacedApart(here, after, targets[i], saved, CopyPath(dir, k));
    }
  }

  /** Whatever was there and was not copied lies under something that was, and is put back later. */
  predicate NothingLost(before: Node, entries: seq<Entry>) {
    forall i | 0 <= i < |entries| && IsLost(entries, 0, i) :: Get(before, entries[i].target).None?
  }

  /** With all steps done, every target is as before exactly when nothing was lost. */
  lemma {:induction false} RestoredExactly(before: Node, now: Node, dir: Path, targets: seq<Path>, entries: seq<Entry>)
    requires Targets(dir, targets) && Entries(dir, targets, entries)
    requires AllPaths(Lost(entries, 0)) && AsBeforeButLost(before, now, entries, 0)
    ensures AsBefore(before, now, targets, 0) <==> NothingLost(before, entries)
  {
    var lost := Lost(entries, 0);
    if NothingLost(before, entries) {
      forall p | p in lost
        ensures Get(before, p).None?
      {
        LostIs(entries, 0, p);
      }
      ErasedAbsent(before, lost);
    }
    forall i | 0 <= i < |entries| && IsLost(entries, 0, i)
      ensures Get(now, targets[i]).None?
    {
      LostIs(entries, 0, entries[i].target);
      ErasedGone(before, lost, entries[i].target);
    }
  }

  /**
   * Put every target back, last first. When every step succeeds, every target is as it was when the copies were
   * taken, whatever has happened to the filesystem since, if and only if each target that was there and was not
   * copied lies under one before it that was.
   */
  method Restore(fs: FileSystem, dir: Path, targets: seq<Path>, entries: seq<Entry>,
                 ghost before: Node) returns (whole: bool)
    requires Targets(dir, targets) && Entries(dir, targets, entries) && Kept(before, fs.root, entries)
    modifies fs
    ensures whole ==> (AsBefore(before, fs.root, targets, 0) <==> NothingLost(before, entries))
  {
    whole := true;
    LostArePaths(dir, targets, entries, |entries|);
    for i := |entries| downto 0
      invariant AllPaths(Lost(entries, i))
      invariant whole ==> Kept(before, fs.root, entries) && AsBeforeButLost(before, fs.root, entries, i)
    {
      var e := entries[i];
      ghost var here := fs.root;
      LostArePaths(dir, targets, entries, i);
      var ok := fs.RemoveTree(e.target);
      whole := whole && ok;
      if e.copy.Some? {
        CopyPathApart(dir, i, e.target);
        GetWithoutApart(here, e.target, e.copy.value);
        ghost var node := if Get(fs.root, e.copy.value).Some? then Get(fs.root, e.copy.value).value else Link([]);
        ok := fs.CopyTree(e.copy.value, e.target, node);
        whole := whole && ok;
      }
      if whole {
        OneRestored(before, here, fs.root, dir, targets, entries, i);
      }
    }
    if whole {
      RestoredExactly(before, fs.root, dir, targets, entries);
    }
  }

  /** When every target that was there could be copied, everything comes back. */
  lemma AllCopiedAllBack(before: Node, entries: seq<Entry>)
    requires AllAbsent(before, entries)
    ensures NothingLost(before, entries)
  {
  }

  /** For instance, a file that could not be looked at is removed and not put back. */
  lemma UnreadableFileIsLost(bytes: string, mode: nat)
    ensures var before := Dir(mode, map["a" := File(bytes, mode)]); var entries := [Entry(["a"], None)];
      && Targets(["copies"], [["a"]]) && Entries(["copies"], [["a"]], entries) && Kept(before, before, entries)
      && !NothingLost(before, entries)
      && Get(Erased(before, Lost(entries, 0)), ["a"]) == None
  {
    var before, entries := Dir(mode, map["a" := File(bytes, mode)]), [Entry(["a"], None)];
    assert ["copies"][0] != ["a"][0];
    assert Get(before, ["a"]) == Some(File(bytes, mode)) by {
      assert ["a"][1..] == [];
    }
    assert IsLost(entries, 0, 0);
    LostArePaths(["copies"], [["a"]], entries, 0);
    LostIs(entries, 0, ["a"]);
    ErasedGone(before, Lost(entries, 0), ["a"]);
  }

  /** But a file that could not be looked at comes back with the copied directory around it. */
  lemma {:induction false} UnreadableInsideComesBack(before: Node, target: Path, copy: Path, name: string)
    requires Get(before, target + [name]).Some?
    ensures var entries := [Entry(target, Some(copy)), Entry(target + [name], None)];
      NothingLost(before, entries) && !AllAbsent(before, entries)
  {
    var entries := [Entry(target, Some(copy)), Entry(target + [name], None)];
    assert entries[0].copy.Some? && entries[0].target <= entries[1].target;
    assert !IsLost(entries, 0, 1);
    assert !IsLost(entries, 0, 0);
    assert entries[1].copy.None?;
  }

  lemma PrefixOfPart(path: Path, i: nat, q: Path)
    requires i <= |path|
    ensures q <= path[..i] ==> q <= path
  {
    if q <= path[..i] {
      assert q == path[..i][..|q|] == path[..|q|];
    }
  }

  lemma {:induction false} NewFolder(before: Node, path: Path, i: nat, q: Path)
    requires 0 < i <= |path| && HasParent(before, path[..i]) && Get(before, path[..i]).None? && Apart(path, q)
    ensures Get(Put(before, path[..i], Dir(0x1ff, map[])), q) == Get(before, q)
  {
    var part := path[..i];
    var folder := Dir(0x1ff, map[]);
    if part <= q {
      var rest := q[i..];
      assert q == part + rest;
      GetPut(before, part, folder);
      GetJoin(Put(before, part, folder), part, rest);
      GetJoin(before, part, rest);
      assert rest != [] by {
        assert rest == [] ==> q == part;
      }
    } else {
      PrefixOfPart(path, i, q);
      GetPutApart(before, part, folder, q);
    }
  }
}
