/** A filesystem as a tree, and what a change at one path leaves alone elsewhere. */
module FileTree {
  import opened Base

  datatype Node =
    | File(bytes: string, mode: nat)
    | Link(to: string)
    | Dir(mode: nat, entries: map<string, Node>)

  type Path = seq<string>

  /** What is at `path`; a path through anything but directories leads nowhere. */
  function Get(root: Node, path: Path): Option<Node> {
    if path == [] then Some(root)
    else if root.Dir? && path[0] in root.entries then Get(root.entries[path[0]], path[1..])
    else None
  }

  /** Every folder on the way to `path` is there. */
  predicate HasParent(root: Node, path: Path) {
    path == [] || (root.Dir? && (|path| == 1 || (path[0] in root.entries && HasParent(root.entries[path[0]], path[1..]))))
  }

  function Put(root: Node, path: Path, node: Node): Node
    requires HasParent(root, path)
  {
    if path == [] then node
    else if |path| == 1 then Dir(root.mode, root.entries[path[0] := node])
    else Dir(root.mode, root.entries[path[0] := Put(root.entries[path[0]], path[1..], node)])
  }

  function Without(root: Node, path: Path): Node
    requires path != []
  {
    if !root.Dir? || path[0] !in root.entries then root
    else if |path| == 1 then Dir(root.mode, root.entries - {path[0]})
    else Dir(root.mode, root.entries[path[0] := Without(root.entries[path[0]], path[1..])])
  }

  /** Neither path is at or below the other. */
  predicate Apart(p: Path, q: Path) {
    !(p <= q) && !(q <= p)
  }

  lemma {:induction false} ApartTail(p: Path, q: Path)
    requires Apart(p, q) && p[0] == q[0]
    ensures Apart(p[1..], q[1..])
  {
    assert p == [p[0]] + p[1..] && q == [q[0]] + q[1..];
  }

  lemma {:induction false} GetJoin(root: Node, p: Path, q: Path)
    ensures Get(root, p + q) == match Get(root, p) case None => None case Some(node) => Get(node, q)
    decreases |p|
  {
    if p == [] {
      assert p + q == q;
    } else {
      assert (p + q)[1..] == p[1..] + q;
      if root.Dir? && p[0] in root.entries {
        GetJoin(root.entries[p[0]], p[1..], q);
      }
    }
  }

  lemma {:induction false} GetHasParent(root: Node, path: Path)
    requires Get(root, path).Some?
    ensures HasParent(root, path)
    decreases |path|
  {
    if |path| > 1 {
      GetHasParent(root.entries[path[0]], path[1..]);
    }
  }

  lemma {:induction false} GetPut(root: Node, path: Path, node: Node)
    requires HasParent(root, path)
    ensures Get(Put(root, path, node), path) == Some(node)
    decreases |path|
  {
    if |path| == 1 {
      assert path[1..] == [];
    } else if |path| > 1 {
      GetPut(root.entries[path[0]], path[1..], node);
    }
  }

  lemma {:induction false} GetPutApart(root: Node, path: Path, node: Node, q: Path)
    requires HasParent(root, path) && Apart(path, q)
    ensures Get(Put(root, path, node), q) == Get(root, q)
    decreases |path|
  {
    if path[0] == q[0] {
      ApartTail(path, q);
      if |path| > 1 {
        GetPutApart(root.entries[path[0]], path[1..], node, q[1..]);
      }
    }
  }

  lemma {:induction false} GetWithoutApart(root: Node, path: Path, q: Path)
    requires path != [] && Apart(path, q)
    ensures Get(Without(root, path), q) == Get(root, q)
    decreases |path|
  {
    if path[0] == q[0] {
      ApartTail(path, q);
      if |path| > 1 && root.Dir? && path[0] in root.entries {
        GetWithoutApart(root.entries[path[0]], path[1..], q[1..]);
      }
    }
  }

  lemma {:induction false} GetWithout(root: Node, path: Path)
    requires path != []
    ensures Get(Without(root, path), path).None?
    decreases |path|
  {
    if |path| > 1 && root.Dir? && path[0] in root.entries {
      GetWithout(root.entries[path[0]], path[1..]);
    }
  }

  /** Removing what is not there changes nothing. */
  lemma {:induction false} WithoutAbsent(root: Node, path: Path)
    requires path != [] && Get(root, path).None?
    ensures Without(root, path) == root
    decreases |path|
  {
    if |path| > 1 && root.Dir? && path[0] in root.entries {
      WithoutAbsent(root.entries[path[0]], path[1..]);
      assert root.entries[path[0] := root.entries[path[0]]] == root.entries;
    } else if |path| == 1 {
      assert path[1..] == [];
    }
  }

  /** Putting back what was removed restores the tree. */
  lemma {:induction false} PutBack(root: Node, path: Path, node: Node)
    requires path != [] && Get(root, path) == Some(node)
    ensures HasParent(Without(root, path), path) && Put(Without(root, path), path, node) == root
    decreases |path|
  {
    if |path| == 1 {
      assert path[1..] == [];
      assert (root.entries - {path[0]})[path[0] := node] == root.entries;
    } else {
      var child := root.entries[path[0]];
      PutBack(child, path[1..], node);
      assert root.entries[path[0] := Without(child, path[1..])][path[0] := child] == root.entries;
    }
  }

  /** Putting a child into a directory just put is putting the fuller directory. */
  lemma {:induction false} PutChild(root: Node, path: Path, mode: nat, entries: map<string, Node>, name: string, child: Node)
    requires HasParent(root, path)
    ensures var dir := Put(root, path, Dir(mode, entries));
      HasParent(dir, path + [name])
      && Put(dir, path + [name], child) == Put(root, path, Dir(mode, entries[name := child]))
    decreases |path|
  {
    var dir := Put(root, path, Dir(mode, entries));
    var longer := path + [name];
    if path == [] {
      assert longer == [name];
    } else {
      assert longer[1..] == path[1..] + [name];
      if |path| == 1 {
        assert longer[1..] == [name];
        var inner := Dir(mode, entries);
        assert dir.entries[path[0]] == inner;
        assert Put(inner, [name], child) == Dir(mode, entries[name := child]);
        assert root.entries[path[0] := inner][path[0] := Dir(mode, entries[name := child])]
            == root.entries[path[0] := Dir(mode, entries[name := child])];
      } else {
        var below := root.entries[path[0]];
        PutChild(below, path[1..], mode, entries, name, child);
        var inner := Put(below, path[1..], Dir(mode, entries));
        assert dir.entries[path[0]] == inner;
        assert root.entries[path[0] := inner][path[0] := Put(inner, longer[1..], child)]
            == root.entries[path[0] := Put(inner, longer[1..], child)];
      }
    }
  }

  /** Only the last of two nodes put at a path stays. */
  lemma {:induction false} PutTwice(root: Node, path: Path, a: Node, b: Node)
    requires HasParent(root, path)
    ensures HasParent(Put(root, path, a), path) && Put(Put(root, path, a), path, b) == Put(root, path, b)
    decreases |path|
  {
    if |path| == 1 {
      assert root.entries[path[0] := a][path[0] := b] == root.entries[path[0] := b];
    } else if |path| > 1 {
      var child := root.entries[path[0]];
      PutTwice(child, path[1..], a, b);
      assert root.entries[path[0] := Put(child, path[1..], a)][path[0] := Put(child, path[1..], b)]
          == root.entries[path[0] := Put(child, path[1..], b)];
    }
  }

  /** Nothing comes to be where something is removed. */
  lemma {:induction false} GetWithoutNone(root: Node, path: Path, q: Path)
    requires path != [] && Get(root, q).None?
    ensures Get(Without(root, path), q).None?
  {
    if path <= q {
      GetWithout(root, path);
      assert q == path + q[|path|..];
      GetJoin(Without(root, path), path, q[|path|..]);
    } else if q <= path {
      assert path == q + path[|q|..];
      GetJoin(root, q, path[|q|..]);
      WithoutAbsent(root, path);
    } else {
      GetWithoutApart(root, path, q);
    }
  }

  /** Every folder on the way to a path with a parent is there. */
  lemma {:induction false} ParentIsThere(root: Node, path: Path, p: Path)
    requires HasParent(root, path) && p <= path && p != path
    ensures Get(root, p).Some?
    decreases |p|
  {
    if p != [] {
      assert path[1..][..|p| - 1] == p[1..];
      ParentIsThere(root.entries[path[0]], path[1..], p[1..]);
    }
  }

  /** What was removed below a path is gone with the path. */
  lemma {:induction false} WithoutBelow(root: Node, path: Path, p: Path)
    requires path != [] && path <= p
    ensures Without(Without(root, p), path) == Without(root, path)
    decreases |path|
  {
    if root.Dir? && p[0] in root.entries {
      assert path[0] == p[0];
      if |path| == 1 {
        assert |p| > 1 ==> root.entries[p[0] := Without(root.entries[p[0]], p[1..])] - {path[0]} == root.entries - {path[0]};
      } else {
        assert p[1..][..|path| - 1] == path[1..];
        WithoutBelow(root.entries[p[0]], path[1..], p[1..]);
        assert root.entries[p[0] := Without(root.entries[p[0]], p[1..])][p[0] := Without(root.entries[p[0]], path[1..])]
            == root.entries[p[0] := Without(root.entries[p[0]], path[1..])];
      }
    }
  }

  /** Removals apart from each other may be made in either order. */
  lemma {:induction false} WithoutCommute(root: Node, p: Path, q: Path)
    requires Apart(p, q)
    ensures Without(Without(root, p), q) == Without(Without(root, q), p)
    decreases |p|
  {
    if root.Dir? && p[0] in root.entries && q[0] in root.entries {
      if p[0] == q[0] {
        ApartTail(p, q);
        var child := root.entries[p[0]];
        WithoutCommute(child, p[1..], q[1..]);
        assert p[1..] != [] && q[1..] != [];
        var once, other := Without(child, p[1..]), Without(child, q[1..]);
        assert root.entries[p[0] := once][p[0] := Without(once, q[1..])]
            == root.entries[p[0] := other][p[0] := Without(other, p[1..])];
      } else {
        RemoveBoth(root.entries, p[0], q[0], if |p| == 1 then None else Some(Without(root.entries[p[0]], p[1..])),
                   if |q| == 1 then None else Some(Without(root.entries[q[0]], q[1..])));
      }
    }
  }

  /** An entry changed, or removed. */
  function Changed(entries: map<string, Node>, name: string, child: Option<Node>): map<string, Node> {
    match child
    case None => entries - {name}
    case Some(node) => entries[name := node]
  }

  lemma RemoveBoth(entries: map<string, Node>, a: string, b: string, x: Option<Node>, y: Option<Node>)
    requires a != b
    ensures Changed(Changed(entries, a, x), b, y) == Changed(Changed(entries, b, y), a, x)
  {
  }
}
