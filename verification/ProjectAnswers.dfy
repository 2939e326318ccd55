/** The whole report of a project: every diagnostic in it has a reason, and every reason a diagnostic. */
module ProjectAnswers {
  import opened Base
  import opened Order
  import opened ProjectBases
  import opened ProjectDiagnostics
  import opened ProjectUnits
  import opened ProjectEvaluation
  import opened ProjectImports
  import opened ProjectPlacement
  import opened ProjectAcceptance
  import opened ProjectReports

  // ------------------------------------------------------------------ identifiers

  /** The first segment of an identifier has no point, and is all of it or is followed by one. */
  lemma {:induction false} FirstSegmentIs(id: string)
    ensures '.' !in FirstSegment(id) && (FirstSegment(id) == id || FirstSegment(id) + ['.'] <= id)
  {
    if id != [] && id[0] != '.' {
      FirstSegmentIs(id[1..]);
      assert id == [id[0]] + id[1..];
      if FirstSegment(id) != id {
        assert FirstSegment(id) + ['.'] == [id[0]] + (FirstSegment(id[1..]) + ['.']);
      }
    }
  }

  /** The identifier lies in a namespace: it is the namespace, or starts with it and a point. */
  predicate InNamespaces(id: string, namespaces: set<string>) {
    exists n :: n in namespaces && '.' !in n && (id == n || n + ['.'] <= id)
  }

  lemma {:induction false} InNamespacesIs(id: string, namespaces: set<string>)
    ensures FirstSegment(id) in namespaces <==> InNamespaces(id, namespaces)
  {
    FirstSegmentIs(id);
    if n :| n in namespaces && '.' !in n && (id == n || n + ['.'] <= id) {
      SegmentIsUnique(id, n);
    }
  }

  lemma {:induction false} SegmentIsUnique(id: string, n: string)
    requires '.' !in n && (id == n || n + ['.'] <= id)
    ensures FirstSegment(id) == n
  {
    if n != [] {
      assert id[0] == n[0] && n[0] in n;
      assert id[1..] == n[1..] || n[1..] + ['.'] <= id[1..] by {
        if n + ['.'] <= id {
          assert (n + ['.'])[1..] == n[1..] + ['.'];
        }
      }
      SegmentIsUnique(id[1..], n[1..]);
      assert n == [n[0]] + n[1..];
    } else if id != n {
      assert id[0] == '.';
    }
  }

  /** The declaration at `i` is reported: an earlier one has its identifier, or that lies in an imported namespace. */
  predicate RepeatedAt(namespaces: set<string>, decls: seq<Declaration>, i: int, d: Diagnostic) {
    && 0 <= i < |decls| && decls[i].id.Some? && d == At("error.id.duplicate", decls[i].source, decls[i].offset)
    && (FirstSegment(decls[i].id.value) in namespaces || exists j :: 0 <= j < i && decls[j].id == decls[i].id)
  }

  ghost predicate IdsSay(namespaces: set<string>, decls: seq<Declaration>, d: Diagnostic) {
    exists i :: RepeatedAt(namespaces, decls, i, d)
  }

  lemma MoreIds(namespaces: set<string>, decls: seq<Declaration>, d: Diagnostic)
    requires decls != []
    ensures var n := |decls| - 1;
      IdsSay(namespaces, decls, d) <==> IdsSay(namespaces, decls[..n], d) || RepeatedAt(namespaces, decls, n, d)
  {
    var n := |decls| - 1;
    forall i | i < n
      ensures RepeatedAt(namespaces, decls, i, d) <==> RepeatedAt(namespaces, decls[..n], i, d)
    {
      if 0 <= i {
        assert forall j | 0 <= j < i :: decls[..n][j] == decls[j];
      }
    }
  }

  lemma MoreDeclared(decls: seq<Declaration>, id: string)
    requires decls != []
    ensures var n := |decls| - 1; IsDeclared(decls, id) <==> IsDeclared(decls[..n], id) || decls[n].id == Some(id)
  {
    var n := |decls| - 1;
    if i :| 0 <= i < n && decls[..n][i].id == Some(id) {
      assert decls[i].id == Some(id);
    }
    if i :| 0 <= i < |decls| && decls[i].id == Some(id) {
      assert i < n ==> decls[..n][i].id == Some(id);
    }
  }

  /** Declaring reports every repeated or namespaced identifier, and knows every other. */
  lemma {:induction false} DeclareIsReported(namespaces: set<string>, decls: seq<Declaration>)
    ensures var ids := Declare(namespaces, decls);
      && (ids.None? <==> exists i :: 0 <= i < |decls| && decls[i].id.None?)
      && (ids.Some? ==>
            && (forall id :: id in ids.value.declared <==> IsDeclared(decls, id) && FirstSegment(id) !in namespaces)
            && (forall d :: d in ids.value.diagnostics <==> IdsSay(namespaces, decls, d)))
  {
    if decls != [] {
      var n := |decls| - 1;
      var init, x := decls[..n], decls[n];
      DeclareIsReported(namespaces, init);
      assert forall i | 0 <= i < n :: init[i] == decls[i];
      var ids := Declare(namespaces, init);
      if ids.Some? && x.id.Some? {
        var again := IsDeclared(init, x.id.value);
        assert again <==> exists j :: 0 <= j < n && decls[j].id == x.id by {
          if j :| 0 <= j < n && decls[j].id == x.id {
            assert init[j].id == x.id;
          }
        }
        forall id
          ensures IsDeclared(decls, id) <==> IsDeclared(init, id) || x.id == Some(id)
        {
          MoreDeclared(decls, id);
        }
        forall d
          ensures IdsSay(namespaces, decls, d) <==> IdsSay(namespaces, init, d) || RepeatedAt(namespaces, decls, n, d)
        {
          MoreIds(namespaces, decls, d);
        }
      }
    }
  }

  // ------------------------------------------------------------------ references

  /** The reference at `r` of the unit at `u` is reported: it is to no declared identifier and into no imported namespace. */
  predicate DanglesAt(namespaces: set<string>, declared: set<string>, units: seq<Unit>, u: int, r: int, d: Diagnostic) {
    && 0 <= u < |units| && 0 <= r < |units[u].refs|
    && FirstSegment(units[u].refs[r].target) !in namespaces && units[u].refs[r].target !in declared
    && d == At("error.reference.unresolved", units[u].source, units[u].refs[r].offset)
  }

  ghost predicate RefsSay(namespaces: set<string>, declared: set<string>, units: seq<Unit>, d: Diagnostic) {
    exists u, r :: DanglesAt(namespaces, declared, units, u, r, d)
  }

  predicate DanglesIn(namespaces: set<string>, declared: set<string>, source: string, refs: seq<Reference>, r: int,
                      d: Diagnostic) {
    && 0 <= r < |refs| && FirstSegment(refs[r].target) !in namespaces && refs[r].target !in declared
    && d == At("error.reference.unresolved", source, refs[r].offset)
  }

  lemma {:induction false} UnresolvedInIs(namespaces: set<string>, declared: set<string>, source: string,
                                          refs: seq<Reference>, d: Diagnostic)
    ensures d in UnresolvedIn(declared, namespaces, source, refs) <==> exists r :: DanglesIn(namespaces, declared, source, refs, r, d)
  {
    if refs != [] {
      var n := |refs| - 1;
      UnresolvedInIs(namespaces, declared, source, refs[..n], d);
      if r :| DanglesIn(namespaces, declared, source, refs[..n], r, d) {
        assert DanglesIn(namespaces, declared, source, refs, r, d);
      }
      if r :| DanglesIn(namespaces, declared, source, refs, r, d) {
        assert r < n ==> DanglesIn(namespaces, declared, source, refs[..n], r, d);
      }
      if d in UnresolvedIn(declared, namespaces, source, refs) && d !in UnresolvedIn(declared, namespaces, source, refs[..n]) {
        assert DanglesIn(namespaces, declared, source, refs, n, d);
      }
    }
  }

  lemma {:induction false} UnresolvedIs(namespaces: set<string>, declared: set<string>, units: seq<Unit>, d: Diagnostic)
    ensures d in Unresolved(declared, namespaces, units) <==> RefsSay(namespaces, declared, units, d)
  {
    if units != [] {
      var n := |units| - 1;
      var last := units[n];
      UnresolvedIs(namespaces, declared, units[..n], d);
      UnresolvedInIs(namespaces, declared, last.source, last.refs, d);
      if u, r :| DanglesAt(namespaces, declared, units[..n], u, r, d) {
        assert DanglesAt(namespaces, declared, units, u, r, d);
      }
      if u, r :| DanglesAt(namespaces, declared, units, u, r, d) {
        assert u < n ==> DanglesAt(namespaces, declared, units[..n], u, r, d);
        assert u == n ==> DanglesIn(namespaces, declared, last.source, last.refs, r, d);
      }
      if r :| DanglesIn(namespaces, declared, last.source, last.refs, r, d) {
        assert DanglesAt(namespaces, declared, units, n, r, d);
      }
    }
  }

  // ------------------------------------------------------------------ namespaces and declarations

  predicate DeclaresNamespace(blocks: seq<Block>, i: int, n: string) {
    && 0 <= i < |blocks| && (blocks[i].name == "IMPORT" || blocks[i].name == "EXTENSION")
    && "NAMESPACE" in blocks[i].fields && blocks[i].fields["NAMESPACE"].value == Some(n)
  }

  ghost predicate SomeDeclares(blocks: seq<Block>, n: string) {
    exists i :: DeclaresNamespace(blocks, i, n)
  }

  /** The namespaces are those the imports declare. */
  lemma {:induction false} NamespacesAre(blocks: seq<Block>)
    ensures Namespaces(blocks).Some? ==> forall n :: n in Namespaces(blocks).value <==> SomeDeclares(blocks, n)
  {
    if blocks != [] {
      var k := |blocks| - 1;
      NamespacesAre(blocks[..k]);
      forall n
        ensures SomeDeclares(blocks, n) <==> SomeDeclares(blocks[..k], n) || DeclaresNamespace(blocks, k, n)
      {
        forall i | i < k
          ensures DeclaresNamespace(blocks, i, n) <==> DeclaresNamespace(blocks[..k], i, n)
        {
        }
      }
    }
  }

  /** The declaration a block makes: its identifier, unless it is an LCL block. */
  predicate Declares(source: string, b: Block, x: Declaration) {
    b.name != "LCL" && "ID" in b.fields && x == Declaration(source, b.fields["ID"].value, b.fields["ID"].offset)
  }

  /** Declarations come one for each block that makes one, in the order of blocks and of units. */
  lemma {:induction false} DeclarationsInOrder(source: string, a: seq<Block>, b: seq<Block>)
    ensures DeclarationsOf(source, a + b) == DeclarationsOf(source, a) + DeclarationsOf(source, b)
    ensures |a| == 1 ==>
      var s := DeclarationsOf(source, a);
      if a[0].name == "LCL" || "ID" !in a[0].fields then s == [] else |s| == 1 && Declares(source, a[0], s[0])
    decreases |b|
  {
    if b == [] {
      assert a + b == a;
    } else {
      var n := |b| - 1;
      assert (a + b)[..|a + b| - 1] == a + b[..n];
      DeclarationsInOrder(source, a, b[..n]);
    }
  }

  lemma {:induction false} UnitsInOrder(a: seq<Unit>, b: seq<Unit>)
    ensures Declarations(a + b) == Declarations(a) + Declarations(b)
    decreases |b|
  {
    if b == [] {
      assert a + b == a;
    } else {
      var n := |b| - 1;
      LastUnit(a, b);
      LastUnit([], b);
      UnitsInOrder(a, b[..n]);
    }
  }

  lemma LastUnit(a: seq<Unit>, b: seq<Unit>)
    requires b != []
    ensures var last := b[|b| - 1];
      Declarations(a + b) == Declarations(a + b[..|b| - 1]) + DeclarationsOf(last.source, last.blocks)
    ensures a == [] ==> a + b == b && a + b[..|b| - 1] == b[..|b| - 1]
  {
    assert (a + b)[..|a + b| - 1] == a + b[..|b| - 1];
  }

  lemma OneUnit(u: Unit)
    ensures Declarations([u]) == DeclarationsOf(u.source, u.blocks)
  {
    assert [u][..0] == [];
  }

  // ------------------------------------------------------------------ bases

  /** The block is a definition with this identifier, based on `target`. */
  predicate BasedOn(b: Block, name: string, target: string) {
    && b.name == "DEFINE" && "ID" in b.fields && b.fields["ID"].value == Some(name)
    && "BASE" in b.fields && b.fields["BASE"].value == Some("REF(" + target + ")") && Identifier(target, true)
  }

  ghost predicate HasBase(b: Block, name: string) {
    exists target :: BasedOn(b, name, target)
  }

  /** Of the blocks, the last definition of the name that has a base is at `i`. */
  ghost predicate LastBase(blocks: seq<Block>, name: string, i: int, target: string) {
    && 0 <= i < |blocks| && BasedOn(blocks[i], name, target)
    && forall k | i < k < |blocks| :: !HasBase(blocks[k], name)
  }

  lemma BasedIs(b: Block, name: string)
    ensures HasBase(b, name) <==>
      IsBased(b) && "ID" in b.fields && b.fields["ID"].value == Some(name)
    ensures forall target | BasedOn(b, name, target) :: RefTarget(b.fields["BASE"].value) == Some(target)
  {
    if IsBased(b) && "ID" in b.fields && b.fields["ID"].value == Some(name) {
      var target := RefTarget(b.fields["BASE"].value).value;
      ReferenceExact(b.fields["BASE"].value, target);
      assert BasedOn(b, name, target);
    }
    forall target | BasedOn(b, name, target)
      ensures RefTarget(b.fields["BASE"].value) == Some(target)
    {
      ReferenceExact(b.fields["BASE"].value, target);
    }
  }

  /** A definition's base is that of its last definition: its target, the unit's rank, and where it says so. */
  ghost predicate BasesAre(blocks: seq<Block>, rank: nat, before: Bases, after: Bases, name: string) {
    && (forall i, target | LastBase(blocks, name, i, target) ::
          name in after && after[name] == Base(target, rank, blocks[i].fields["BASE"].offset))
    && ((forall i | 0 <= i < |blocks| :: !HasBase(blocks[i], name)) ==>
          (name in after <==> name in before) && (name in before ==> after[name] == before[name]))
  }

  lemma {:induction false} BasesOfAre(blocks: seq<Block>, rank: nat, before: Bases, name: string)
    ensures BasesOf(blocks, rank, before).Some? ==> BasesAre(blocks, rank, before, BasesOf(blocks, rank, before).value, name)
  {
    if blocks != [] && BasesOf(blocks, rank, before).Some? {
      var n := |blocks| - 1;
      var after, middle := BasesOf(blocks, rank, before).value, BasesOf(blocks[..n], rank, before).value;
      BasesOfAre(blocks[..n], rank, before, name);
      BasedIs(blocks[n], name);
      if HasBase(blocks[n], name) {
        var target :| BasedOn(blocks[n], name, target);
        BasesAtLast(blocks, rank, before, after, name, target);
      } else {
        BasesAsBefore(blocks, rank, before, middle, after, name);
      }
    }
  }

  lemma BasesAtLast(blocks: seq<Block>, rank: nat, before: Bases, after: Bases, name: string, target: string)
    requires blocks != [] && BasedOn(blocks[|blocks| - 1], name, target)
    requires name in after && after[name] == Base(target, rank, blocks[|blocks| - 1].fields["BASE"].offset)
    ensures BasesAre(blocks, rank, before, after, name)
  {
    var n := |blocks| - 1;
    BasedIs(blocks[n], name);
    forall i, t | LastBase(blocks, name, i, t)
      ensures i == n && t == target
    {
      NoneAfterLast(blocks, name, i, t);
    }
  }

  lemma NoneAfterLast(blocks: seq<Block>, name: string, i: int, t: string)
    requires LastBase(blocks, name, i, t)
    ensures i < |blocks| - 1 ==> !HasBase(blocks[|blocks| - 1], name)
  {
  }

  lemma BasesAsBefore(blocks: seq<Block>, rank: nat, before: Bases, middle: Bases, after: Bases, name: string)
    requires blocks != [] && !HasBase(blocks[|blocks| - 1], name) && BasesAre(blocks[..|blocks| - 1], rank, before, middle, name)
    requires (name in after <==> name in middle) && (name in middle ==> after[name] == middle[name])
    ensures BasesAre(blocks, rank, before, after, name)
  {
    var init := blocks[..|blocks| - 1];
    forall i, t | LastBase(blocks, name, i, t)
      ensures LastBase(init, name, i, t)
    {
      OneLess(blocks, name, i, t);
    }
    assert (forall i | 0 <= i < |blocks| :: !HasBase(blocks[i], name)) ==> forall i | 0 <= i < |init| :: !HasBase(init[i], name);
  }

  lemma OneLess(blocks: seq<Block>, name: string, i: int, target: string)
    requires blocks != [] && !HasBase(blocks[|blocks| - 1], name)
    ensures LastBase(blocks, name, i, target) <==> LastBase(blocks[..|blocks| - 1], name, i, target)
  {
    var init := blocks[..|blocks| - 1];
    assert forall k | 0 <= k < |init| :: init[k] == blocks[k];
    if LastBase(init, name, i, target) {
      forall k | i < k < |blocks|
        ensures !HasBase(blocks[k], name)
      {
        assert k < |init| ==> init[k] == blocks[k];
      }
    }
  }

  // ------------------------------------------------------------------ the whole report

  /** The PART blocks that name a source for the first time. */
  function FirstNamings(ctx: Context, root: Unit, blocks: seq<Block>, n: nat): (r: seq<Block>)
    requires PartsOk(ctx, blocks) && n <= |blocks|
    ensures forall i | 0 <= i < |r| :: PartOk(ctx.registry, r[i])
  {
    if n == 0 then []
    else
      var b := blocks[n - 1];
      FirstNamings(ctx, root, blocks, n - 1)
      + if b.name == "PART" && !NamedBefore(ctx, root, blocks, n - 1) then [b] else []
  }

  /** The units of those parts that are there. */
  function UnitsThere(ctx: Context, files: Files, root: Unit, parts: seq<Block>): seq<Unit>
    requires ctx.Valid() && forall i | 0 <= i < |parts| :: PartOk(ctx.registry, parts[i])
  {
    if parts == [] then []
    else
      var unit := UnitAt(ctx, files, PartTarget(ctx, root.source, parts[|parts| - 1]));
      UnitsThere(ctx, files, root, parts[..|parts| - 1]) + if unit.Some? then [unit.value] else []
  }

  /** After `k` rows there is one for each of these parts. */
  ghost predicate RowsTaken(ctx: Context, files: Files, root: Unit, firsts: seq<Block>, rows: seq<Row>, k: nat)
    requires ctx.Valid() && forall i | 0 <= i < |firsts| :: PartOk(ctx.registry, firsts[i])
  {
    |rows| == k + |firsts| && forall i | 0 <= i < |firsts| :: RowOf(ctx, files, root, firsts[i], rows[k + i])
  }

  /** Each of these parts got its row, and in a complete project its unit, if it is there. */
  ghost predicate Taken(ctx: Context, files: Files, root: Unit, firsts: seq<Block>, s: Parts, t: Parts)
    requires ctx.Valid() && forall i | 0 <= i < |firsts| :: PartOk(ctx.registry, firsts[i])
  {
    && RowsTaken(ctx, files, root, firsts, t.rows, |s.rows|)
    && (t.complete ==> t.units == s.units + UnitsThere(ctx, files, root, firsts))
  }

  lemma {:induction false} ThereMore(ctx: Context, files: Files, root: Unit, firsts: seq<Block>, b: Block)
    requires ctx.Valid() && PartOk(ctx.registry, b) && forall i | 0 <= i < |firsts| :: PartOk(ctx.registry, firsts[i])
    ensures var unit := UnitAt(ctx, files, PartTarget(ctx, root.source, b));
      UnitsThere(ctx, files, root, firsts + [b]) == UnitsThere(ctx, files, root, firsts) + if unit.Some? then [unit.value] else []
  {
    assert (firsts + [b])[..|firsts|] == firsts;
  }

  lemma RowMore(ctx: Context, files: Files, root: Unit, firsts: seq<Block>, b: Block, rows: seq<Row>, row: Row, k: nat)
    requires ctx.Valid() && PartOk(ctx.registry, b) && forall i | 0 <= i < |firsts| :: PartOk(ctx.registry, firsts[i])
    requires RowsTaken(ctx, files, root, firsts, rows, k) && RowOf(ctx, files, root, b, row)
    ensures RowsTaken(ctx, files, root, firsts + [b], rows + [row], k)
  {
  }

  lemma TakenMore(ctx: Context, files: Files, root: Unit, firsts: seq<Block>, b: Block, s: Parts, t: Parts, u: Parts)
    requires ctx.Valid() && PartOk(ctx.registry, b) && forall i | 0 <= i < |firsts| :: PartOk(ctx.registry, firsts[i])
    requires Taken(ctx, files, root, firsts, s, t) && TakenUp(ctx, files, root, b, t, u)
    requires PartTarget(ctx, root.source, b) !in t.named
    ensures Taken(ctx, files, root, firsts + [b], s, u)
  {
    var row :| RowOf(ctx, files, root, b, row) && u.rows == t.rows + [row];
    RowMore(ctx, files, root, firsts, b, t.rows, row, |s.rows|);
    ThereMore(ctx, files, root, firsts, b);
  }

  lemma TakenSame(ctx: Context, files: Files, root: Unit, firsts: seq<Block>, s: Parts, t: Parts, u: Parts)
    requires ctx.Valid() && forall i | 0 <= i < |firsts| :: PartOk(ctx.registry, firsts[i])
    requires Taken(ctx, files, root, firsts, s, t) && u.rows == t.rows && u.units == t.units && u.complete == t.complete
    ensures Taken(ctx, files, root, firsts, s, u)
  {
  }

  lemma TakenNone(ctx: Context, files: Files, root: Unit, s: Parts)
    requires ctx.Valid()
    ensures Taken(ctx, files, root, [], s, s)
  {
    assert s.units + [] == s.units;
  }

  lemma {:induction false} PartsStep(ctx: Context, files: Files, root: Unit, blocks: seq<Block>, n: nat, s: Parts)
    requires ctx.Valid() && PartsOk(ctx, blocks) && 0 < n <= |blocks|
    ensures var t, u := AddParts(ctx, files, root, blocks[..n - 1], s), AddParts(ctx, files, root, blocks[..n], s);
      u == if t.None? then None else if blocks[n - 1].name == "PART" then AddPart(ctx, files, root, blocks[n - 1], t.value) else t
  {
    assert blocks[..n][..n - 1] == blocks[..n - 1];
  }

  /** A block takes up its part if it is a first naming, and nothing otherwise. */
  lemma TakenByBlock(ctx: Context, files: Files, root: Unit, blocks: seq<Block>, n: nat, s: Parts, t: Parts, u: Parts)
    requires ctx.Valid() && PartsOk(ctx, blocks) && 0 < n <= |blocks|
    requires Taken(ctx, files, root, FirstNamings(ctx, root, blocks, n - 1), s, t)
    requires Some(u) == if blocks[n - 1].name == "PART" then AddPart(ctx, files, root, blocks[n - 1], t) else Some(t)
    requires blocks[n - 1].name == "PART" ==>
      (PartTarget(ctx, root.source, blocks[n - 1]) in t.named <==> NamedBefore(ctx, root, blocks, n - 1))
    ensures Taken(ctx, files, root, FirstNamings(ctx, root, blocks, n), s, u)
  {
    var b, firsts := blocks[n - 1], FirstNamings(ctx, root, blocks, n - 1);
    assert firsts + [] == firsts;
    if b.name == "PART" {
      PartIsReported(ctx, files, root, b, t);
      if NamedBefore(ctx, root, blocks, n - 1) {
        TakenSame(ctx, files, root, firsts, s, t, u);
      } else {
        TakenMore(ctx, files, root, firsts, b, s, t, u);
      }
    } else {
      TakenSame(ctx, files, root, firsts, s, t, u);
    }
  }

  /** Each part that is named gets one row, and in a complete project its unit, if it is there. */
  lemma {:induction false} RowsAndUnits(ctx: Context, files: Files, root: Unit, blocks: seq<Block>, n: nat, s: Parts)
    requires ctx.Valid() && PartsOk(ctx, blocks) && s.named == {} && n <= |blocks|
    ensures var t := AddParts(ctx, files, root, blocks[..n], s);
      t.Some? ==> Taken(ctx, files, root, FirstNamings(ctx, root, blocks, n), s, t.value)
  {
    if n == 0 {
      TakenNone(ctx, files, root, s);
    } else {
      RowsAndUnits(ctx, files, root, blocks, n - 1, s);
      PartsStep(ctx, files, root, blocks, n, s);
      var t, u := AddParts(ctx, files, root, blocks[..n - 1], s), AddParts(ctx, files, root, blocks[..n], s);
      if u.Some? {
        if blocks[n - 1].name == "PART" {
          NamedIs(ctx, files, root, blocks, n, s, t.value);
        }
        TakenByBlock(ctx, files, root, blocks, n, s, t.value, u.value);
      }
    }
  }

  lemma NamedIs(ctx: Context, files: Files, root: Unit, blocks: seq<Block>, n: nat, s: Parts, t: Parts)
    requires ctx.Valid() && PartsOk(ctx, blocks) && s.named == {} && 0 < n <= |blocks| && blocks[n - 1].name == "PART"
    requires AddParts(ctx, files, root, blocks[..n - 1], s) == Some(t)
    ensures PartTarget(ctx, root.source, blocks[n - 1]) in t.named <==> NamedBefore(ctx, root, blocks, n - 1)
  {
    assert blocks[..n][..n - 1] == blocks[..n - 1];
    PartsAreReported(ctx, files, root, blocks[..n - 1], s);
    BeforeIsNamed(ctx, root, blocks[..n]);
    SamePlace(ctx, root, blocks, n, n - 1);
  }

  // ----- reasons

  /** Some chain of imports from the entry is reported so. */
  ghost predicate ImportsSay(ctx: Context, files: Files, named: set<string>, entry: string, d: Diagnostic)
    requires ctx.Valid()
  {
    exists p, i, target :: ChainReported(ctx, files, named, entry, p, i, target, d)
  }

  ghost predicate ChainReported(ctx: Context, files: Files, named: set<string>, entry: string, p: seq<string>, i: int,
                                target: string, d: Diagnostic)
    requires ctx.Valid()
  {
    p != [] && p[0] == entry && ChainFrom(ctx, files, named, p, 1) && ChainSays(ctx, files, named, p, i, target, d)
  }

  /** Looking at all imports of the entry finds what some chain from it is reported for. */
  lemma BeyondEntry(ctx: Context, files: Files, named: set<string>, entry: string, root: Unit, d: Diagnostic)
    requires ctx.Valid() && UnitAt(ctx, files, entry) == Some(root)
    ensures Beyond(ctx, files, named, [entry], root, |root.blocks|, d) <==> ImportsSay(ctx, files, named, entry, d)
  {
    if j :| 0 <= j < |root.blocks| && Through(ctx, files, named, [entry], root, j, d) {
      var p, i, t :| SaysThrough(ctx, files, named, [entry], root, j, p, i, t, d);
      assert ChainReported(ctx, files, named, entry, p, i, t, d);
    }
    if p, i, t :| ChainReported(ctx, files, named, entry, p, i, t, d) {
      assert [entry] <= p;
      if |p| == 1 {
        assert SaysThrough(ctx, files, named, [entry], root, i, p, i, t, d);
        assert Through(ctx, files, named, [entry], root, i, d);
      } else {
        assert GoesOn(ctx, files, named, p, 0);
        var j :| ImportsAt(ctx, root, j, p[1]);
        assert SaysThrough(ctx, files, named, [entry], root, j, p, i, t, d);
        assert Through(ctx, files, named, [entry], root, j, d);
      }
    }
  }

  /** The sources that PART blocks name. */
  function AllNamed(ctx: Context, root: Unit, blocks: seq<Block>): set<string>
    requires PartsOk(ctx, blocks)
  {
    set i | 0 <= i < |blocks| && blocks[i].name == "PART" :: PartTarget(ctx, root.source, blocks[i])
  }

  /** What the checks across the units of a complete project report. */
  ghost predicate AcrossSay(units: seq<Unit>, namespaces: set<string>, d: Diagnostic) {
    var decls := Declarations(units);
    || IdsSay(namespaces, decls, d)
    || (exists u, r :: Dangles(namespaces, decls, units, u, r, d))
    || (AllBases(units).Some? && exists name :: OnCycle(AllBases(units).value, units, name, d))
  }

  predicate Dangles(namespaces: set<string>, decls: seq<Declaration>, units: seq<Unit>, u: int, r: int, d: Diagnostic) {
    && 0 <= u < |units| && 0 <= r < |units[u].refs|
    && FirstSegment(units[u].refs[r].target) !in namespaces && !IsDeclared(decls, units[u].refs[r].target)
    && d == At("error.reference.unresolved", units[u].source, units[u].refs[r].offset)
  }

  /** The name is the first of a cycle of bases. */
  ghost predicate OnCycle(bases: Bases, units: seq<Unit>, name: string, d: Diagnostic) {
    && (exists ring :: Ring(bases, ring) && IsFirst(bases, ring, name))
    && name in bases && bases[name].rank < |units|
    && d == At("error.reference.cycle", units[bases[name].rank].source, bases[name].offset)
  }

  /** Everything there is to report about a project. */
  ghost predicate Wrong(ctx: Context, files: Files, entry: string, d: Diagnostic)
    requires ctx.Valid() && UnitAt(ctx, files, entry).Some?
  {
    var root := UnitAt(ctx, files, entry).value;
    if root.diagnostics != [] then d in root.diagnostics
    else if root.header.kind.value != Some("kind.project") then d == At("error.project.placement", entry, root.header.kind.offset)
    else
      PartsOk(ctx, root.blocks) &&
      var named := AllNamed(ctx, root, root.blocks);
      || PartsSay(ctx, files, root, root.blocks, d)
      || ImportsSay(ctx, files, named, entry, d)
      || (Complete(ctx, files, root, root.blocks) && Namespaces(root.blocks).Some?
          && AcrossSay([root] + UnitsThere(ctx, files, root, FirstNamings(ctx, root, root.blocks, |root.blocks|)),
                       Namespaces(root.blocks).value, d))
  }

  // ----- the proof

  lemma NamedAre(ctx: Context, files: Files, root: Unit, parts: Parts)
    requires ctx.Valid() && PartsOk(ctx, root.blocks)
    requires forall source :: source in parts.named <==> IsNamed(ctx, root, root.blocks, source)
    ensures parts.named == AllNamed(ctx, root, root.blocks)
  {
    forall source
      ensures source in parts.named <==> source in AllNamed(ctx, root, root.blocks)
    {
      if IsNamed(ctx, root, root.blocks, source) {
        var i :| PartNames(ctx, root, root.blocks, i, source);
      }
      if source in AllNamed(ctx, root, root.blocks) {
        var i :| 0 <= i < |root.blocks| && root.blocks[i].name == "PART" && PartTarget(ctx, root.source, root.blocks[i]) == source;
        assert PartNames(ctx, root, root.blocks, i, source);
      }
    }
  }

  lemma {:induction false} AcrossIsSaid(log: Log, units: seq<Unit>, namespaces: set<string>, after: Log, bases: Bases,
                                        d: Diagnostic)
    requires Across(log, units, namespaces) == Some((after, bases))
    ensures AllBases(units) == Some(bases)
    ensures d in after.diagnostics || (exists name :: OnCycle(bases, units, name, d)) <==>
            d in log.diagnostics || AcrossSay(units, namespaces, d)
  {
    var decls := Declarations(units);
    DeclareIsReported(namespaces, decls);
    var ids := Declare(namespaces, decls).value;
    UnresolvedIs(namespaces, ids.declared, units, d);
    if u, r :| DanglesAt(namespaces, ids.declared, units, u, r, d) {
      assert Dangles(namespaces, decls, units, u, r, d);
    }
    if u, r :| Dangles(namespaces, decls, units, u, r, d) {
      assert DanglesAt(namespaces, ids.declared, units, u, r, d);
    }
    assert after.diagnostics == log.diagnostics + ids.diagnostics + Unresolved(ids.declared, namespaces, units);
  }

  lemma CyclesAreSaid(w: Work, d: Diagnostic)
    ensures (exists name :: CycleAt(w, name, d)) <==> exists name :: OnCycle(w.bases, w.units, name, d)
  {
    if name :| CycleAt(w, name, d) {
      var ring :| Reports(w.bases, ring, name);
      assert Ring(w.bases, ring) && IsFirst(w.bases, ring, name);
      assert OnCycle(w.bases, w.units, name, d);
    }
    if name :| OnCycle(w.bases, w.units, name, d) {
      var ring :| Ring(w.bases, ring) && IsFirst(w.bases, ring, name);
      assert Reports(w.bases, ring, name);
      assert CycleAt(w, name, d);
    }
  }

  lemma NoBases(units: seq<Unit>, d: Diagnostic)
    ensures forall name :: !OnCycle(map[], units, name, d)
  {
  }

  /** After the parts: imports, and what is checked across the units of a complete project. */
  lemma ImportsAreSaid(ctx: Context, files: Files, entry: string, root: Unit, parts: Parts, w: Work, units: seq<Unit>,
                       d: Diagnostic)
    requires ctx.Valid() && UnitAt(ctx, files, entry) == Some(root) && Imports(ctx, files, entry, root, parts) == Some(w)
    requires parts.complete ==> parts.units == units
    ensures Namespaces(root.blocks).Some?
    ensures d in w.log.diagnostics || (exists name :: OnCycle(w.bases, w.units, name, d)) <==>
      || d in parts.log.diagnostics || ImportsSay(ctx, files, parts.named, entry, d)
      || (parts.complete && AcrossSay(units, Namespaces(root.blocks).value, d))
  {
    BlocksAreReported(ctx, files, parts.named, [entry], root, |root.blocks|, parts.log);
    assert root.blocks[..|root.blocks|] == root.blocks;
    BeyondEntry(ctx, files, parts.named, entry, root, d);
    var log := FollowBlocks(ctx, files, root, [entry], parts.named, root.blocks, parts.log).value;
    if parts.complete {
      AcrossIsSaid(log, parts.units, Namespaces(root.blocks).value, w.log, w.bases, d);
    } else {
      NoBases(w.units, d);
    }
  }

  lemma ProjectIsSaid(ctx: Context, files: Files, entry: string, root: Unit, w: Work, d: Diagnostic)
    requires ctx.Valid() && UnitAt(ctx, files, entry) == Some(root) && root.diagnostics == []
    requires root.header.kind.value == Some("kind.project") && Gather(ctx, files, entry) == Some(w)
    ensures d in w.log.diagnostics || (exists name :: OnCycle(w.bases, w.units, name, d)) <==> Wrong(ctx, files, entry, d)
  {
    var log := Loaded(Log([], []), root);
    assert log.diagnostics == [];
    var start := Parts(log, [], true, [root], {});
    var parts := AddParts(ctx, files, root, root.blocks, start).value;
    PartsAreReported(ctx, files, root, root.blocks, start);
    NamedAre(ctx, files, root, parts);
    RowsAndUnits(ctx, files, root, root.blocks, |root.blocks|, start);
    assert root.blocks[..|root.blocks|] == root.blocks;
    var units := [root] + UnitsThere(ctx, files, root, FirstNamings(ctx, root, root.blocks, |root.blocks|));
    ImportsAreSaid(ctx, files, entry, root, parts, w, units, d);
  }

  lemma GatheredIsSaid(ctx: Context, files: Files, entry: string, w: Work, d: Diagnostic)
    requires ctx.Valid() && Gather(ctx, files, entry) == Some(w)
    ensures UnitAt(ctx, files, entry).Some?
    ensures d in w.log.diagnostics || (exists name :: CycleAt(w, name, d)) <==> Wrong(ctx, files, entry, d)
  {
    var root := UnitAt(ctx, files, entry).value;
    CyclesAreSaid(w, d);
    if root.diagnostics != [] {
      NoBases(w.units, d);
    } else if root.header.kind.value == Some("kind.project") && "kind.project" !in ctx.registry.partKinds {
      ProjectIsSaid(ctx, files, entry, root, w, d);
    } else {
      NoBases(w.units, d);
    }
  }

  /**
   * A diagnostic is in the report of a project exactly when there is a reason for it: an entry that is not usable or no
   * project; a PART named again, missing, unusable or unfit; a chain of imports that comes back, leads to a part,
   * nowhere, to something unusable or to no library; and in a complete project a repeated identifier, a reference to
   * none, or the first of a cycle of bases.
   */
  lemma ReportIsExact(ctx: Context, files: Files, entry: string, outcome: Outcome, d: Diagnostic)
    requires ctx.Valid() && Answers(ctx, files, entry, outcome) && outcome.Finished?
    ensures UnitAt(ctx, files, entry).Some?
    ensures d in outcome.diagnostics <==> Wrong(ctx, files, entry, d)
  {
    var w := Gather(ctx, files, entry).value;
    var emitted :| Reported(w, emitted, outcome);
    GatheredIsSaid(ctx, files, entry, w, d);
  }

  /** Imports and the checks across the units leave the rows as the parts made them. */
  lemma ImportsKeepRows(ctx: Context, files: Files, entry: string, root: Unit, parts: Parts, w: Work)
    requires ctx.Valid() && Imports(ctx, files, entry, root, parts) == Some(w)
    ensures w.rows == parts.rows
  {
  }

  /** The rows of a project: one for each source a PART names, in the order of their first naming. */
  ghost predicate RowsFor(ctx: Context, files: Files, root: Unit, rows: seq<Row>)
    requires ctx.Valid() && PartsOk(ctx, root.blocks)
  {
    RowsTaken(ctx, files, root, FirstNamings(ctx, root, root.blocks, |root.blocks|), rows, 0)
  }

  lemma ProjectRows(ctx: Context, files: Files, entry: string, root: Unit, w: Work)
    requires ctx.Valid() && UnitAt(ctx, files, entry) == Some(root) && root.diagnostics == []
    requires root.header.kind.value == Some("kind.project") && Gather(ctx, files, entry) == Some(w)
    ensures PartsOk(ctx, root.blocks) && RowsFor(ctx, files, root, w.rows)
  {
    var start := Parts(Loaded(Log([], []), root), [], true, [root], {});
    var parts := AddParts(ctx, files, root, root.blocks, start).value;
    RowsAndUnits(ctx, files, root, root.blocks, |root.blocks|, start);
    assert root.blocks[..|root.blocks|] == root.blocks;
    ImportsKeepRows(ctx, files, entry, root, parts, w);
  }

  /** A usable project's report has one row for each source a PART names, in the order of their first naming. */
  lemma RowsAreExact(ctx: Context, files: Files, entry: string, outcome: Outcome)
    requires ctx.Valid() && Answers(ctx, files, entry, outcome) && outcome.Finished?
    ensures UnitAt(ctx, files, entry).Some?
    ensures var root := UnitAt(ctx, files, entry).value;
      if root.diagnostics == [] && root.header.kind.value == Some("kind.project") then
        PartsOk(ctx, root.blocks) && RowsFor(ctx, files, root, outcome.parts)
      else outcome.parts == []
  {
    var root := UnitAt(ctx, files, entry).value;
    var w := Gather(ctx, files, entry).value;
    if root.diagnostics == [] && root.header.kind.value == Some("kind.project") {
      ProjectRows(ctx, files, entry, root, w);
    }
  }
}
