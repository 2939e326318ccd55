/** The project checker as it runs: lists appended to in loops, against the step-by-step specification. */
module ProjectRun {
  import opened Base
  import opened ProjectBases
  import opened ProjectDiagnostics
  import opened ProjectUnits
  import E = ProjectEvaluation
  import opened ProjectImports
  import opened ProjectPlacement
  import opened ProjectAcceptance

  // A failure among the first blocks is a failure of them all.

  lemma {:induction false} FollowFails(ctx: E.Context, files: Files, unit: Unit, chain: seq<string>, named: set<string>,
                                       blocks: seq<Block>, log: E.Log, n: nat)
    requires ctx.Valid() && n <= |blocks|
    requires E.FollowBlocks(ctx, files, unit, chain, named, blocks[..n], log).None?
    ensures E.FollowBlocks(ctx, files, unit, chain, named, blocks, log).None?
    decreases |blocks|
  {
    if n < |blocks| {
      assert blocks[..n] == blocks[..|blocks| - 1][..n];
      FollowFails(ctx, files, unit, chain, named, blocks[..|blocks| - 1], log, n);
    } else {
      assert blocks[..n] == blocks;
    }
  }

  lemma {:induction false} NamespacesFail(blocks: seq<Block>, n: nat)
    requires n <= |blocks| && E.Namespaces(blocks[..n]).None?
    ensures E.Namespaces(blocks).None?
  {
    if n < |blocks| {
      assert blocks[..n] == blocks[..|blocks| - 1][..n];
      NamespacesFail(blocks[..|blocks| - 1], n);
    } else {
      assert blocks[..n] == blocks;
    }
  }

  lemma {:induction false} PartsFail(ctx: E.Context, files: Files, root: Unit, blocks: seq<Block>, s: E.Parts, n: nat)
    requires ctx.Valid() && n <= |blocks| && E.PartsOk(ctx, blocks)
    requires E.AddParts(ctx, files, root, blocks[..n], s).None?
    ensures E.AddParts(ctx, files, root, blocks, s).None?
  {
    if n < |blocks| {
      assert blocks[..n] == blocks[..|blocks| - 1][..n];
      PartsFail(ctx, files, root, blocks[..|blocks| - 1], s, n);
    } else {
      assert blocks[..n] == blocks;
    }
  }

  class Evaluation {
    const ctx: E.Context
    const files: Files
    var order: seq<Unit>
    var diagnostics: seq<Diagnostic>
    var rows: seq<E.Row>
    var namespaces: set<string>

    constructor (ctx: E.Context, files: Files)
      ensures this.ctx == ctx && this.files == files
      ensures order == [] && diagnostics == [] && rows == [] && namespaces == {}
    {
      this.ctx, this.files := ctx, files;
      order, diagnostics, rows, namespaces := [], [], [], {};
    }

    function CurrentLog(): E.Log
      reads this
    {
      E.Log(order, diagnostics)
    }

    method Load(source: string) returns (unit: Option<Unit>)
      requires ctx.Valid() && source in files
      modifies `order, `diagnostics
      ensures unit == E.Load(ctx, files, source)
      ensures CurrentLog() == if unit.Some? then E.Loaded(old(CurrentLog()), unit.value) else old(CurrentLog())
    {
      unit := Read(ctx.registry, source, ctx.reader(files[source]));
      if unit.Some? {
        order := order + [unit.value];
        diagnostics := diagnostics + unit.value.diagnostics;
      }
    }

    method Note(error: string, source: string, offset: nat)
      modifies `diagnostics
      ensures CurrentLog() == E.Noted(old(CurrentLog()), error, source, offset)
    {
      diagnostics := diagnostics + [E.Problem(error, source, offset)];
    }

    /** Take up one PART block. */
    method AddPart(root: Unit, b: Block, complete0: bool, units0: seq<Unit>, named0: set<string>)
      returns (ok: bool, complete: bool, units: seq<Unit>, named: set<string>)
      requires ctx.Valid() && PartOk(ctx.registry, b)
      modifies `order, `diagnostics, `rows
      ensures E.AddPart(ctx, files, root, b, E.Parts(old(CurrentLog()), old(rows), complete0, units0, named0))
           == if ok then Some(E.Parts(CurrentLog(), rows, complete, units, named)) else None
    {
      ok, complete, units, named := true, complete0, units0, named0;
      var source, at := E.PartTarget(ctx, root.source, b), b.fields["SOURCE"].offset;
      var row := E.Row(RelativePath(b.fields["SOURCE"].value).value, b.fields["KIND"].value.value, E.Required(b), "loaded");
      if source in named {
        Note("error.project.part_duplicate", root.source, at);
        return;
      }
      named := named + {source};
      if source !in files {
        if E.Required(b) {
          Note("error.project.part_missing", root.source, at);
          complete := false;
          rows := rows + [row.(outcome := "missing")];
        } else {
          rows := rows + [row.(outcome := "omitted")];
        }
        return;
      }
      var unit := Load(source);
      if unit.None? {
        ok := false;
        return;
      }
      if !unit.value.Usable() {
        complete := false;
        rows := rows + [row.(outcome := "invalid")];
        return;
      }
      var misfit := E.Misfit(root, unit.value, b.fields["KIND"].value);
      if misfit.Some? {
        Note(misfit.value.0, source, misfit.value.1);
        complete := false;
        rows := rows + [row.(outcome := "invalid")];
        return;
      }
      units := units + [unit.value];
      rows := rows + [row];
    }

    method AddParts(root: Unit) returns (ok: bool, complete: bool, units: seq<Unit>, named: set<string>)
      requires ctx.Valid() && E.PartsOk(ctx, root.blocks)
      modifies `order, `diagnostics, `rows
      ensures E.AddParts(ctx, files, root, root.blocks, E.Parts(old(CurrentLog()), old(rows), true, [root], {}))
           == if ok then Some(E.Parts(CurrentLog(), rows, complete, units, named)) else None
    {
      ghost var start := E.Parts(CurrentLog(), rows, true, [root], {});
      var blocks := root.blocks;
      ok, complete, units, named := true, true, [root], {};
      for i := 0 to |blocks|
        invariant ok && E.AddParts(ctx, files, root, blocks[..i], start) == Some(E.Parts(CurrentLog(), rows, complete, units, named))
      {
        assert blocks[..i + 1][..i] == blocks[..i];
        if blocks[i].name == "PART" {
          ok, complete, units, named := AddPart(root, blocks[i], complete, units, named);
          if !ok {
            PartsFail(ctx, files, root, blocks, start, i + 1);
            return;
          }
        }
      }
      assert blocks[..|blocks|] == blocks;
    }

    /** Follow one import. */
    method FollowBlock(unit: Unit, chain: seq<string>, named: set<string>, b: Block) returns (ok: bool)
      requires ctx.Valid()
      modifies `order, `diagnostics
      ensures E.FollowBlock(ctx, files, unit, chain, named, b, old(CurrentLog())) == if ok then Some(CurrentLog()) else None
      decreases files.Keys - SetOf(chain), 0, 0
    {
      var target := E.ImportTarget(ctx, unit.source, b);
      if target.None? {
        return false;
      }
      var source, at := target.value, b.fields["SOURCE"].offset;
      ok := true;
      if source in chain {
        Note("error.import.cycle", unit.source, at);
      } else if source in named {
        Note("error.project.part_duplicate", unit.source, at);
      } else if source !in files {
        Note("error.import.not_found", unit.source, at);
      } else {
        var child := Load(source);
        if child.None? {
          return false;
        }
        if child.value.Usable() {
          if !E.Importable(ctx.registry, child.value) {
            Note("error.project.placement", source, child.value.header.kind.offset);
          } else {
            assert source in files.Keys - SetOf(chain) && source !in files.Keys - SetOf(chain + [source]);
            ok := Follow(child.value, chain + [source], named);
          }
        }
      }
    }

    /** Follow every import of one unit; the recursion ends because no chain of imports names a file twice. */
    method Follow(unit: Unit, chain: seq<string>, named: set<string>) returns (ok: bool)
      requires ctx.Valid()
      modifies `order, `diagnostics
      ensures E.FollowBlocks(ctx, files, unit, chain, named, unit.blocks, old(CurrentLog()))
           == if ok then Some(CurrentLog()) else None
      decreases files.Keys - SetOf(chain), 1, 0
    {
      ghost var start := CurrentLog();
      var blocks := unit.blocks;
      ok := true;
      for i := 0 to |blocks|
        invariant E.FollowBlocks(ctx, files, unit, chain, named, blocks[..i], start) == Some(CurrentLog())
      {
        assert blocks[..i + 1][..i] == blocks[..i];
        if E.IsImport(blocks[i]) {
          ok := FollowBlock(unit, chain, named, blocks[i]);
          if !ok {
            FollowFails(ctx, files, unit, chain, named, blocks, start, i + 1);
            return;
          }
        }
      }
      assert blocks[..|blocks|] == blocks;
    }

    method AddNamespaces(root: Unit) returns (ok: bool)
      requires namespaces == {}
      modifies `namespaces
      ensures E.Namespaces(root.blocks) == if ok then Some(namespaces) else None
    {
      var blocks := root.blocks;
      for i := 0 to |blocks|
        invariant E.Namespaces(blocks[..i]) == Some(namespaces)
      {
        assert blocks[..i + 1][..i] == blocks[..i];
        if E.IsImport(blocks[i]) {
          if "NAMESPACE" !in blocks[i].fields {
            NamespacesFail(blocks, i + 1);
            return false;
          }
          var value := blocks[i].fields["NAMESPACE"].value;
          namespaces := namespaces + if value.Some? then {value.value} else {};
        }
      }
      assert blocks[..|blocks|] == blocks;
      ok := true;
    }

    /** Declare the identifiers of the units in order. */
    method Declare(decls: seq<E.Declaration>) returns (ok: bool, declared: set<string>)
      modifies `diagnostics
      ensures var ids := E.Declare(namespaces, decls);
        && (ok <==> ids.Some?)
        && (ok ==> declared == ids.value.declared && diagnostics == old(diagnostics) + ids.value.diagnostics)
    {
      declared := {};
      ghost var found: seq<Diagnostic> := [];
      for i := 0 to |decls|
        invariant E.Declare(namespaces, decls[..i]) == Some(E.Ids(declared, found))
        invariant diagnostics == old(diagnostics) + found
      {
        assert decls[..i + 1][..i] == decls[..i];
        var d := decls[i];
        if d.id.None? {
          DeclareFails(namespaces, decls, i + 1);
          return false, declared;
        }
        if d.id.value in declared || E.FirstSegment(d.id.value) in namespaces {
          found := found + [E.Problem("error.id.duplicate", d.source, d.offset)];
          diagnostics := diagnostics + [E.Problem("error.id.duplicate", d.source, d.offset)];
        } else {
          declared := declared + {d.id.value};
        }
      }
      assert decls[..|decls|] == decls;
      ok := true;
    }

    /** The checks across the units of a complete project, up to the bases. */
    method Across(units: seq<Unit>) returns (bases: Option<Bases>)
      modifies `diagnostics
      ensures E.Across(old(CurrentLog()), units, namespaces)
           == if bases.Some? then Some((CurrentLog(), bases.value)) else None
    {
      ghost var before := diagnostics;
      var ok, declared := Declare(E.Declarations(units));
      if !ok {
        return None;
      }
      diagnostics := diagnostics + E.Unresolved(declared, namespaces, units);
      bases := E.AllBases(units);
    }

    /** One diagnostic for each BASE cycle. */
    method ReportCycles(units: seq<Unit>, bases: Bases, starts: seq<string>)
      requires Ranked(bases, |units|) && forall name :: name in starts <==> name in bases
      modifies `diagnostics
      ensures Emitted(E.Work(old(CurrentLog()), rows, units, bases), diagnostics)
    {
      ghost var w := E.Work(CurrentLog(), rows, units, bases);
      var reports := CycleReports(bases, starts);
      ReportsAreCycles(w, reports);
      for i := 0 to |reports|
        invariant forall d :: d in diagnostics <==> d in old(diagnostics) || InReports(w, reports[..i], d)
      {
        var d := CycleDiagnostic(units, bases, reports[i]);
        ReportsGrow(w, reports[..i], reports[i]);
        assert reports[..i + 1] == reports[..i] + [reports[i]];
        diagnostics := diagnostics + [d];
      }
      assert reports[..|reports|] == reports;
    }

    /** Evaluate one project. */
    method Evaluate(entry: string) returns (outcome: Outcome)
      requires ctx.Valid() && CurrentLog() == E.Log([], []) && rows == [] && namespaces == {}
      modifies this
      ensures Answers(ctx, files, entry, outcome)
    {
      GatherPlaced(ctx, files, entry);
      if entry !in files {
        return Crashed;
      }
      var loaded := Load(entry);
      if loaded.None? {
        return Crashed;
      }
      var root := loaded.value;
      if !root.Usable() {
        outcome := Finish([], map[]);
        return;
      }
      if root.Kind().Some? && root.Kind().value in ctx.registry.partKinds {
        Note("error.project.placement", entry, root.header.kind.offset);
        outcome := Finish([], map[]);
        return;
      }
      if root.Kind() != Some("kind.project") {
        return Crashed;
      }
      var ok, complete, units, named := AddParts(root);
      if !ok {
        return Crashed;
      }
      ok := Follow(root, [entry], named);
      if !ok {
        return Crashed;
      }
      ok := AddNamespaces(root);
      if !ok {
        return Crashed;
      }
      if !complete {
        outcome := Finish(units, map[]);
        return;
      }
      var bases := Across(units);
      if bases.None? {
        return Crashed;
      }
      outcome := Finish(units, bases.value);
    }

    /** Report the cycles, then sort. */
    method Finish(units: seq<Unit>, bases: Bases) returns (outcome: Outcome)
      requires WorkOk(E.Work(CurrentLog(), rows, units, bases))
      modifies `diagnostics
      ensures exists emitted :: Reported(E.Work(old(CurrentLog()), rows, units, bases), emitted, outcome)
    {
      ghost var w := E.Work(CurrentLog(), rows, units, bases);
      var starts := NamesIn(bases);
      ReportCycles(units, bases, starts);
      EmittedArePlaced(w, diagnostics);
      var reported, accept := ProjectDiagnostics.Finish(Sources(order), diagnostics);
      outcome := Finished(reported, rows, accept);
      assert Reported(w, diagnostics, outcome);
    }
  }

  lemma {:induction false} DeclareFails(namespaces: set<string>, decls: seq<E.Declaration>, n: nat)
    requires n <= |decls| && E.Declare(namespaces, decls[..n]).None?
    ensures E.Declare(namespaces, decls).None?
  {
    if n < |decls| {
      assert decls[..n] == decls[..|decls| - 1][..n];
      DeclareFails(namespaces, decls[..|decls| - 1], n);
    } else {
      assert decls[..n] == decls;
    }
  }

  function CycleDiagnostic(units: seq<Unit>, bases: Bases, name: string): Diagnostic
    requires name in bases && bases[name].rank < |units|
  {
    E.Problem("error.reference.cycle", units[bases[name].rank].source, bases[name].offset)
  }

  /** `d` comes from one of these reports. */
  ghost predicate InReports(w: E.Work, reports: seq<string>, d: Diagnostic)
    requires Ranked(w.bases, |w.units|)
  {
    exists name :: name in reports && name in w.bases && d == CycleDiagnostic(w.units, w.bases, name)
  }

  lemma ReportsGrow(w: E.Work, reports: seq<string>, name: string)
    requires Ranked(w.bases, |w.units|) && name in w.bases
    ensures forall d :: InReports(w, reports + [name], d) <==>
                        InReports(w, reports, d) || d == CycleDiagnostic(w.units, w.bases, name)
  {
    forall d
      ensures InReports(w, reports + [name], d) <==> InReports(w, reports, d) || d == CycleDiagnostic(w.units, w.bases, name)
    {
      if InReports(w, reports, d) {
        var x :| x in reports && x in w.bases && d == CycleDiagnostic(w.units, w.bases, x);
        assert x in reports + [name];
      }
      assert name in reports + [name];
    }
  }

  /** The walk's reports are all the cycles' first members, up to ties, which give the same diagnostic. */
  lemma ReportsAreCycles(w: E.Work, reports: seq<string>)
    requires Ranked(w.bases, |w.units|)
    requires forall i | 0 <= i < |reports| :: FirstOfSome(w.bases, reports[i])
    requires forall ring | Ring(w.bases, ring) :: ReportedOnce(reports, ring)
    ensures forall i | 0 <= i < |reports| :: reports[i] in w.bases
    ensures forall d :: InReports(w, reports, d) <==> exists name :: CycleAt(w, name, d)
  {
    forall i | 0 <= i < |reports|
      ensures reports[i] in w.bases
    {
      var ring :| Reports(w.bases, ring, reports[i]);
    }
    forall d
      ensures InReports(w, reports, d) <==> exists name :: CycleAt(w, name, d)
    {
      if InReports(w, reports, d) {
        var name :| name in reports && name in w.bases && d == CycleDiagnostic(w.units, w.bases, name);
        assert CycleAt(w, name, d);
      }
      if name :| CycleAt(w, name, d) {
        FirstIsReported(w, reports, name);
      }
    }
  }

  lemma FirstIsReported(w: E.Work, reports: seq<string>, name: string)
    requires Ranked(w.bases, |w.units|) && FirstOfSome(w.bases, name) && name in w.bases
    requires forall i | 0 <= i < |reports| :: FirstOfSome(w.bases, reports[i])
    requires forall ring | Ring(w.bases, ring) :: ReportedOnce(reports, ring)
    ensures InReports(w, reports, CycleDiagnostic(w.units, w.bases, name))
  {
    var ring :| Reports(w.bases, ring, name);
    assert ReportedOnce(reports, ring);
    var i :| 0 <= i < |reports| && reports[i] in ring;
    var other := reports[i];
    var mine :| Reports(w.bases, mine, other);
    RingsMeet(w.bases, ring, mine, other);
    RingsMeet(w.bases, mine, ring, other);
    assert Before(w.bases[name], w.bases[other]) && Before(w.bases[other], w.bases[name]);
    assert other in reports;
  }

  lemma EmittedArePlaced(w: E.Work, emitted: seq<Diagnostic>)
    requires WorkOk(w) && Emitted(w, emitted)
    ensures AllPlaced(Sources(w.log.order), emitted)
  {
    forall i | 0 <= i < |emitted|
      ensures Placed(Sources(w.log.order), emitted[i])
    {
      var d := emitted[i];
      assert d in emitted;
      assert STAGES[3] == "resolution";
    }
  }

  /** The names of a map, each once. */
  method NamesIn(bases: Bases) returns (names: seq<string>)
    ensures forall name :: name in names <==> name in bases
  {
    names := [];
    var left := bases.Keys;
    while left != {}
      invariant left <= bases.Keys
      invariant forall name :: name in names <==> name in bases.Keys - left
      decreases left
    {
      var name :| name in left;
      names := names + [name];
      left := left - {name};
    }
  }
}
