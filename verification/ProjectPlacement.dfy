/** Every diagnostic of an evaluation names a source that was loaded, so it has its place in the report. */
module ProjectPlacement {
  import opened Base
  import opened ProjectBases
  import opened ProjectDiagnostics
  import opened ProjectUnits
  import opened ProjectEvaluation

  function Sources(order: seq<Unit>): (r: seq<string>)
    ensures |r| == |order| && forall i | 0 <= i < |r| :: r[i] == order[i].source
  {
    seq(|order|, i requires 0 <= i < |order| => order[i].source)
  }

  predicate LogOk(log: Log) {
    AllPlaced(Sources(log.order), log.diagnostics)
  }

  predicate Within(source: string, order: seq<Unit>) {
    source in Sources(order)
  }

  lemma PlacedMore(before: seq<string>, after: seq<string>, s: seq<Diagnostic>)
    requires AllPlaced(before, s) && forall x | x in before :: x in after
    ensures AllPlaced(after, s)
  {
  }

  lemma LoadedPlaced(log: Log, unit: Unit)
    requires LogOk(log) && AllPlaced([unit.source], unit.diagnostics)
    ensures LogOk(Loaded(log, unit)) && Within(unit.source, Loaded(log, unit).order)
    ensures forall s | Within(s, log.order) :: Within(s, Loaded(log, unit).order)
  {
    var after := Sources(log.order + [unit]);
    assert after == Sources(log.order) + [unit.source];
    PlacedMore([unit.source], after, unit.diagnostics);
    PlacedMore(Sources(log.order), after, log.diagnostics);
  }

  lemma NotedPlaced(log: Log, error: string, source: string, offset: nat)
    requires LogOk(log) && Within(source, log.order)
    ensures LogOk(Noted(log, error, source, offset))
  {
    assert STAGES[3] == "resolution";
  }

  ghost predicate Grows(before: Log, after: Option<Log>) {
    after.Some? ==> LogOk(after.value) && before.order <= after.value.order
  }

  lemma Kept(before: seq<Unit>, after: seq<Unit>)
    requires before <= after
    ensures forall s | Within(s, before) :: Within(s, after)
  {
    forall s | Within(s, before)
      ensures Within(s, after)
    {
      var i :| 0 <= i < |before| && Sources(before)[i] == s;
      assert Sources(after)[i] == s;
    }
  }

  lemma {:induction false} FollowBlockPlaced(ctx: Context, files: map<string, string>, unit: Unit, chain: seq<string>,
                                             named: set<string>, b: Block, log: Log)
    requires ctx.Valid() && LogOk(log) && Within(unit.source, log.order)
    ensures Grows(log, FollowBlock(ctx, files, unit, chain, named, b, log))
    decreases files.Keys - SetOf(chain), 0, 0
  {
    var target := ImportTarget(ctx, unit.source, b);
    if target.Some? {
      var source, at := target.value, b.fields["SOURCE"].offset;
      NotedPlaced(log, "error.import.cycle", unit.source, at);
      NotedPlaced(log, "error.project.part_duplicate", unit.source, at);
      NotedPlaced(log, "error.import.not_found", unit.source, at);
      if source !in chain && source !in named && source in files && Load(ctx, files, source).Some? {
        var child := Load(ctx, files, source).value;
        LoadedPlaced(log, child);
        NotedPlaced(Loaded(log, child), "error.project.placement", source, child.header.kind.offset);
        if child.Usable() && Importable(ctx.registry, child) {
          assert source in files.Keys - SetOf(chain) && source !in files.Keys - SetOf(chain + [source]);
          FollowBlocksPlaced(ctx, files, child, chain + [source], named, child.blocks, Loaded(log, child));
        }
      }
    }
  }

  lemma {:induction false} FollowBlocksPlaced(ctx: Context, files: map<string, string>, unit: Unit, chain: seq<string>,
                                              named: set<string>, blocks: seq<Block>, log: Log)
    requires ctx.Valid() && LogOk(log) && Within(unit.source, log.order)
    ensures Grows(log, FollowBlocks(ctx, files, unit, chain, named, blocks, log))
    decreases files.Keys - SetOf(chain), 1, |blocks|
  {
    if blocks != [] {
      var b, init := blocks[|blocks| - 1], blocks[..|blocks| - 1];
      FollowBlocksPlaced(ctx, files, unit, chain, named, init, log);
      var next := FollowBlocks(ctx, files, unit, chain, named, init, log);
      if next.Some? && IsImport(b) {
        Kept(log.order, next.value.order);
        FollowBlockPlaced(ctx, files, unit, chain, named, b, next.value);
      }
    }
  }

  /** The units of the project have been loaded. */
  ghost predicate PartsPlaced(parts: Parts, root: Unit) {
    && LogOk(parts.log) && parts.units != [] && parts.units[0] == root
    && forall i | 0 <= i < |parts.units| :: Within(parts.units[i].source, parts.log.order)
  }

  lemma AddPartPlaced(ctx: Context, files: map<string, string>, root: Unit, b: Block, s: Parts)
    requires ctx.Valid() && PartOk(ctx.registry, b) && PartsPlaced(s, root)
    ensures var t := AddPart(ctx, files, root, b, s); t.Some? ==> PartsPlaced(t.value, root)
  {
    var source, at := PartTarget(ctx, root.source, b), b.fields["SOURCE"].offset;
    NotedPlaced(s.log, "error.project.part_duplicate", root.source, at);
    NotedPlaced(s.log, "error.project.part_missing", root.source, at);
    if source !in s.named && source in files && Load(ctx, files, source).Some? {
      var unit := Load(ctx, files, source).value;
      LoadedPlaced(s.log, unit);
      if Misfit(root, unit, b.fields["KIND"].value).Some? {
        var misfit := Misfit(root, unit, b.fields["KIND"].value).value;
        NotedPlaced(Loaded(s.log, unit), misfit.0, source, misfit.1);
      }
    }
  }

  lemma {:induction false} AddPartsPlaced(ctx: Context, files: map<string, string>, root: Unit, blocks: seq<Block>, s: Parts)
    requires ctx.Valid() && PartsOk(ctx, blocks) && PartsPlaced(s, root)
    ensures var t := AddParts(ctx, files, root, blocks, s); t.Some? ==> PartsPlaced(t.value, root)
  {
    if blocks != [] {
      var b, init := blocks[|blocks| - 1], blocks[..|blocks| - 1];
      AddPartsPlaced(ctx, files, root, init, s);
      var t := AddParts(ctx, files, root, init, s);
      if t.Some? && b.name == "PART" {
        AddPartPlaced(ctx, files, root, b, t.value);
      }
    }
  }

  predicate UnitsWithin(units: seq<Unit>, sources: seq<string>) {
    forall i | 0 <= i < |units| :: units[i].source in sources
  }

  lemma {:induction false} DeclarationsWithin(units: seq<Unit>, sources: seq<string>)
    requires UnitsWithin(units, sources)
    ensures forall i | 0 <= i < |Declarations(units)| :: Declarations(units)[i].source in sources
  {
    if units != [] {
      DeclarationsWithin(units[..|units| - 1], sources);
      SameSource(units[|units| - 1].source, units[|units| - 1].blocks);
    }
  }

  lemma {:induction false} SameSource(source: string, blocks: seq<Block>)
    ensures forall i | 0 <= i < |DeclarationsOf(source, blocks)| :: DeclarationsOf(source, blocks)[i].source == source
  {
    if blocks != [] {
      SameSource(source, blocks[..|blocks| - 1]);
    }
  }

  lemma {:induction false} DeclarePlaced(namespaces: set<string>, decls: seq<Declaration>, sources: seq<string>)
    requires forall i | 0 <= i < |decls| :: decls[i].source in sources
    ensures var ids := Declare(namespaces, decls); ids.Some? ==> AllPlaced(sources, ids.value.diagnostics)
  {
    if decls != [] {
      DeclarePlaced(namespaces, decls[..|decls| - 1], sources);
      assert STAGES[3] == "resolution";
    }
  }

  lemma {:induction false} UnresolvedPlaced(declared: set<string>, namespaces: set<string>, units: seq<Unit>,
                                            sources: seq<string>)
    requires UnitsWithin(units, sources)
    ensures AllPlaced(sources, Unresolved(declared, namespaces, units))
  {
    if units != [] {
      UnresolvedPlaced(declared, namespaces, units[..|units| - 1], sources);
      UnresolvedInPlaced(declared, namespaces, units[|units| - 1].source, units[|units| - 1].refs, sources);
    }
  }

  lemma {:induction false} UnresolvedInPlaced(declared: set<string>, namespaces: set<string>, source: string,
                                              refs: seq<Reference>, sources: seq<string>)
    requires source in sources
    ensures AllPlaced(sources, UnresolvedIn(declared, namespaces, source, refs))
  {
    if refs != [] {
      UnresolvedInPlaced(declared, namespaces, source, refs[..|refs| - 1], sources);
      assert STAGES[3] == "resolution";
    }
  }

  predicate Ranked(bases: Bases, n: nat) {
    forall name | name in bases :: bases[name].rank < n
  }

  lemma {:induction false} BasesRanked(units: seq<Unit>)
    ensures AllBases(units).Some? ==> Ranked(AllBases(units).value, |units|)
  {
    if units != [] {
      BasesRanked(units[..|units| - 1]);
      var before := AllBases(units[..|units| - 1]);
      if before.Some? {
        BasesOfRanked(units[|units| - 1].blocks, |units| - 1, before.value);
      }
    }
  }

  lemma {:induction false} BasesOfRanked(blocks: seq<Block>, rank: nat, before: Bases)
    requires Ranked(before, rank)
    ensures BasesOf(blocks, rank, before).Some? ==> Ranked(BasesOf(blocks, rank, before).value, rank + 1)
  {
    if blocks != [] {
      BasesOfRanked(blocks[..|blocks| - 1], rank, before);
    }
  }

  /** Everything an evaluation gathers can be reported. */
  ghost predicate WorkOk(w: Work) {
    LogOk(w.log) && Ranked(w.bases, |w.units|) && UnitsWithin(w.units, Sources(w.log.order))
  }

  lemma AcrossPlaced(log: Log, units: seq<Unit>, namespaces: set<string>)
    requires LogOk(log) && UnitsWithin(units, Sources(log.order))
    ensures var r := Across(log, units, namespaces);
      r.Some? ==> LogOk(r.value.0) && r.value.0.order == log.order && Ranked(r.value.1, |units|)
  {
    var sources := Sources(log.order);
    DeclarationsWithin(units, sources);
    DeclarePlaced(namespaces, Declarations(units), sources);
    BasesRanked(units);
    if Declare(namespaces, Declarations(units)).Some? {
      UnresolvedPlaced(Declare(namespaces, Declarations(units)).value.declared, namespaces, units, sources);
    }
  }

  lemma GatherPlaced(ctx: Context, files: map<string, string>, entry: string)
    requires ctx.Valid()
    ensures Gather(ctx, files, entry).Some? ==> WorkOk(Gather(ctx, files, entry).value)
  {
    if entry in files && Load(ctx, files, entry).Some? {
      var root := Load(ctx, files, entry).value;
      var log := Loaded(Log([], []), root);
      LoadedPlaced(Log([], []), root);
      NotedPlaced(log, "error.project.placement", entry, root.header.kind.offset);
      if root.Usable() && root.Kind() == Some("kind.project") {
        var start := Parts(log, [], true, [root], {});
        AddPartsPlaced(ctx, files, root, root.blocks, start);
        var parts := AddParts(ctx, files, root, root.blocks, start);
        if parts.Some? {
          ImportsPlaced(ctx, files, entry, root, parts.value);
        }
      }
    }
  }

  lemma ImportsPlaced(ctx: Context, files: map<string, string>, entry: string, root: Unit, parts: Parts)
    requires ctx.Valid() && PartsPlaced(parts, root)
    ensures var w := Imports(ctx, files, entry, root, parts); w.Some? ==> WorkOk(w.value)
  {
    FollowBlocksPlaced(ctx, files, root, [entry], parts.named, root.blocks, parts.log);
    var log := FollowBlocks(ctx, files, root, [entry], parts.named, root.blocks, parts.log);
    if log.Some? && Namespaces(root.blocks).Some? {
      Kept(parts.log.order, log.value.order);
      AcrossPlaced(log.value, parts.units, Namespaces(root.blocks).value);
    }
  }
}
