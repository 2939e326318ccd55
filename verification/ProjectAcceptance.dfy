/** When a project is accepted, stated without the steps of its evaluation. */
module ProjectAcceptance {
  import opened Base
  import opened Order
  import opened ProjectBases
  import opened ProjectDiagnostics
  import opened ProjectUnits
  import opened ProjectEvaluation
  import opened ProjectImports
  import ProjectLocality
  import opened ProjectPlacement

  datatype Outcome = Crashed | Finished(diagnostics: seq<Diagnostic>, parts: seq<Row>, accept: bool)

  // ------------------------------------------------------------------ what an evaluation answers

  /** `d` reports the cycle whose first member is `name`. */
  ghost predicate CycleAt(w: Work, name: string, d: Diagnostic) {
    && name in w.bases && FirstOfSome(w.bases, name) && w.bases[name].rank < |w.units|
    && d == Problem("error.reference.cycle", w.units[w.bases[name].rank].source, w.bases[name].offset)
  }

  ghost predicate Emitted(w: Work, emitted: seq<Diagnostic>) {
    forall d :: d in emitted <==> d in w.log.diagnostics || exists name :: CycleAt(w, name, d)
  }

  ghost predicate Reported(w: Work, emitted: seq<Diagnostic>, outcome: Outcome) {
    && AllPlaced(Sources(w.log.order), emitted) && Emitted(w, emitted)
    && outcome == Finished(Sorted(Sources(w.log.order), emitted), w.rows, emitted == [])
  }

  /** The answer for a project: what was gathered, with one diagnostic for each BASE cycle, in order. */
  ghost predicate Answers(ctx: Context, files: Files, entry: string, outcome: Outcome)
    requires ctx.Valid()
  {
    match Gather(ctx, files, entry)
    case None => outcome == Crashed
    case Some(w) => exists emitted :: Reported(w, emitted, outcome)
  }

  /** There is only one answer. */
  lemma AnswerIsUnique(ctx: Context, files: Files, entry: string, a: Outcome, b: Outcome)
    requires ctx.Valid() && Answers(ctx, files, entry, a) && Answers(ctx, files, entry, b)
    ensures a == b
  {
    var gathered := Gather(ctx, files, entry);
    if gathered.Some? {
      var w := gathered.value;
      var e: seq<Diagnostic> :| Reported(w, e, a);
      var f: seq<Diagnostic> :| Reported(w, f, b);
      assert forall d :: d in e <==> d in f;
      EmissionOrderIsIrrelevant(Sources(w.log.order), e, f);
      assert e != [] ==> e[0] in f;
      assert f != [] ==> f[0] in e;
    }
  }

  /**
   * Evaluations of two sets of files give the same answer if the files agree on some set that holds the entry
   * and everything its files name.
   */
  lemma AnswerIsLocal(ctx: Context, f: Files, g: Files, entry: string, within: set<string>, a: Outcome, b: Outcome)
    requires ctx.Valid() && Answers(ctx, f, entry, a) && Answers(ctx, g, entry, b)
    requires ProjectLocality.Agree(f, g, within) && ProjectLocality.Closed(ctx, f, within) && entry in within
    ensures a == b
  {
    ProjectLocality.OnlyNamedFilesMatter(ctx, f, g, entry, within);
    AnswerIsUnique(ctx, f, entry, a, b);
  }

  // ------------------------------------------------------------------ parts

  predicate IsPart(b: Block) {
    b.name == "PART"
  }

  /** A part for this version of the language, of the kind its block names and not a project, and of its entry's version. */
  predicate Fits(root: Unit, part: Unit, kind: Option<string>) {
    && part.header.lcl.value == Some("0.3.0")
    && part.header.kind.value == kind && kind != Some("kind.project")
    && part.header.spec.value == root.header.spec.value
  }

  /** A part that is there is usable and fits; one that is not there is said to be optional. */
  predicate PartSound(ctx: Context, files: Files, root: Unit, b: Block)
    requires ctx.Valid() && PartOk(ctx.registry, b)
  {
    var source := PartTarget(ctx, root.source, b);
    if source in files then
      var unit := Load(ctx, files, source);
      unit.Some? && unit.value.diagnostics == [] && Fits(root, unit.value, b.fields["KIND"].value)
    else "REQUIRED" in b.fields && b.fields["REQUIRED"].value == Some("FALSE")
  }

  /** The sources the PART blocks name. */
  function PartTargets(ctx: Context, root: Unit, blocks: seq<Block>): seq<string>
    requires PartsOk(ctx, blocks)
  {
    if blocks == [] then []
    else
      var b := blocks[|blocks| - 1];
      PartTargets(ctx, root, blocks[..|blocks| - 1]) + if IsPart(b) then [PartTarget(ctx, root.source, b)] else []
  }

  predicate PartsSound(ctx: Context, files: Files, root: Unit, blocks: seq<Block>)
    requires ctx.Valid() && PartsOk(ctx, blocks)
  {
    && Distinct(PartTargets(ctx, root, blocks))
    && forall i | 0 <= i < |blocks| && IsPart(blocks[i]) :: PartSound(ctx, files, root, blocks[i])
  }

  /** The entry and the parts that are there, in the order of their PART blocks. */
  function UnitsOf(ctx: Context, files: Files, root: Unit, blocks: seq<Block>): seq<Unit>
    requires ctx.Valid() && PartsOk(ctx, blocks)
  {
    if blocks == [] then [root]
    else
      var b := blocks[|blocks| - 1];
      UnitsOf(ctx, files, root, blocks[..|blocks| - 1])
      + if IsPart(b) && PartTarget(ctx, root.source, b) in files then
          var unit := Load(ctx, files, PartTarget(ctx, root.source, b));
          if unit.Some? then [unit.value] else []
        else []
  }

  /** `t` is where adding the parts of `blocks` to `s` should lead when nothing is wrong with them. */
  ghost predicate PartsAdded(ctx: Context, files: Files, root: Unit, blocks: seq<Block>, s: Parts, t: Parts)
    requires ctx.Valid() && PartsOk(ctx, blocks)
  {
    && t.complete && t.units == UnitsOf(ctx, files, root, blocks)
    && t.log.diagnostics == s.log.diagnostics
    && forall x :: x in t.named <==> x in PartTargets(ctx, root, blocks)
  }

  lemma AddPartExact(ctx: Context, files: Files, root: Unit, b: Block, s: Parts)
    requires ctx.Valid() && PartOk(ctx.registry, b) && s.complete
    ensures var t := AddPart(ctx, files, root, b, s); var source := PartTarget(ctx, root.source, b);
      && (t.Some? ==> s.log.diagnostics <= t.value.log.diagnostics)
      && (t.Some? && t.value.log.diagnostics == s.log.diagnostics <==>
            source !in s.named && PartSound(ctx, files, root, b))
      && (t.Some? && t.value.log.diagnostics == s.log.diagnostics ==>
            && t.value.complete && t.value.named == s.named + {source}
            && t.value.units == s.units + if source in files then [Load(ctx, files, source).value] else [])
  {
    var source := PartTarget(ctx, root.source, b);
    if source !in s.named && source in files {
      var unit := Load(ctx, files, source);
      if unit.Some? {
        assert |Loaded(s.log, unit.value).diagnostics| == |s.log.diagnostics| + |unit.value.diagnostics|;
      }
    }
  }

  lemma {:induction false} AddPartsEmit(ctx: Context, files: Files, root: Unit, blocks: seq<Block>, s: Parts)
    requires ctx.Valid() && PartsOk(ctx, blocks)
    ensures var t := AddParts(ctx, files, root, blocks, s); t.Some? ==> s.log.diagnostics <= t.value.log.diagnostics
  {
    if blocks != [] {
      AddPartsEmit(ctx, files, root, blocks[..|blocks| - 1], s);
    }
  }

  /** Adding the parts emits nothing exactly when they are sound, and then takes up exactly those that are there. */
  lemma {:induction false} AddPartsExact(ctx: Context, files: Files, root: Unit, blocks: seq<Block>, s: Parts)
    requires ctx.Valid() && PartsOk(ctx, blocks)
    requires s.complete && s.units == [root] && s.named == {}
    ensures var t := AddParts(ctx, files, root, blocks, s);
      (t.Some? && t.value.log.diagnostics == s.log.diagnostics <==> PartsSound(ctx, files, root, blocks))
    ensures PartsSound(ctx, files, root, blocks) ==>
      PartsAdded(ctx, files, root, blocks, s, AddParts(ctx, files, root, blocks, s).value)
  {
    if blocks != [] {
      var n := |blocks| - 1;
      var b, init := blocks[n], blocks[..n];
      AddPartsExact(ctx, files, root, init, s);
      AddPartsEmit(ctx, files, root, init, s);
      assert forall i | 0 <= i < n :: init[i] == blocks[i];
      var t := AddParts(ctx, files, root, init, s);
      if IsPart(b) {
        if t.Some? && t.value.log.diagnostics == s.log.diagnostics {
          AddPartExact(ctx, files, root, b, t.value);
        } else if t.Some? {
          AddPartsEmit(ctx, files, root, blocks, s);
          LaterParts(ctx, files, root, b, t.value);
        }
        PartsSoundSplit(ctx, files, root, blocks);
      } else {
        PartsSoundSkip(ctx, files, root, blocks);
      }
    }
  }

  lemma LaterParts(ctx: Context, files: Files, root: Unit, b: Block, s: Parts)
    requires ctx.Valid() && PartOk(ctx.registry, b)
    ensures var t := AddPart(ctx, files, root, b, s); t.Some? ==> s.log.diagnostics <= t.value.log.diagnostics
  {
  }

  lemma {:induction false} PartsSoundSplit(ctx: Context, files: Files, root: Unit, blocks: seq<Block>)
    requires ctx.Valid() && PartsOk(ctx, blocks) && blocks != [] && IsPart(blocks[|blocks| - 1])
    ensures var b, init := blocks[|blocks| - 1], blocks[..|blocks| - 1];
      PartsSound(ctx, files, root, blocks) <==>
      PartsSound(ctx, files, root, init) && PartSound(ctx, files, root, b)
      && PartTarget(ctx, root.source, b) !in PartTargets(ctx, root, init)
  {
    var n := |blocks| - 1;
    var b, init := blocks[n], blocks[..n];
    var source := PartTarget(ctx, root.source, b);
    assert PartTargets(ctx, root, blocks) == PartTargets(ctx, root, init) + [source];
    DistinctPush(PartTargets(ctx, root, init), source);
    EachPartSplit(ctx, files, root, blocks);
  }

  lemma DistinctPush(s: seq<string>, x: string)
    ensures Distinct(s + [x]) <==> Distinct(s) && x !in s
  {
    if Distinct(s + [x]) {
      assert forall i | 0 <= i < |s| :: (s + [x])[i] == s[i] && (s + [x])[i] != (s + [x])[|s|];
    }
  }

  lemma EachPartSplit(ctx: Context, files: Files, root: Unit, blocks: seq<Block>)
    requires ctx.Valid() && PartsOk(ctx, blocks) && blocks != []
    ensures var n := |blocks| - 1; var init := blocks[..n];
      (forall i | 0 <= i < |blocks| && IsPart(blocks[i]) :: PartSound(ctx, files, root, blocks[i])) <==>
      (forall i | 0 <= i < |init| && IsPart(init[i]) :: PartSound(ctx, files, root, init[i]))
      && (IsPart(blocks[n]) ==> PartSound(ctx, files, root, blocks[n]))
  {
    var n := |blocks| - 1;
    assert forall i | 0 <= i < n :: blocks[..n][i] == blocks[i];
  }

  lemma PartsSoundSkip(ctx: Context, files: Files, root: Unit, blocks: seq<Block>)
    requires ctx.Valid() && PartsOk(ctx, blocks) && blocks != [] && !IsPart(blocks[|blocks| - 1])
    ensures PartsSound(ctx, files, root, blocks) <==> PartsSound(ctx, files, root, blocks[..|blocks| - 1])
  {
    var n := |blocks| - 1;
    assert PartTargets(ctx, root, blocks) == PartTargets(ctx, root, blocks[..n]);
    assert forall i | 0 <= i < n :: blocks[..n][i] == blocks[i];
  }

  // ------------------------------------------------------------------ identifiers, references, bases

  /** Every identifier has a text of its own, outside the imported namespaces. */
  predicate IdsSound(namespaces: set<string>, decls: seq<Declaration>) {
    && (forall i | 0 <= i < |decls| :: decls[i].id.Some? && FirstSegment(decls[i].id.value) !in namespaces)
    && forall i, j | 0 <= i < j < |decls| :: decls[i].id != decls[j].id
  }

  predicate IsDeclared(decls: seq<Declaration>, id: string) {
    exists i :: 0 <= i < |decls| && decls[i].id == Some(id)
  }

  /** Declaring emits nothing exactly when the identifiers are sound, and then knows exactly them. */
  lemma {:induction false} DeclareExact(namespaces: set<string>, decls: seq<Declaration>)
    ensures var ids := Declare(namespaces, decls);
      && (ids.Some? && ids.value.diagnostics == [] <==> IdsSound(namespaces, decls))
      && (IdsSound(namespaces, decls) ==> forall id :: id in ids.value.declared <==> IsDeclared(decls, id))
  {
    if decls != [] {
      var n := |decls| - 1;
      var init, d := decls[..n], decls[n];
      DeclareExact(namespaces, init);
      assert forall i | 0 <= i < n :: init[i] == decls[i];
      if d.id.Some? && IdsSound(namespaces, init) {
        assert d.id.value in Declare(namespaces, init).value.declared <==> IsDeclared(init, d.id.value);
        forall id
          ensures IsDeclared(decls, id) <==> IsDeclared(init, id) || d.id == Some(id)
        {
          if IsDeclared(init, id) {
            var i :| 0 <= i < n && init[i].id == Some(id);
            assert decls[i].id == Some(id);
          }
          assert d.id == Some(id) ==> decls[n].id == Some(id);
        }
        assert IdsSound(namespaces, decls) ==> forall i | 0 <= i < n :: decls[i].id != decls[n].id;
      }
    }
  }

  predicate UnitRefsSound(declared: set<string>, namespaces: set<string>, refs: seq<Reference>) {
    forall i | 0 <= i < |refs| :: FirstSegment(refs[i].target) in namespaces || refs[i].target in declared
  }

  lemma {:induction false} UnresolvedInExact(declared: set<string>, namespaces: set<string>, source: string,
                                             refs: seq<Reference>)
    ensures UnresolvedIn(declared, namespaces, source, refs) == [] <==> UnitRefsSound(declared, namespaces, refs)
  {
    if refs != [] {
      var n := |refs| - 1;
      UnresolvedInExact(declared, namespaces, source, refs[..n]);
      assert forall i | 0 <= i < n :: refs[..n][i] == refs[i];
    }
  }

  lemma {:induction false} UnresolvedExact(declared: set<string>, namespaces: set<string>, units: seq<Unit>)
    ensures Unresolved(declared, namespaces, units) == [] <==>
      forall u | 0 <= u < |units| :: UnitRefsSound(declared, namespaces, units[u].refs)
  {
    if units != [] {
      var n := |units| - 1;
      UnresolvedExact(declared, namespaces, units[..n]);
      UnresolvedInExact(declared, namespaces, units[n].source, units[n].refs);
      assert forall u | 0 <= u < n :: units[..n][u] == units[u];
    }
  }

  // ------------------------------------------------------------------ the whole project

  /** No definition is based on itself, directly or through others. */
  ghost predicate Acyclic(bases: Bases) {
    forall ring :: !Ring(bases, ring)
  }

  /** Every reference is to a declared identifier or into an imported namespace. */
  predicate RefsSound(decls: seq<Declaration>, namespaces: set<string>, units: seq<Unit>) {
    forall u, i | 0 <= u < |units| && 0 <= i < |units[u].refs| ::
      FirstSegment(units[u].refs[i].target) in namespaces || IsDeclared(decls, units[u].refs[i].target)
  }

  ghost predicate AcrossSound(units: seq<Unit>, namespaces: set<string>) {
    && IdsSound(namespaces, Declarations(units)) && RefsSound(Declarations(units), namespaces, units)
    && AllBases(units).Some? && Acyclic(AllBases(units).value)
  }

  /**
   * A sound project: a usable project entry; parts that are there, fit and are named once; imports that are
   * acyclic and meet only libraries; identifiers that are unique; references that resolve; bases without a cycle.
   */
  ghost predicate ProjectSound(ctx: Context, files: Files, entry: string)
    requires ctx.Valid()
  {
    && entry in files && Load(ctx, files, entry).Some?
    && var root := Load(ctx, files, entry).value;
    && root.Usable() && root.Kind() == Some("kind.project")
    && PartsSound(ctx, files, root, root.blocks)
    && ImportsReadable(ctx, root)
    && ImportsSound(ctx, files, SetOf(PartTargets(ctx, root, root.blocks)), entry)
    && Namespaces(root.blocks).Some?
    && AcrossSound(UnitsOf(ctx, files, root, root.blocks), Namespaces(root.blocks).value)
  }

  /** What `Across` adds is nothing exactly when identifiers and references are sound. */
  lemma {:induction false} AcrossExact(log: Log, units: seq<Unit>, namespaces: set<string>)
    ensures var r := Across(log, units, namespaces);
      && (r.Some? ==> log.diagnostics <= r.value.0.diagnostics && AllBases(units) == Some(r.value.1))
      && (r.Some? && r.value.0.diagnostics == log.diagnostics <==>
            && IdsSound(namespaces, Declarations(units)) && RefsSound(Declarations(units), namespaces, units)
            && AllBases(units).Some?)
  {
    var decls := Declarations(units);
    DeclareExact(namespaces, decls);
    var ids := Declare(namespaces, decls);
    if ids.Some? {
      var more := ids.value.diagnostics + Unresolved(ids.value.declared, namespaces, units);
      assert log.diagnostics + ids.value.diagnostics + Unresolved(ids.value.declared, namespaces, units) == log.diagnostics + more;
      assert log.diagnostics + more == log.diagnostics <==> |more| == 0;
      UnresolvedExact(ids.value.declared, namespaces, units);
    }
  }

  /** A BASE cycle is reported exactly when there is one. */
  lemma CyclesShow(w: Work)
    requires WorkOk(w)
    ensures Acyclic(w.bases) <==> forall name, d :: !CycleAt(w, name, d)
  {
    if name, d :| CycleAt(w, name, d) {
      var ring :| Reports(w.bases, ring, name);
      assert Ring(w.bases, ring);
    }
    if !Acyclic(w.bases) {
      var ring :| Ring(w.bases, ring);
      var name := FirstOf(w.bases, ring);
      assert Reports(w.bases, ring, name);
      var d := Problem("error.reference.cycle", w.units[w.bases[name].rank].source, w.bases[name].offset);
      assert CycleAt(w, name, d);
    }
  }

  lemma {:induction false} FirstUpTo(bases: Bases, ring: seq<string>, n: nat) returns (first: string)
    requires 0 < n <= |ring| && forall k | 0 <= k < |ring| :: ring[k] in bases
    ensures first in ring && first in bases && forall k | 0 <= k < n :: Before(bases[first], bases[ring[k]])
  {
    if n == 1 {
      first := ring[0];
    } else {
      first := FirstUpTo(bases, ring, n - 1);
      if !Before(bases[first], bases[ring[n - 1]]) {
        first := ring[n - 1];
      }
    }
  }

  lemma FirstOf(bases: Bases, ring: seq<string>) returns (first: string)
    requires Ring(bases, ring)
    ensures IsFirst(bases, ring, first)
  {
    first := FirstUpTo(bases, ring, |ring|);
  }

  /** The imports of a project whose parts are sound: nothing is emitted exactly when the rest is sound too. */
  lemma {:induction false} ImportsExact(ctx: Context, files: Files, entry: string, root: Unit, parts: Parts)
    requires ctx.Valid() && entry in files && Load(ctx, files, entry) == Some(root) && root.Usable()
    requires PartsOk(ctx, root.blocks) && parts.log.diagnostics == [] && parts.complete
    requires parts.units == UnitsOf(ctx, files, root, root.blocks)
    requires parts.named == SetOf(PartTargets(ctx, root, root.blocks))
    ensures var w := Imports(ctx, files, entry, root, parts);
      w.Some? && w.value.log.diagnostics == [] && Acyclic(w.value.bases) <==>
      && ImportsReadable(ctx, root)
      && ImportsSound(ctx, files, SetOf(PartTargets(ctx, root, root.blocks)), entry)
      && Namespaces(root.blocks).Some?
      && AcrossSound(UnitsOf(ctx, files, root, root.blocks), Namespaces(root.blocks).value)
  {
    FollowIsExact(ctx, files, parts.named, entry, root, parts.log);
    FollowBlocksEmits(ctx, files, root, [entry], parts.named, root.blocks, parts.log);
    var log := FollowBlocks(ctx, files, root, [entry], parts.named, root.blocks, parts.log);
    if log.Some? && Namespaces(root.blocks).Some? {
      AcrossExact(log.value, parts.units, Namespaces(root.blocks).value);
    }
  }

  lemma ImportsEmit(ctx: Context, files: Files, entry: string, root: Unit, parts: Parts)
    requires ctx.Valid()
    ensures var w := Imports(ctx, files, entry, root, parts);
      w.Some? ==> parts.log.diagnostics <= w.value.log.diagnostics
  {
    FollowBlocksEmits(ctx, files, root, [entry], parts.named, root.blocks, parts.log);
    var log := FollowBlocks(ctx, files, root, [entry], parts.named, root.blocks, parts.log);
    if log.Some? && Namespaces(root.blocks).Some? {
      AcrossExact(log.value, parts.units, Namespaces(root.blocks).value);
    }
  }

  lemma GatherExact(ctx: Context, files: Files, entry: string)
    requires ctx.Valid()
    ensures var w := Gather(ctx, files, entry);
      w.Some? && w.value.log.diagnostics == [] && Acyclic(w.value.bases) <==> ProjectSound(ctx, files, entry)
  {
    if entry in files && Load(ctx, files, entry).Some? {
      var root := Load(ctx, files, entry).value;
      var log := Loaded(Log([], []), root);
      assert log.diagnostics == root.diagnostics;
      if root.Usable() && root.Kind() == Some("kind.project") {
        var start := Parts(log, [], true, [root], {});
        AddPartsExact(ctx, files, root, root.blocks, start);
        AddPartsEmit(ctx, files, root, root.blocks, start);
        var parts := AddParts(ctx, files, root, root.blocks, start);
        if parts.Some? {
          ImportsEmit(ctx, files, entry, root, parts.value);
          if parts.value.log.diagnostics == [] {
            assert parts.value.named == SetOf(PartTargets(ctx, root, root.blocks));
            ImportsExact(ctx, files, entry, root, parts.value);
          }
        }
      }
    }
  }

  /** A project is accepted exactly when it is sound. */
  lemma AcceptsExactly(ctx: Context, files: Files, entry: string, outcome: Outcome)
    requires ctx.Valid() && Answers(ctx, files, entry, outcome)
    ensures outcome.Finished? && outcome.accept <==> ProjectSound(ctx, files, entry)
  {
    GatherExact(ctx, files, entry);
    GatherPlaced(ctx, files, entry);
    var gathered := Gather(ctx, files, entry);
    if gathered.Some? {
      var w := gathered.value;
      var emitted :| Reported(w, emitted, outcome);
      CyclesShow(w);
      NothingEmitted(w, emitted);
    }
  }

  lemma NothingEmitted(w: Work, emitted: seq<Diagnostic>)
    requires Emitted(w, emitted)
    ensures emitted == [] <==> w.log.diagnostics == [] && forall name, d :: !CycleAt(w, name, d)
  {
    if emitted != [] {
      assert emitted[0] in emitted;
    }
    if w.log.diagnostics != [] {
      assert w.log.diagnostics[0] in emitted;
    }
    if name, d :| CycleAt(w, name, d) {
      assert d in emitted;
    }
  }
}
