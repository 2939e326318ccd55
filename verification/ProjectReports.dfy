/** Which diagnostics an evaluation emits: one for each thing that is wrong, and where. */
module ProjectReports {
  import opened Base
  import opened Order
  import opened ProjectBases
  import opened ProjectDiagnostics
  import opened ProjectUnits
  import opened ProjectEvaluation
  import opened ProjectImports
  import opened ProjectAcceptance

  /** The diagnostic of a stage after reading. */
  function At(error: string, source: string, offset: nat): Diagnostic {
    Diagnostic(error, "resolution", source, offset)
  }

  // ------------------------------------------------------------------ literals

  lemma InsideExact(s: string, before: string, after: string, inner: string)
    ensures s == before + inner + after <==> Surrounded(s, before, after) && Inside(s, before, after) == inner
  {
    if s == before + inner + after {
      assert s[|before|..|s| - |after|] == inner;
    }
    if Surrounded(s, before, after) {
      assert s == s[..|before|] + s[|before|..|s| - |after|] + s[|s| - |after|..];
    }
  }

  /** A path literal is its marks around a path that is relative and has no quote. */
  lemma PathExact(value: Option<string>, path: string)
    ensures RelativePath(value) == Some(path) <==>
      value == Some("PATH(\"" + path + "\")") && path != [] && path[0] != '/' && '\"' !in path
  {
    if value.Some? {
      InsideExact(value.value, "PATH(\"", "\")", path);
    }
  }

  /** A string literal is quotes around a text without quotes. */
  lemma QuotedExact(value: Option<string>, text: string)
    ensures Quoted(value) == Some(text) <==> value == Some("\"" + text + "\"") && '\"' !in text
  {
    if value.Some? {
      InsideExact(value.value, "\"", "\"", text);
    }
  }

  /** A reference literal is its marks around an identifier. */
  lemma {:induction false} ReferenceExact(value: Option<string>, id: string)
    ensures RefTarget(value) == Some(id) <==> value == Some("REF(" + id + ")") && Identifier(id, true)
  {
    if value.Some? {
      InsideExact(value.value, "REF(", ")", id);
    }
  }

  // ------------------------------------------------------------------ one part

  /** What is wrong with a usable part: the first of four. */
  predicate MisfitReported(root: Unit, part: Unit, kind: Option<string>, source: string, d: Diagnostic) {
    var h := part.header;
    || (h.lcl.value != Some("0.3.0") && d == At("error.version.unsupported", source, h.lcl.offset))
    || (h.lcl.value == Some("0.3.0") && h.kind.value == Some("kind.project")
        && d == At("error.project.placement", source, h.kind.offset))
    || (h.lcl.value == Some("0.3.0") && h.kind.value != Some("kind.project") && h.kind.value != kind
        && d == At("error.project.part_kind", source, h.kind.offset))
    || (h.lcl.value == Some("0.3.0") && h.kind.value != Some("kind.project") && h.kind.value == kind
        && h.spec.value != root.header.spec.value && d == At("error.version.mismatch", source, h.spec.offset))
  }

  /** What taking up a part emits; `again` says whether an earlier PART names the same source. */
  predicate PartReported(ctx: Context, files: Files, root: Unit, b: Block, again: bool, d: Diagnostic)
    requires ctx.Valid() && PartOk(ctx.registry, b)
  {
    var source, at := PartTarget(ctx, root.source, b), b.fields["SOURCE"].offset;
    if again then d == At("error.project.part_duplicate", root.source, at)
    else if source !in files then
      !("REQUIRED" in b.fields && b.fields["REQUIRED"].value == Some("FALSE")) && d == At("error.project.part_missing", root.source, at)
    else
      match Load(ctx, files, source)
      case None => false
      case Some(unit) =>
        if unit.diagnostics != [] then d in unit.diagnostics
        else MisfitReported(root, unit, b.fields["KIND"].value, source, d)
  }

  /** The row a part gets, if it is not a second naming. */
  ghost predicate RowOf(ctx: Context, files: Files, root: Unit, b: Block, row: Row)
    requires ctx.Valid() && PartOk(ctx.registry, b)
  {
    var source := PartTarget(ctx, root.source, b);
    var optional := "REQUIRED" in b.fields && b.fields["REQUIRED"].value == Some("FALSE");
    && b.fields["SOURCE"].value == Some("PATH(\"" + row.path + "\")")
    && Some(row.kind) == b.fields["KIND"].value && row.required == !optional
    && row.outcome ==
       if source !in files then (if optional then "omitted" else "missing")
       else if PartSound(ctx, files, root, b) then "loaded" else "invalid"
  }

  /** The diagnostics a log has after more of them. */
  ghost predicate Adds(before: Log, after: Log, more: Diagnostic -> bool) {
    forall d :: d in after.diagnostics <==> d in before.diagnostics || more(d)
  }

  lemma NotedAdds(log: Log, error: string, source: string, offset: nat)
    ensures forall d :: d in Noted(log, error, source, offset).diagnostics <==> d in log.diagnostics || d == At(error, source, offset)
  {
  }

  lemma LoadedAdds(log: Log, unit: Unit)
    ensures forall d :: d in Loaded(log, unit).diagnostics <==> d in log.diagnostics || d in unit.diagnostics
  {
  }

  lemma MisfitIsReported(root: Unit, part: Unit, kind: Option<string>, source: string)
    ensures var m := Misfit(root, part, kind);
      && (m.None? <==> Fits(root, part, kind))
      && forall d :: MisfitReported(root, part, kind, source, d) <==> m.Some? && d == At(m.value.0, source, m.value.1)
  {
  }

  lemma RowIs(ctx: Context, files: Files, root: Unit, b: Block, outcome: string)
    requires ctx.Valid() && PartOk(ctx.registry, b)
    ensures var path := RelativePath(b.fields["SOURCE"].value).value;
      var row := Row(path, b.fields["KIND"].value.value, Required(b), outcome);
      && b.fields["SOURCE"].value == Some("PATH(\"" + path + "\")")
      && Some(row.kind) == b.fields["KIND"].value
      && row.required == !("REQUIRED" in b.fields && b.fields["REQUIRED"].value == Some("FALSE"))
  {
    PathExact(b.fields["SOURCE"].value, RelativePath(b.fields["SOURCE"].value).value);
  }

  /** How the state is after a part, but for its log. */
  ghost predicate TakenUp(ctx: Context, files: Files, root: Unit, b: Block, s: Parts, t: Parts)
    requires ctx.Valid() && PartOk(ctx.registry, b)
  {
    var source := PartTarget(ctx, root.source, b);
    && t.named == s.named + {source}
    && (if source in s.named then t.rows == s.rows && t.complete == s.complete && t.units == s.units
        else
          && (exists row :: RowOf(ctx, files, root, b, row) && t.rows == s.rows + [row])
          && t.complete == (s.complete && PartSound(ctx, files, root, b))
          && t.units == s.units + if PartSound(ctx, files, root, b) && source in files then [Load(ctx, files, source).value] else [])
  }

  /** One part: its diagnostics, its row, and whether the project is still complete. */
  lemma PartIsReported(ctx: Context, files: Files, root: Unit, b: Block, s: Parts)
    requires ctx.Valid() && PartOk(ctx.registry, b)
    ensures var t, source := AddPart(ctx, files, root, b, s), PartTarget(ctx, root.source, b);
      && (t.None? <==> source !in s.named && source in files && Load(ctx, files, source).None?)
      && (t.Some? ==>
            && TakenUp(ctx, files, root, b, s, t.value)
            && forall d :: d in t.value.log.diagnostics <==>
                           d in s.log.diagnostics || PartReported(ctx, files, root, b, source in s.named, d))
  {
    var source := PartTarget(ctx, root.source, b);
    if source in s.named {
      NotedAdds(s.log, "error.project.part_duplicate", root.source, b.fields["SOURCE"].offset);
      assert s.named + {source} == s.named;
    } else if source !in files {
      AbsentIsReported(ctx, files, root, b, s);
    } else if Load(ctx, files, source).Some? {
      PresentIsReported(ctx, files, root, b, s, Load(ctx, files, source).value);
    }
  }

  lemma AbsentIsReported(ctx: Context, files: Files, root: Unit, b: Block, s: Parts)
    requires ctx.Valid() && PartOk(ctx.registry, b)
    requires var source := PartTarget(ctx, root.source, b); source !in s.named && source !in files
    ensures var t := AddPart(ctx, files, root, b, s);
      t.Some? && TakenUp(ctx, files, root, b, s, t.value)
      && forall d :: d in t.value.log.diagnostics <==> d in s.log.diagnostics || PartReported(ctx, files, root, b, false, d)
  {
    var outcome := if Required(b) then "missing" else "omitted";
    var row := Row(RelativePath(b.fields["SOURCE"].value).value, b.fields["KIND"].value.value, Required(b), outcome);
    RowIs(ctx, files, root, b, outcome);
    NotedAdds(s.log, "error.project.part_missing", root.source, b.fields["SOURCE"].offset);
    assert RowOf(ctx, files, root, b, row);
    assert AddPart(ctx, files, root, b, s).value.rows == s.rows + [row];
  }

  lemma PresentIsReported(ctx: Context, files: Files, root: Unit, b: Block, s: Parts, unit: Unit)
    requires ctx.Valid() && PartOk(ctx.registry, b)
    requires var source := PartTarget(ctx, root.source, b); source !in s.named && source in files && Load(ctx, files, source) == Some(unit)
    ensures var t := AddPart(ctx, files, root, b, s);
      t.Some? && TakenUp(ctx, files, root, b, s, t.value)
      && forall d :: d in t.value.log.diagnostics <==> d in s.log.diagnostics || PartReported(ctx, files, root, b, false, d)
  {
    var source, kind := PartTarget(ctx, root.source, b), b.fields["KIND"].value;
    var m := Misfit(root, unit, kind);
    MisfitIsReported(root, unit, kind, source);
    LoadedAdds(s.log, unit);
    var outcome := if unit.Usable() && m.None? then "loaded" else "invalid";
    var row := Row(RelativePath(b.fields["SOURCE"].value).value, b.fields["KIND"].value.value, Required(b), outcome);
    RowIs(ctx, files, root, b, outcome);
    assert RowOf(ctx, files, root, b, row);
    if m.Some? {
      NotedAdds(Loaded(s.log, unit), m.value.0, source, m.value.1);
    }
    assert AddPart(ctx, files, root, b, s).value.rows == s.rows + [row];
  }

  // ------------------------------------------------------------------ all parts

  /** The block at `i` is a PART, and names this source. */
  predicate PartNames(ctx: Context, root: Unit, blocks: seq<Block>, i: int, source: string)
    requires PartsOk(ctx, blocks)
  {
    0 <= i < |blocks| && blocks[i].name == "PART" && PartTarget(ctx, root.source, blocks[i]) == source
  }

  /** An earlier PART names the same source. */
  predicate NamedBefore(ctx: Context, root: Unit, blocks: seq<Block>, i: nat)
    requires PartsOk(ctx, blocks) && i < |blocks| && blocks[i].name == "PART"
  {
    exists j :: 0 <= j < i && PartNames(ctx, root, blocks, j, PartTarget(ctx, root.source, blocks[i]))
  }

  predicate ReportedAt(ctx: Context, files: Files, root: Unit, blocks: seq<Block>, i: int, d: Diagnostic)
    requires ctx.Valid() && PartsOk(ctx, blocks)
  {
    0 <= i < |blocks| && blocks[i].name == "PART"
    && PartReported(ctx, files, root, blocks[i], NamedBefore(ctx, root, blocks, i), d)
  }

  /** Every part is sound where it is first named. */
  predicate Complete(ctx: Context, files: Files, root: Unit, blocks: seq<Block>)
    requires ctx.Valid() && PartsOk(ctx, blocks)
  {
    forall i | 0 <= i < |blocks| && blocks[i].name == "PART" && !NamedBefore(ctx, root, blocks, i) ::
      PartSound(ctx, files, root, blocks[i])
  }

  lemma SamePlace(ctx: Context, root: Unit, blocks: seq<Block>, n: nat, i: nat)
    requires PartsOk(ctx, blocks) && i < n <= |blocks| && blocks[i].name == "PART"
    ensures NamedBefore(ctx, root, blocks[..n], i) <==> NamedBefore(ctx, root, blocks, i)
  {
    var source := PartTarget(ctx, root.source, blocks[i]);
    forall j | 0 <= j < i
      ensures PartNames(ctx, root, blocks[..n], j, source) <==> PartNames(ctx, root, blocks, j, source)
    {
    }
  }

  /** Some PART names the source. */
  ghost predicate IsNamed(ctx: Context, root: Unit, blocks: seq<Block>, source: string)
    requires PartsOk(ctx, blocks)
  {
    exists i :: PartNames(ctx, root, blocks, i, source)
  }

  /** Some PART is reported so. */
  ghost predicate PartsSay(ctx: Context, files: Files, root: Unit, blocks: seq<Block>, d: Diagnostic)
    requires ctx.Valid() && PartsOk(ctx, blocks)
  {
    exists i :: ReportedAt(ctx, files, root, blocks, i, d)
  }

  lemma SameReports(ctx: Context, files: Files, root: Unit, blocks: seq<Block>, i: int, d: Diagnostic, source: string)
    requires ctx.Valid() && PartsOk(ctx, blocks) && blocks != []
    ensures var n := |blocks| - 1;
      && (i < n ==> (ReportedAt(ctx, files, root, blocks[..n], i, d) <==> ReportedAt(ctx, files, root, blocks, i, d)))
      && (i < n ==> (PartNames(ctx, root, blocks[..n], i, source) <==> PartNames(ctx, root, blocks, i, source)))
  {
    var n := |blocks| - 1;
    if 0 <= i < n && blocks[i].name == "PART" {
      SamePlace(ctx, root, blocks, n, i);
    }
  }

  lemma MoreNames(ctx: Context, root: Unit, blocks: seq<Block>, source: string)
    requires PartsOk(ctx, blocks) && blocks != []
    ensures var n := |blocks| - 1;
      IsNamed(ctx, root, blocks, source) <==> IsNamed(ctx, root, blocks[..n], source) || PartNames(ctx, root, blocks, n, source)
  {
    var n := |blocks| - 1;
    if i :| PartNames(ctx, root, blocks, i, source) {
      assert i < n ==> PartNames(ctx, root, blocks[..n], i, source);
    }
    if i :| PartNames(ctx, root, blocks[..n], i, source) {
      assert PartNames(ctx, root, blocks, i, source);
    }
  }

  lemma MoreReports(ctx: Context, files: Files, root: Unit, blocks: seq<Block>, d: Diagnostic)
    requires ctx.Valid() && PartsOk(ctx, blocks) && blocks != []
    ensures var n := |blocks| - 1;
      PartsSay(ctx, files, root, blocks, d) <==>
      PartsSay(ctx, files, root, blocks[..n], d) || ReportedAt(ctx, files, root, blocks, n, d)
  {
    var n := |blocks| - 1;
    if i :| ReportedAt(ctx, files, root, blocks, i, d) {
      SameReports(ctx, files, root, blocks, i, d, []);
    }
    if i :| ReportedAt(ctx, files, root, blocks[..n], i, d) {
      SameReports(ctx, files, root, blocks, i, d, []);
    }
  }

  lemma MoreComplete(ctx: Context, files: Files, root: Unit, blocks: seq<Block>)
    requires ctx.Valid() && PartsOk(ctx, blocks) && blocks != []
    ensures var n := |blocks| - 1;
      Complete(ctx, files, root, blocks) <==>
      Complete(ctx, files, root, blocks[..n])
      && (blocks[n].name == "PART" && !NamedBefore(ctx, root, blocks, n) ==> PartSound(ctx, files, root, blocks[n]))
  {
    var n := |blocks| - 1;
    forall i: nat | i < n && blocks[i].name == "PART"
      ensures NamedBefore(ctx, root, blocks[..n], i) <==> NamedBefore(ctx, root, blocks, i)
      ensures blocks[..n][i] == blocks[i]
    {
      SamePlace(ctx, root, blocks, n, i);
    }
  }

  lemma BeforeIsNamed(ctx: Context, root: Unit, blocks: seq<Block>)
    requires PartsOk(ctx, blocks) && blocks != [] && blocks[|blocks| - 1].name == "PART"
    ensures var n := |blocks| - 1;
      IsNamed(ctx, root, blocks[..n], PartTarget(ctx, root.source, blocks[n])) <==> NamedBefore(ctx, root, blocks, n)
  {
    var n := |blocks| - 1;
    var source := PartTarget(ctx, root.source, blocks[n]);
    if i :| PartNames(ctx, root, blocks[..n], i, source) {
      assert PartNames(ctx, root, blocks, i, source);
    }
    if j :| 0 <= j < n && PartNames(ctx, root, blocks, j, source) {
      assert PartNames(ctx, root, blocks[..n], j, source);
    }
  }

  /** The diagnostics of the parts: those of each PART block, and no other; and the project is complete if each part is sound. */
  lemma {:induction false} PartsAreReported(ctx: Context, files: Files, root: Unit, blocks: seq<Block>, s: Parts)
    requires ctx.Valid() && PartsOk(ctx, blocks) && s.named == {}
    ensures var t := AddParts(ctx, files, root, blocks, s);
      t.Some? ==>
        && (forall source :: source in t.value.named <==> IsNamed(ctx, root, blocks, source))
        && (t.value.complete <==> s.complete && Complete(ctx, files, root, blocks))
        && (forall d :: d in t.value.log.diagnostics <==> d in s.log.diagnostics || PartsSay(ctx, files, root, blocks, d))
  {
    if blocks != [] {
      var n := |blocks| - 1;
      PartsAreReported(ctx, files, root, blocks[..n], s);
      var t, u := AddParts(ctx, files, root, blocks[..n], s), AddParts(ctx, files, root, blocks, s);
      if t.Some? && u.Some? {
        LastPart(ctx, files, root, blocks, t.value, u.value);
        MoreComplete(ctx, files, root, blocks);
        forall source
          ensures source in u.value.named <==> IsNamed(ctx, root, blocks, source)
        {
          MoreNames(ctx, root, blocks, source);
        }
        forall d
          ensures d in u.value.log.diagnostics <==> d in s.log.diagnostics || PartsSay(ctx, files, root, blocks, d)
        {
          MoreReports(ctx, files, root, blocks, d);
        }
      }
    }
  }

  /** What the last block changes. */
  lemma LastPart(ctx: Context, files: Files, root: Unit, blocks: seq<Block>, t: Parts, u: Parts)
    requires ctx.Valid() && PartsOk(ctx, blocks) && blocks != []
    requires forall source :: source in t.named <==> IsNamed(ctx, root, blocks[..|blocks| - 1], source)
    requires var b := blocks[|blocks| - 1]; Some(u) == if b.name == "PART" then AddPart(ctx, files, root, b, t) else Some(t)
    ensures var n := |blocks| - 1;
      && (forall source :: source in u.named <==> source in t.named || PartNames(ctx, root, blocks, n, source))
      && u.complete == (t.complete && (blocks[n].name == "PART" && !NamedBefore(ctx, root, blocks, n) ==>
                                       PartSound(ctx, files, root, blocks[n])))
      && (forall d :: d in u.log.diagnostics <==> d in t.log.diagnostics || ReportedAt(ctx, files, root, blocks, n, d))
  {
    var b := blocks[|blocks| - 1];
    if b.name == "PART" {
      BeforeIsNamed(ctx, root, blocks);
      PartIsReported(ctx, files, root, b, t);
    }
  }

  // ------------------------------------------------------------------ imports

  /** The unit of a source. */
  function UnitAt(ctx: Context, files: Files, source: string): Option<Unit>
    requires ctx.Valid()
  {
    if source in files then Load(ctx, files, source) else None
  }

  /** The unit's block at `i` imports `target`. */
  predicate ImportsAt(ctx: Context, unit: Unit, i: int, target: string) {
    && 0 <= i < |unit.blocks| && (unit.blocks[i].name == "IMPORT" || unit.blocks[i].name == "EXTENSION")
    && "SOURCE" in unit.blocks[i].fields
    && var path := RelativePath(unit.blocks[i].fields["SOURCE"].value);
       path.Some? && ctx.resolve(unit.source, path.value) == target
  }

  ghost predicate ImportsIt(ctx: Context, unit: Unit, target: string) {
    exists i :: ImportsAt(ctx, unit, i, target)
  }

  /** A library that is followed further: not met before on the chain, no part, usable, and of no kind a part or a project has. */
  predicate Follows(ctx: Context, files: Files, named: set<string>, chain: seq<string>, target: string)
    requires ctx.Valid()
  {
    && target !in chain && target !in named
    && var unit := UnitAt(ctx, files, target);
       unit.Some? && unit.value.diagnostics == [] && IsLibrary(ctx.registry, unit.value)
  }

  /** What importing `target` from the end of a chain emits at once. */
  predicate ImportReported(ctx: Context, files: Files, named: set<string>, chain: seq<string>, unit: Unit, target: string,
                           offset: nat, d: Diagnostic)
    requires ctx.Valid()
  {
    if target in chain then d == At("error.import.cycle", unit.source, offset)
    else if target in named then d == At("error.project.part_duplicate", unit.source, offset)
    else if target !in files then d == At("error.import.not_found", unit.source, offset)
    else
      match Load(ctx, files, target)
      case None => false
      case Some(child) =>
        if child.diagnostics != [] then d in child.diagnostics
        else !IsLibrary(ctx.registry, child) && d == At("error.project.placement", target, child.header.kind.offset)
  }

  /** The chain goes on from its place `k` to the next source, which the unit there imports and which is followed. */
  ghost predicate GoesOn(ctx: Context, files: Files, named: set<string>, p: seq<string>, k: int)
    requires ctx.Valid() && 0 <= k < |p| - 1
  {
    && UnitAt(ctx, files, p[k]).Some? && ImportsIt(ctx, UnitAt(ctx, files, p[k]).value, p[k + 1])
    && Follows(ctx, files, named, p[..k + 1], p[k + 1])
  }

  /** A chain of imports that goes on from its first `n` sources to its end. */
  ghost predicate ChainFrom(ctx: Context, files: Files, named: set<string>, p: seq<string>, n: nat)
    requires ctx.Valid()
  {
    0 < n <= |p| && forall k | n - 1 <= k < |p| - 1 :: GoesOn(ctx, files, named, p, k)
  }

  /** The import at `i` of the unit at the end of the chain is reported so. */
  ghost predicate ChainSays(ctx: Context, files: Files, named: set<string>, p: seq<string>, i: int, target: string,
                            d: Diagnostic)
    requires ctx.Valid() && p != []
  {
    UnitAt(ctx, files, p[|p| - 1]).Some?
    && var unit := UnitAt(ctx, files, p[|p| - 1]).value;
       ImportsAt(ctx, unit, i, target)
       && ImportReported(ctx, files, named, p, unit, target, unit.blocks[i].fields["SOURCE"].offset, d)
  }

  /** A chain that goes on from `chain` by its last unit's block at `j`, or ends there, is reported so. */
  ghost predicate SaysThrough(ctx: Context, files: Files, named: set<string>, chain: seq<string>, unit: Unit, j: int,
                              p: seq<string>, i: int, target: string, d: Diagnostic)
    requires ctx.Valid() && chain != []
  {
    && chain <= p && ChainFrom(ctx, files, named, p, |chain|) && ChainSays(ctx, files, named, p, i, target, d)
    && if |p| == |chain| then i == j else ImportsAt(ctx, unit, j, p[|chain|])
  }

  ghost predicate Through(ctx: Context, files: Files, named: set<string>, chain: seq<string>, unit: Unit, j: int,
                          d: Diagnostic)
    requires ctx.Valid() && chain != []
  {
    exists p, i, target :: SaysThrough(ctx, files, named, chain, unit, j, p, i, target, d)
  }

  /** Through one of the first `n` blocks. */
  ghost predicate Beyond(ctx: Context, files: Files, named: set<string>, chain: seq<string>, unit: Unit, n: nat,
                         d: Diagnostic)
    requires ctx.Valid() && chain != []
  {
    exists j :: 0 <= j < n && Through(ctx, files, named, chain, unit, j, d)
  }

  lemma ImportTargetIs(ctx: Context, unit: Unit, j: nat)
    requires j < |unit.blocks|
    ensures var t := ImportTarget(ctx, unit.source, unit.blocks[j]);
      forall target :: ImportsAt(ctx, unit, j, target) <==> IsImport(unit.blocks[j]) && t == Some(target)
  {
  }

  lemma SameLength(chain: seq<string>, p: seq<string>)
    requires chain <= p
    ensures |p| == |chain| ==> p == chain
  {
  }

  lemma NextIsFollowed(ctx: Context, files: Files, named: set<string>, chain: seq<string>, unit: Unit, j: int,
                       p: seq<string>, i: int, t: string, d: Diagnostic)
    requires ctx.Valid() && chain != [] && SaysThrough(ctx, files, named, chain, unit, j, p, i, t, d) && |p| > |chain|
    ensures Follows(ctx, files, named, chain, p[|chain|])
  {
    assert GoesOn(ctx, files, named, p, |chain| - 1);
    assert p[..|chain|] == chain;
  }

  /** An import that leads no further: what it emits at once is all that goes through it. */
  lemma StopsHere(ctx: Context, files: Files, named: set<string>, chain: seq<string>, unit: Unit, j: nat,
                  target: string, d: Diagnostic)
    requires ctx.Valid() && chain != [] && UnitAt(ctx, files, chain[|chain| - 1]) == Some(unit) && ImportsAt(ctx, unit, j, target)
    requires !Follows(ctx, files, named, chain, target)
    ensures Through(ctx, files, named, chain, unit, j, d) <==>
      ImportReported(ctx, files, named, chain, unit, target, unit.blocks[j].fields["SOURCE"].offset, d)
  {
    if p, i, t :| SaysThrough(ctx, files, named, chain, unit, j, p, i, t, d) {
      SameLength(chain, p);
      if |p| > |chain| {
        NextIsFollowed(ctx, files, named, chain, unit, j, p, i, t, d);
      }
    }
    if ImportReported(ctx, files, named, chain, unit, target, unit.blocks[j].fields["SOURCE"].offset, d) {
      assert SaysThrough(ctx, files, named, chain, unit, j, chain, j, target, d);
    }
  }

  /** An import that is followed: what goes through it goes through the imports of the library it leads to. */
  lemma LeadsOn(ctx: Context, files: Files, named: set<string>, chain: seq<string>, unit: Unit, j: nat, target: string,
                child: Unit, d: Diagnostic)
    requires ctx.Valid() && chain != [] && UnitAt(ctx, files, chain[|chain| - 1]) == Some(unit) && ImportsAt(ctx, unit, j, target)
    requires Follows(ctx, files, named, chain, target) && UnitAt(ctx, files, target) == Some(child)
    ensures Through(ctx, files, named, chain, unit, j, d) <==>
      Beyond(ctx, files, named, chain + [target], child, |child.blocks|, d)
  {
    var more := chain + [target];
    if p, i, t :| SaysThrough(ctx, files, named, chain, unit, j, p, i, t, d) {
      OntoChild(ctx, files, named, chain, unit, j, target, child, p, i, t, d);
    }
    if j' :| 0 <= j' < |child.blocks| && Through(ctx, files, named, more, child, j', d) {
      var p, i, t :| SaysThrough(ctx, files, named, more, child, j', p, i, t, d);
      BackFromChild(ctx, files, named, chain, unit, j, target, child, j', p, i, t, d);
    }
  }

  lemma OntoChild(ctx: Context, files: Files, named: set<string>, chain: seq<string>, unit: Unit, j: nat, target: string,
                  child: Unit, p: seq<string>, i: int, t: string, d: Diagnostic)
    requires ctx.Valid() && chain != [] && ImportsAt(ctx, unit, j, target) && UnitAt(ctx, files, chain[|chain| - 1]) == Some(unit)
    requires Follows(ctx, files, named, chain, target) && UnitAt(ctx, files, target) == Some(child)
    requires SaysThrough(ctx, files, named, chain, unit, j, p, i, t, d)
    ensures Beyond(ctx, files, named, chain + [target], child, |child.blocks|, d)
  {
    var more := chain + [target];
    SameLength(chain, p);
    if |p| == |more| {
      assert p[|chain|] == target && more <= p;
      assert SaysThrough(ctx, files, named, more, child, i, p, i, t, d);
      assert Through(ctx, files, named, more, child, i, d);
    } else if |p| > |more| {
      assert p[|chain|] == target && more <= p;
      assert GoesOn(ctx, files, named, p, |chain|);
      var j' :| ImportsAt(ctx, child, j', p[|chain| + 1]);
      assert SaysThrough(ctx, files, named, more, child, j', p, i, t, d);
      assert Through(ctx, files, named, more, child, j', d);
    }
  }

  lemma BackFromChild(ctx: Context, files: Files, named: set<string>, chain: seq<string>, unit: Unit, j: nat, target: string,
                      child: Unit, j': int, p: seq<string>, i: int, t: string, d: Diagnostic)
    requires ctx.Valid() && chain != [] && ImportsAt(ctx, unit, j, target) && UnitAt(ctx, files, chain[|chain| - 1]) == Some(unit)
    requires Follows(ctx, files, named, chain, target)
    requires SaysThrough(ctx, files, named, chain + [target], child, j', p, i, t, d)
    ensures Through(ctx, files, named, chain, unit, j, d)
  {
    var n := |chain|;
    assert p[..n] == chain && p[n] == target;
    assert GoesOn(ctx, files, named, p, n - 1);
    assert SaysThrough(ctx, files, named, chain, unit, j, p, i, t, d);
  }

  lemma {:induction false} BlockIsReported(ctx: Context, files: Files, named: set<string>, chain: seq<string>,
                                           unit: Unit, j: nat, log: Log)
    requires ctx.Valid() && chain != [] && UnitAt(ctx, files, chain[|chain| - 1]) == Some(unit)
    requires j < |unit.blocks| && IsImport(unit.blocks[j])
    ensures var after := FollowBlock(ctx, files, unit, chain, named, unit.blocks[j], log);
      after.Some? ==> forall d :: d in after.value.diagnostics <==>
                                  d in log.diagnostics || Through(ctx, files, named, chain, unit, j, d)
    decreases files.Keys - SetOf(chain), 0, 0
  {
    ImportTargetIs(ctx, unit, j);
    var t := ImportTarget(ctx, unit.source, unit.blocks[j]);
    var after := FollowBlock(ctx, files, unit, chain, named, unit.blocks[j], log);
    if t.Some? && after.Some? {
      var target := t.value;
      if Follows(ctx, files, named, chain, target) {
        var child := Load(ctx, files, target).value;
        assert target in files.Keys - SetOf(chain) && target !in files.Keys - SetOf(chain + [target]);
        BlocksAreReported(ctx, files, named, chain + [target], child, |child.blocks|, Loaded(log, child));
        assert child.blocks[..|child.blocks|] == child.blocks;
        forall d
          ensures d in after.value.diagnostics <==> d in log.diagnostics || Through(ctx, files, named, chain, unit, j, d)
        {
          LeadsOn(ctx, files, named, chain, unit, j, target, child, d);
        }
      } else {
        forall d
          ensures d in after.value.diagnostics <==> d in log.diagnostics || Through(ctx, files, named, chain, unit, j, d)
        {
          StopsHere(ctx, files, named, chain, unit, j, target, d);
        }
      }
    }
  }

  lemma {:induction false} BlocksAreReported(ctx: Context, files: Files, named: set<string>, chain: seq<string>,
                                             unit: Unit, n: nat, log: Log)
    requires ctx.Valid() && chain != [] && UnitAt(ctx, files, chain[|chain| - 1]) == Some(unit) && n <= |unit.blocks|
    ensures var after := FollowBlocks(ctx, files, unit, chain, named, unit.blocks[..n], log);
      after.Some? ==> forall d :: d in after.value.diagnostics <==>
                                  d in log.diagnostics || Beyond(ctx, files, named, chain, unit, n, d)
    decreases files.Keys - SetOf(chain), 1, n
  {
    if n > 0 {
      assert unit.blocks[..n][..n - 1] == unit.blocks[..n - 1];
      BlocksAreReported(ctx, files, named, chain, unit, n - 1, log);
      var before := FollowBlocks(ctx, files, unit, chain, named, unit.blocks[..n - 1], log);
      if before.Some? && IsImport(unit.blocks[n - 1]) {
        BlockIsReported(ctx, files, named, chain, unit, n - 1, before.value);
      }
      forall d
        ensures Beyond(ctx, files, named, chain, unit, n, d) <==>
          Beyond(ctx, files, named, chain, unit, n - 1, d) || (IsImport(unit.blocks[n - 1]) && Through(ctx, files, named, chain, unit, n - 1, d))
      {
        OneMoreBlock(ctx, files, named, chain, unit, n, d);
      }
    }
  }

  lemma OneMoreBlock(ctx: Context, files: Files, named: set<string>, chain: seq<string>, unit: Unit, n: nat, d: Diagnostic)
    requires ctx.Valid() && chain != [] && UnitAt(ctx, files, chain[|chain| - 1]) == Some(unit) && 0 < n <= |unit.blocks|
    ensures Beyond(ctx, files, named, chain, unit, n, d) <==>
      Beyond(ctx, files, named, chain, unit, n - 1, d) || (IsImport(unit.blocks[n - 1]) && Through(ctx, files, named, chain, unit, n - 1, d))
  {
    if Through(ctx, files, named, chain, unit, n - 1, d) {
      var p, i, t :| SaysThrough(ctx, files, named, chain, unit, n - 1, p, i, t, d);
      assert |p| == |chain| ==> p == chain;
      assert IsImport(unit.blocks[n - 1]);
    }
  }
}
