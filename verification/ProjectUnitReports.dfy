/** What is reported about one unit, and in which order reports stand. */
module ProjectUnitReports {
  import opened Base
  import opened Order
  import opened ProjectDiagnostics
  import opened ProjectUnits
  import opened ProjectReports

  function Flaw(error: string, source: string, offset: nat): Diagnostic {
    Diagnostic(error, "grammar_or_schema", source, offset)
  }

  // ------------------------------------------------------------------ blocks

  /** A path literal: its marks around a path that is relative and has no quote. */
  ghost predicate IsPath(value: Option<string>) {
    exists path :: value == Some("PATH(\"" + path + "\")") && path != [] && path[0] != '/' && '\"' !in path
  }

  /** The first thing wrong with a PART block. */
  ghost predicate PartFlaw(registry: Registry, source: string, b: Block, d: Diagnostic) {
    if !("ID" in b.fields && "SOURCE" in b.fields && "KIND" in b.fields) then d == Flaw("error.field.required", source, b.offset)
    else if !IsPath(b.fields["SOURCE"].value) then d == Flaw("error.field.type", source, b.fields["SOURCE"].offset)
    else if !(b.fields["KIND"].value.Some? && b.fields["KIND"].value.value in registry.partKinds) then
      d == Flaw("error.field.type", source, b.fields["KIND"].offset)
    else
      && "REQUIRED" in b.fields && b.fields["REQUIRED"].value != Some("TRUE") && b.fields["REQUIRED"].value != Some("FALSE")
      && d == Flaw("error.field.type", source, b.fields["REQUIRED"].offset)
  }

  lemma PathIs(value: Option<string>)
    ensures RelativePath(value).Some? <==> IsPath(value)
  {
    if RelativePath(value).Some? {
      PathExact(value, RelativePath(value).value);
    }
    if path :| value == Some("PATH(\"" + path + "\")") && path != [] && path[0] != '/' && '\"' !in path {
      PathExact(value, path);
    }
  }

  lemma PartFlawIs(registry: Registry, source: string, b: Block, d: Diagnostic)
    ensures d in PartProblem(registry, source, b) <==> PartFlaw(registry, source, b, d)
  {
    if Has(b, PART_KEYS) {
      PathIs(b.fields["SOURCE"].value);
    }
  }

  predicate MisplacedAt(legal: set<string>, source: string, blocks: seq<Block>, i: int, d: Diagnostic) {
    2 <= i < |blocks| && blocks[i].name !in legal && d == Flaw("error.block.context", source, blocks[i].offset)
  }

  ghost predicate PartFlawAt(registry: Registry, source: string, blocks: seq<Block>, i: int, d: Diagnostic) {
    0 <= i < |blocks| && blocks[i].name == "PART" && PartFlaw(registry, source, blocks[i], d)
  }

  ghost predicate PartsFlawed(registry: Registry, source: string, blocks: seq<Block>, d: Diagnostic) {
    exists i :: PartFlawAt(registry, source, blocks, i, d)
  }

  lemma {:induction false} MisplacedIs(legal: set<string>, source: string, blocks: seq<Block>, d: Diagnostic)
    ensures d in Misplaced(legal, source, blocks) <==> exists i :: MisplacedAt(legal, source, blocks, i, d)
  {
    if |blocks| > 2 {
      var n := |blocks| - 1;
      MisplacedIs(legal, source, blocks[..n], d);
      if i :| MisplacedAt(legal, source, blocks, i, d) {
        assert i < n ==> MisplacedAt(legal, source, blocks[..n], i, d);
      }
      if i :| MisplacedAt(legal, source, blocks[..n], i, d) {
        assert MisplacedAt(legal, source, blocks, i, d);
      }
      if d in Misplaced(legal, source, blocks) && d !in Misplaced(legal, source, blocks[..n]) {
        assert MisplacedAt(legal, source, blocks, n, d);
      }
    }
  }

  /** One more block: its flaws are those of the blocks before it and its own. */
  lemma PartFlawGrows(registry: Registry, source: string, blocks: seq<Block>, i: int, d: Diagnostic)
    requires blocks != []
    ensures PartFlawAt(registry, source, blocks[..|blocks| - 1], i, d) <==>
            PartFlawAt(registry, source, blocks, i, d) && i < |blocks| - 1
  {
  }

  lemma {:induction false} LastPartFlaw(registry: Registry, source: string, blocks: seq<Block>, d: Diagnostic)
    requires blocks != []
    ensures var n := |blocks| - 1;
      d in PartProblems(registry, source, blocks) <==>
      d in PartProblems(registry, source, blocks[..n]) || PartFlawAt(registry, source, blocks, n, d)
  {
    PartFlawIs(registry, source, blocks[|blocks| - 1], d);
  }

  lemma MorePartFlaws(registry: Registry, source: string, blocks: seq<Block>, d: Diagnostic)
    requires blocks != []
    ensures var n := |blocks| - 1;
      PartsFlawed(registry, source, blocks, d) <==>
      PartsFlawed(registry, source, blocks[..n], d) || PartFlawAt(registry, source, blocks, n, d)
  {
    if i :| PartFlawAt(registry, source, blocks, i, d) {
      PartFlawGrows(registry, source, blocks, i, d);
    }
    var init := blocks[..|blocks| - 1];
    if i :| PartFlawAt(registry, source, init, i, d) {
      PartFlawGrows(registry, source, blocks, i, d);
    }
  }

  lemma {:induction false} PartFlawsAre(registry: Registry, source: string, blocks: seq<Block>, d: Diagnostic)
    ensures d in PartProblems(registry, source, blocks) <==> PartsFlawed(registry, source, blocks, d)
  {
    if blocks != [] {
      PartFlawsAre(registry, source, blocks[..|blocks| - 1], d);
      LastPartFlaw(registry, source, blocks, d);
      MorePartFlaws(registry, source, blocks, d);
    }
  }

  // ------------------------------------------------------------------ units

  /** An LCL block with its version, and then a specification with its four fields. */
  predicate Headed(blocks: seq<Block>) {
    && |blocks| >= 2 && blocks[0].name == "LCL" && blocks[1].name == "SPECIFICATION"
    && "VERSION" in blocks[0].fields
    && "ID" in blocks[1].fields && "NAME" in blocks[1].fields && "VERSION" in blocks[1].fields && "KIND" in blocks[1].fields
  }

  /** The kinds that are executed. */
  predicate IsExecuted(kind: string) {
    kind == "kind.task" || kind == "kind.test" || kind == "kind.project"
  }

  /** What is wrong with the blocks of a unit of a registered kind. */
  ghost predicate BlocksFlaw(registry: Registry, source: string, kind: string, blocks: seq<Block>, size: nat, d: Diagnostic)
    requires kind in registry.kindBlocks
  {
    || (exists i :: MisplacedAt(registry.kindBlocks[kind], source, blocks, i, d))
    || (IsExecuted(kind) && Count(blocks, (b: Block) => b.name == "EXECUTE") != 1 && d == Flaw("error.block.required", source, size))
    || PartsFlawed(registry, source, blocks, d)
  }

  lemma {:induction false} ExecutesIs(blocks: seq<Block>)
    ensures NamedBlocks(blocks, "EXECUTE") == Count(blocks, (b: Block) => b.name == "EXECUTE")
  {
    CountWeaker(blocks, (b: Block) => b.name == "EXECUTE", (b: Block) => b.name == "EXECUTE");
  }

  /** All that can be wrong with a unit. */
  ghost predicate UnitFlaw(registry: Registry, source: string, reading: Reading, d: Diagnostic)
    requires registry.Valid()
  {
    match reading
    case Unreadable(error, stage, offset) => d == Diagnostic(error, stage, source, offset)
    case Readable(blocks, _, size) =>
      if Headed(blocks) then HeadedFlaw(registry, source, blocks, size, d) else HeaderFlaw(source, blocks, d)
  }

  predicate HeaderFlaw(source: string, blocks: seq<Block>, d: Diagnostic) {
    if |blocks| < 2 || blocks[0].name != "LCL" || blocks[1].name != "SPECIFICATION" then d == Flaw("error.grammar.invalid", source, 0)
    else d == Flaw("error.field.required", source, 0)
  }

  ghost predicate HeadedFlaw(registry: Registry, source: string, blocks: seq<Block>, size: nat, d: Diagnostic)
    requires registry.Valid() && Headed(blocks)
  {
    var kind := blocks[1].fields["KIND"];
    if kind.value.None? || kind.value.value !in registry.documentKinds then d == Flaw("error.field.type", source, kind.offset)
    else BlocksFlaw(registry, source, kind.value.value, blocks, size, d)
  }

  lemma HeadedIs(blocks: seq<Block>)
    ensures HeaderOk(blocks) <==> Headed(blocks)
  {
  }

  lemma HeaderIsReported(registry: Registry, source: string, reading: Reading, d: Diagnostic)
    requires registry.Valid() && reading.Readable? && !Headed(reading.blocks)
    ensures Read(registry, source, reading).Some?
    ensures d in Read(registry, source, reading).value.diagnostics <==> HeaderFlaw(source, reading.blocks, d)
  {
    HeadedIs(reading.blocks);
  }

  lemma HeadedIsReported(registry: Registry, source: string, reading: Reading, d: Diagnostic)
    requires registry.Valid() && reading.Readable? && Headed(reading.blocks) && Read(registry, source, reading).Some?
    ensures d in Read(registry, source, reading).value.diagnostics <==>
            HeadedFlaw(registry, source, reading.blocks, reading.size, d)
  {
    HeadedIs(reading.blocks);
    var kind := reading.blocks[1].fields["KIND"].value;
    if kind.Some? && kind.value in registry.documentKinds {
      BlocksAreReported(registry, source, kind.value, reading.blocks, reading.size, d);
    }
  }

  /** A unit's diagnostics are exactly what is wrong with it. */
  lemma UnitIsReported(registry: Registry, source: string, reading: Reading, d: Diagnostic)
    requires registry.Valid() && (reading.Unreadable? ==> reading.stage in STAGES)
    ensures Read(registry, source, reading).Some? ==>
      (d in Read(registry, source, reading).value.diagnostics <==> UnitFlaw(registry, source, reading, d))
  {
    if reading.Readable? {
      if !Headed(reading.blocks) {
        HeaderIsReported(registry, source, reading, d);
      } else if Read(registry, source, reading).Some? {
        HeadedIsReported(registry, source, reading, d);
      }
    }
  }

  lemma BlocksAreReported(registry: Registry, source: string, kind: string, blocks: seq<Block>, size: nat, d: Diagnostic)
    requires kind in registry.kindBlocks
    ensures d in BlockProblems(registry, source, kind, blocks, size) <==> BlocksFlaw(registry, source, kind, blocks, size, d)
  {
    MisplacedIs(registry.kindBlocks[kind], source, blocks, d);
    PartFlawsAre(registry, source, blocks, d);
    ExecutesIs(blocks);
  }

  /** What a unit says of itself: its blocks and references, and its versions and kind with their places. */
  lemma UnitSays(registry: Registry, source: string, reading: Reading)
    requires registry.Valid() && reading.Readable? && Headed(reading.blocks) && Read(registry, source, reading).Some?
    ensures var unit, lcl, spec := Read(registry, source, reading).value, reading.blocks[0], reading.blocks[1];
      && unit.source == source && unit.blocks == reading.blocks && unit.refs == reading.refs
      && unit.header.kind == spec.fields["KIND"]
      && unit.header.lcl.offset == lcl.fields["VERSION"].offset && unit.header.spec.offset == spec.fields["VERSION"].offset
      && unit.header.lcl.value.Some? && lcl.fields["VERSION"].value == Some("\"" + unit.header.lcl.value.value + "\"")
      && unit.header.spec.value.Some? && spec.fields["VERSION"].value == Some("\"" + unit.header.spec.value.value + "\"")
  {
    var lcl, spec := reading.blocks[0].fields["VERSION"].value, reading.blocks[1].fields["VERSION"].value;
    assert Quoted(lcl).Some? && Quoted(spec).Some?;
    QuotedExact(lcl, Quoted(lcl).value);
    QuotedExact(spec, Quoted(spec).value);
  }

  // ------------------------------------------------------------------ the order of reports

  /** Where a stage stands in the pipeline. */
  predicate StageAt(stage: string, n: int) {
    || (n == 0 && stage == "localization")
    || (n == 1 && stage == "lexical")
    || (n == 2 && stage == "grammar_or_schema")
    || (n == 3 && stage == "resolution")
  }

  /** The source's last place among the sources loaded. */
  predicate LastAt(sources: seq<string>, source: string, i: int) {
    0 <= i < |sources| && sources[i] == source && forall k | i < k < |sources| :: sources[k] != source
  }

  /** By stage, then by when the source was last loaded, then by place, then by the error's name. */
  predicate Earlier(p: int, q: int, i: int, j: int, a: Diagnostic, b: Diagnostic) {
    p < q || (p == q && (i < j || (i == j && a.offset < b.offset)))
  }

  lemma {:induction false} StageIs(stage: string, n: int)
    requires StageAt(stage, n) && stage in STAGES
    ensures LastIndex(STAGES, stage) == n
  {
    assert STAGES[0] == "localization" && STAGES[1] == "lexical" && STAGES[2] == "grammar_or_schema" && STAGES[3] == "resolution";
    assert STAGES[4] == "static_or_expression" && STAGES[5] == "validation" && STAGES[6] == "execution";
    assert STAGES[7] == "verification_or_completion";
    assert STAGES[n] == stage && forall k | 0 <= k < |STAGES| && k != n :: STAGES[k] != stage;
  }

  /** In a sorted report, of any two different diagnostics the first comes before the second so. */
  lemma {:induction false} ReportIsOrdered(sources: seq<string>, emitted: seq<Diagnostic>, x: nat, y: nat, p: int,
                                           q: int, i: int, j: int)
    requires AllPlaced(sources, emitted)
    requires var s := Sorted(sources, emitted);
      && x < y < |s| && StageAt(s[x].stage, p) && StageAt(s[y].stage, q)
      && LastAt(sources, s[x].source, i) && LastAt(sources, s[y].source, j)
    ensures var s := Sorted(sources, emitted);
      Earlier(p, q, i, j, s[x], s[y])
      || (p == q && i == j && s[x].offset == s[y].offset && TextBefore(s[x].error, s[y].error))
  {
    var s := Sorted(sources, emitted);
    SortedIsListed(sources, emitted);
    StageIs(s[x].stage, p);
    StageIs(s[y].stage, q);
    assert LastIndex(sources, s[x].source) == i && LastIndex(sources, s[y].source) == j;
    TextsByAscii(s[x].error, s[y].error);
    assert Leq(sources, s[x], s[y]) && s[x] != s[y];
  }
}
