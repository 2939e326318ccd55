/** One source unit of a project: its blocks as read, and the checks that make it usable. */
module ProjectUnits {
  import opened Base
  import opened ProjectDiagnostics

  datatype Field = Field(value: Option<string>, offset: nat)

  datatype Block = Block(name: string, offset: nat, fields: map<string, Field>)

  datatype Reference = Reference(target: string, offset: nat)

  /** What comes of reading a file: one error, or its blocks and references and how long it is. */
  datatype Reading =
    | Unreadable(error: string, stage: string, offset: nat)
    | Readable(blocks: seq<Block>, refs: seq<Reference>, size: nat)

  datatype Registry = Registry(documentKinds: set<string>, partKinds: set<string>, kindBlocks: map<string, set<string>>)
  {
    /** Block legality is given for every document kind, and part kinds are document kinds other than the project's. */
    predicate Valid() {
      documentKinds == kindBlocks.Keys && partKinds <= documentKinds && "kind.project" in documentKinds - partKinds
    }
  }

  datatype Header = Header(lcl: Field, spec: Field, kind: Field)

  datatype Unit = Unit(source: string, blocks: seq<Block>, refs: seq<Reference>, header: Header, diagnostics: seq<Diagnostic>)
  {
    predicate Usable() { diagnostics == [] }
    function Kind(): Option<string> { header.kind.value }
  }

  const EXECUTE_REQUIRED: set<string> := {"kind.task", "kind.test", "kind.project"}
  const LCL_VERSION: string := "0.3.0"
  const NO_FIELD: Field := Field(None, 0)
  const NO_HEADER: Header := Header(NO_FIELD, NO_FIELD, NO_FIELD)

  predicate Surrounded(s: string, before: string, after: string) {
    |before| + |after| <= |s| && s[..|before|] == before && s[|s| - |after|..] == after
  }

  function Inside(s: string, before: string, after: string): string
    requires Surrounded(s, before, after)
  {
    s[|before|..|s| - |after|]
  }

  /** The text of a string literal. */
  function Quoted(value: Option<string>): Option<string> {
    if value.Some? && Surrounded(value.value, "\"", "\"") && '\"' !in Inside(value.value, "\"", "\"")
    then Some(Inside(value.value, "\"", "\"")) else None
  }

  /** The path of a `PATH("…")` literal that is not empty and not absolute. */
  function RelativePath(value: Option<string>): Option<string> {
    if value.Some? && Surrounded(value.value, "PATH(\"", "\")") then
      var path := Inside(value.value, "PATH(\"", "\")");
      if path != [] && path[0] != '/' && '\"' !in path then Some(path) else None
    else None
  }

  predicate Has(b: Block, keys: set<string>) {
    keys <= b.fields.Keys
  }

  const SPECIFICATION_KEYS: set<string> := {"ID", "NAME", "VERSION", "KIND"}
  const PART_KEYS: set<string> := {"ID", "SOURCE", "KIND"}

  function NamedBlocks(blocks: seq<Block>, name: string): nat {
    Count(blocks, (b: Block) => b.name == name)
  }

  // ------------------------------------------------------------------ specification

  predicate PartOk(registry: Registry, b: Block) {
    && Has(b, PART_KEYS)
    && RelativePath(b.fields["SOURCE"].value).Some?
    && b.fields["KIND"].value.Some? && b.fields["KIND"].value.value in registry.partKinds
    && ("REQUIRED" in b.fields ==> b.fields["REQUIRED"].value in {Some("TRUE"), Some("FALSE")})
  }

  predicate HeaderOk(blocks: seq<Block>) {
    && |blocks| >= 2 && blocks[0].name == "LCL" && blocks[1].name == "SPECIFICATION"
    && "VERSION" in blocks[0].fields && Has(blocks[1], SPECIFICATION_KEYS)
  }

  /** Where the checker itself stops: a header whose version is not a string literal. */
  predicate VersionsReadable(blocks: seq<Block>)
    requires HeaderOk(blocks)
  {
    Quoted(blocks[0].fields["VERSION"].value).Some? && Quoted(blocks[1].fields["VERSION"].value).Some?
  }

  /** What the contract asks of the blocks of one unit. */
  predicate BlocksOk(registry: Registry, blocks: seq<Block>)
    requires registry.Valid()
  {
    && HeaderOk(blocks)
    && var kind := blocks[1].fields["KIND"].value;
       kind.Some? && kind.value in registry.documentKinds
       && (forall i | 2 <= i < |blocks| :: blocks[i].name in registry.kindBlocks[kind.value])
       && (kind.value in EXECUTE_REQUIRED ==> NamedBlocks(blocks, "EXECUTE") == 1)
       && forall i | 0 <= i < |blocks| && blocks[i].name == "PART" :: PartOk(registry, blocks[i])
  }

  function Grammar(source: string, error: string, offset: nat): Diagnostic {
    Diagnostic(error, "grammar_or_schema", source, offset)
  }

  // ------------------------------------------------------------------ the checks

  /** The header of a unit whose first two blocks are in place. */
  function HeaderOf(blocks: seq<Block>): Header
    requires HeaderOk(blocks)
  {
    Header(
      Field(Quoted(blocks[0].fields["VERSION"].value), blocks[0].fields["VERSION"].offset),
      Field(Quoted(blocks[1].fields["VERSION"].value), blocks[1].fields["VERSION"].offset),
      blocks[1].fields["KIND"])
  }

  /** What is wrong with one PART block. */
  function PartProblem(registry: Registry, source: string, b: Block): (r: seq<Diagnostic>)
    ensures r == [] <==> PartOk(registry, b)
    ensures AllPlaced([source], r)
  {
    if !Has(b, PART_KEYS) then [Grammar(source, "error.field.required", b.offset)]
    else if RelativePath(b.fields["SOURCE"].value).None? then
      [Grammar(source, "error.field.type", b.fields["SOURCE"].offset)]
    else if b.fields["KIND"].value.None? || b.fields["KIND"].value.value !in registry.partKinds then
      [Grammar(source, "error.field.type", b.fields["KIND"].offset)]
    else if "REQUIRED" in b.fields && b.fields["REQUIRED"].value !in {Some("TRUE"), Some("FALSE")} then
      [Grammar(source, "error.field.type", b.fields["REQUIRED"].offset)]
    else []
  }

  /** The blocks after the header that the document kind does not admit. */
  function Misplaced(legal: set<string>, source: string, blocks: seq<Block>): (r: seq<Diagnostic>)
    ensures r == [] <==> forall i | 2 <= i < |blocks| :: blocks[i].name in legal
    ensures AllPlaced([source], r)
  {
    if |blocks| <= 2 then []
    else
      var b := blocks[|blocks| - 1];
      Misplaced(legal, source, blocks[..|blocks| - 1])
      + if b.name in legal then [] else [Grammar(source, "error.block.context", b.offset)]
  }

  function PartProblems(registry: Registry, source: string, blocks: seq<Block>): (r: seq<Diagnostic>)
    ensures r == [] <==> forall i | 0 <= i < |blocks| && blocks[i].name == "PART" :: PartOk(registry, blocks[i])
    ensures AllPlaced([source], r)
  {
    if blocks == [] then []
    else
      var b := blocks[|blocks| - 1];
      PartProblems(registry, source, blocks[..|blocks| - 1])
      + if b.name == "PART" then PartProblem(registry, source, b) else []
  }

  /** The diagnostics of a unit whose document kind is registered. */
  function BlockProblems(registry: Registry, source: string, kind: string, blocks: seq<Block>,
                         size: nat): (r: seq<Diagnostic>)
    requires kind in registry.kindBlocks
    ensures AllPlaced([source], r)
    ensures r == [] <==>
            && (forall i | 2 <= i < |blocks| :: blocks[i].name in registry.kindBlocks[kind])
            && (kind in EXECUTE_REQUIRED ==> NamedBlocks(blocks, "EXECUTE") == 1)
            && forall i | 0 <= i < |blocks| && blocks[i].name == "PART" :: PartOk(registry, blocks[i])
  {
    var execute := if kind in EXECUTE_REQUIRED && NamedBlocks(blocks, "EXECUTE") != 1
                   then [Grammar(source, "error.block.required", size)] else [];
    Misplaced(registry.kindBlocks[kind], source, blocks) + execute + PartProblems(registry, source, blocks)
  }

  /**
   * One unit as read. The result is `None` where the checker fails on a header it cannot read; otherwise the
   * unit is usable exactly when its file can be read and its blocks are as the contract asks.
   */
  function Read(registry: Registry, source: string, reading: Reading): (unit: Option<Unit>)
    requires registry.Valid()
    requires reading.Unreadable? ==> reading.stage in STAGES
    ensures unit.None? <==> reading.Readable? && HeaderOk(reading.blocks) && !VersionsReadable(reading.blocks)
    ensures unit.Some? ==> unit.value.source == source && AllPlaced([source], unit.value.diagnostics)
    ensures unit.Some? ==> (unit.value.Usable() <==> reading.Readable? && BlocksOk(registry, reading.blocks))
    ensures unit.Some? && unit.value.Usable() ==>
              && unit.value.blocks == reading.blocks && unit.value.refs == reading.refs
              && unit.value.header == HeaderOf(reading.blocks)
  {
    match reading
    case Unreadable(error, stage, offset) =>
      Some(Unit(source, [], [], NO_HEADER, [Diagnostic(error, stage, source, offset)]))
    case Readable(blocks, refs, size) =>
      if |blocks| < 2 || blocks[0].name != "LCL" || blocks[1].name != "SPECIFICATION" then
        Some(Unit(source, blocks, refs, NO_HEADER, [Grammar(source, "error.grammar.invalid", 0)]))
      else if !HeaderOk(blocks) then
        Some(Unit(source, blocks, refs, NO_HEADER, [Grammar(source, "error.field.required", 0)]))
      else if !VersionsReadable(blocks) then None
      else
        var header := HeaderOf(blocks);
        var kind := header.kind.value;
        if kind.None? || kind.value !in registry.documentKinds then
          Some(Unit(source, blocks, refs, header, [Grammar(source, "error.field.type", header.kind.offset)]))
        else
          Some(Unit(source, blocks, refs, header, BlockProblems(registry, source, kind.value, blocks, size)))
  }

  /** The checks of the blocks, appended in the order the checker makes them. */
  method CheckBlocks(registry: Registry, source: string, kind: string, blocks: seq<Block>, size: nat)
    returns (diagnostics: seq<Diagnostic>)
    requires kind in registry.kindBlocks
    ensures diagnostics == BlockProblems(registry, source, kind, blocks, size)
  {
    diagnostics := CheckPlaces(registry.kindBlocks[kind], source, blocks);
    if kind in EXECUTE_REQUIRED && NamedBlocks(blocks, "EXECUTE") != 1 {
      diagnostics := diagnostics + [Grammar(source, "error.block.required", size)];
    }
    var parts := CheckParts(registry, source, blocks);
    diagnostics := diagnostics + parts;
  }

  method CheckPlaces(legal: set<string>, source: string, blocks: seq<Block>) returns (diagnostics: seq<Diagnostic>)
    ensures diagnostics == Misplaced(legal, source, blocks)
  {
    diagnostics := [];
    var i := 2;
    while i < |blocks|
      invariant 2 <= i
      invariant i <= |blocks| ==> diagnostics == Misplaced(legal, source, blocks[..i])
      invariant i > |blocks| ==> diagnostics == [] && i == 2
    {
      var shorter := blocks[..i + 1];
      assert shorter[..|shorter| - 1] == blocks[..i];
      if blocks[i].name !in legal {
        diagnostics := diagnostics + [Grammar(source, "error.block.context", blocks[i].offset)];
      }
      i := i + 1;
    }
    assert i == |blocks| ==> blocks[..i] == blocks;
  }

  method CheckParts(registry: Registry, source: string, blocks: seq<Block>) returns (diagnostics: seq<Diagnostic>)
    ensures diagnostics == PartProblems(registry, source, blocks)
  {
    diagnostics := [];
    for i := 0 to |blocks|
      invariant diagnostics == PartProblems(registry, source, blocks[..i])
    {
      var shorter := blocks[..i + 1];
      assert shorter[..|shorter| - 1] == blocks[..i];
      if blocks[i].name == "PART" {
        diagnostics := diagnostics + PartProblem(registry, source, blocks[i]);
      }
    }
    assert blocks[..|blocks|] == blocks;
  }
}
