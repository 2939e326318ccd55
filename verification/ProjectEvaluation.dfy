/** What evaluating a project does: parts, imports, identifiers and references, step by step. */
module ProjectEvaluation {
  import opened Base
  import opened ProjectBases
  import opened ProjectDiagnostics
  import opened ProjectUnits

  /** The registry, how a file's contents read, and how a path in one source names another. */
  datatype Context = Context(registry: Registry, reader: string -> Reading, resolve: (string, string) -> string)
  {
    ghost predicate Valid() {
      registry.Valid() && forall data :: reader(data).Unreadable? ==> reader(data).stage in STAGES
    }
  }

  /** The units loaded so far, a unit as often as it was loaded, and the diagnostics emitted. */
  datatype Log = Log(order: seq<Unit>, diagnostics: seq<Diagnostic>)

  datatype Row = Row(path: string, kind: string, required: bool, outcome: string)

  datatype Parts = Parts(log: Log, rows: seq<Row>, complete: bool, units: seq<Unit>, named: set<string>)

  function Problem(error: string, source: string, offset: nat): Diagnostic {
    Diagnostic(error, "resolution", source, offset)
  }

  function Noted(log: Log, error: string, source: string, offset: nat): Log {
    log.(diagnostics := log.diagnostics + [Problem(error, source, offset)])
  }

  function Loaded(log: Log, unit: Unit): Log {
    Log(log.order + [unit], log.diagnostics + unit.diagnostics)
  }

  function Load(ctx: Context, files: map<string, string>, source: string): (unit: Option<Unit>)
    requires ctx.Valid() && source in files
    ensures unit.Some? ==> unit.value.source == source && AllPlaced([source], unit.value.diagnostics)
  {
    Read(ctx.registry, source, ctx.reader(files[source]))
  }

  // ------------------------------------------------------------------ parts

  function PartTarget(ctx: Context, entry: string, b: Block): string
    requires PartOk(ctx.registry, b)
  {
    ctx.resolve(entry, RelativePath(b.fields["SOURCE"].value).value)
  }

  predicate Required(b: Block) {
    "REQUIRED" !in b.fields || b.fields["REQUIRED"].value == Some("TRUE")
  }

  /** Why a usable part does not fit the project. */
  function Misfit(root: Unit, part: Unit, kind: Option<string>): Option<(string, nat)> {
    if part.header.lcl.value != Some(LCL_VERSION) then Some(("error.version.unsupported", part.header.lcl.offset))
    else if part.Kind() == Some("kind.project") then Some(("error.project.placement", part.header.kind.offset))
    else if part.Kind() != kind then Some(("error.project.part_kind", part.header.kind.offset))
    else if part.header.spec.value != root.header.spec.value then
      Some(("error.version.mismatch", part.header.spec.offset))
    else None
  }

  function AddPart(ctx: Context, files: map<string, string>, root: Unit, b: Block, s: Parts): Option<Parts>
    requires ctx.Valid() && PartOk(ctx.registry, b)
  {
    var source := PartTarget(ctx, root.source, b);
    var at := b.fields["SOURCE"].offset;
    var row := Row(RelativePath(b.fields["SOURCE"].value).value, b.fields["KIND"].value.value, Required(b), "loaded");
    if source in s.named then
      Some(s.(log := Noted(s.log, "error.project.part_duplicate", root.source, at)))
    else if source !in files then
      if Required(b) then
        Some(Parts(Noted(s.log, "error.project.part_missing", root.source, at), s.rows + [row.(outcome := "missing")],
                   false, s.units, s.named + {source}))
      else
        Some(s.(rows := s.rows + [row.(outcome := "omitted")], named := s.named + {source}))
    else
      match Load(ctx, files, source)
      case None => None
      case Some(unit) =>
        var log := Loaded(s.log, unit);
        var invalid := s.rows + [row.(outcome := "invalid")];
        if !unit.Usable() then
          Some(Parts(log, invalid, false, s.units, s.named + {source}))
        else
          match Misfit(root, unit, b.fields["KIND"].value)
          case Some((error, offset)) =>
            Some(Parts(Noted(log, error, source, offset), invalid, false, s.units, s.named + {source}))
          case None =>
            Some(Parts(log, s.rows + [row], s.complete, s.units + [unit], s.named + {source}))
  }

  predicate PartsOk(ctx: Context, blocks: seq<Block>) {
    forall i | 0 <= i < |blocks| && blocks[i].name == "PART" :: PartOk(ctx.registry, blocks[i])
  }

  function AddParts(ctx: Context, files: map<string, string>, root: Unit, blocks: seq<Block>, s: Parts): Option<Parts>
    requires ctx.Valid() && PartsOk(ctx, blocks)
  {
    if blocks == [] then Some(s)
    else
      var b := blocks[|blocks| - 1];
      match AddParts(ctx, files, root, blocks[..|blocks| - 1], s)
      case None => None
      case Some(t) => if b.name == "PART" then AddPart(ctx, files, root, b, t) else Some(t)
  }

  // ------------------------------------------------------------------ imports

  predicate IsImport(b: Block) {
    b.name == "IMPORT" || b.name == "EXTENSION"
  }

  /** The source an import names; `None` where the checker fails on a path it cannot read. */
  function ImportTarget(ctx: Context, source: string, b: Block): Option<string> {
    if "SOURCE" in b.fields && RelativePath(b.fields["SOURCE"].value).Some?
    then Some(ctx.resolve(source, RelativePath(b.fields["SOURCE"].value).value)) else None
  }

  /** A project or a part cannot be imported. */
  predicate Importable(registry: Registry, unit: Unit) {
    unit.Kind() != Some("kind.project") && (unit.Kind().Some? ==> unit.Kind().value !in registry.partKinds)
  }

  function FollowBlock(ctx: Context, files: map<string, string>, unit: Unit, chain: seq<string>, named: set<string>,
                       b: Block, log: Log): Option<Log>
    requires ctx.Valid()
    decreases files.Keys - SetOf(chain), 0, 0
  {
    match ImportTarget(ctx, unit.source, b)
    case None => None
    case Some(source) =>
      var at := b.fields["SOURCE"].offset;
      if source in chain then Some(Noted(log, "error.import.cycle", unit.source, at))
      else if source in named then Some(Noted(log, "error.project.part_duplicate", unit.source, at))
      else if source !in files then Some(Noted(log, "error.import.not_found", unit.source, at))
      else
        assert source in files.Keys - SetOf(chain) && source !in files.Keys - SetOf(chain + [source]);
        match Load(ctx, files, source)
        case None => None
        case Some(child) =>
          if !child.Usable() then Some(Loaded(log, child))
          else if !Importable(ctx.registry, child) then
            Some(Noted(Loaded(log, child), "error.project.placement", source, child.header.kind.offset))
          else FollowBlocks(ctx, files, child, chain + [source], named, child.blocks, Loaded(log, child))
  }

  /** Follow the imports among `blocks`; `chain` names the units on the way here. */
  function FollowBlocks(ctx: Context, files: map<string, string>, unit: Unit, chain: seq<string>, named: set<string>,
                        blocks: seq<Block>, log: Log): Option<Log>
    requires ctx.Valid()
    decreases files.Keys - SetOf(chain), 1, |blocks|
  {
    if blocks == [] then Some(log)
    else
      var b := blocks[|blocks| - 1];
      match FollowBlocks(ctx, files, unit, chain, named, blocks[..|blocks| - 1], log)
      case None => None
      case Some(next) => if IsImport(b) then FollowBlock(ctx, files, unit, chain, named, b, next) else Some(next)
  }

  /** The namespaces the entry's imports declare; `None` where one declares none. */
  function Namespaces(blocks: seq<Block>): Option<set<string>> {
    if blocks == [] then Some({})
    else
      var b := blocks[|blocks| - 1];
      match Namespaces(blocks[..|blocks| - 1])
      case None => None
      case Some(found) =>
        if !IsImport(b) then Some(found)
        else if "NAMESPACE" !in b.fields then None
        else Some(found + if b.fields["NAMESPACE"].value.Some? then {b.fields["NAMESPACE"].value.value} else {})
  }

  // ------------------------------------------------------------------ identifiers and references

  datatype Declaration = Declaration(source: string, id: Option<string>, offset: nat)

  datatype Ids = Ids(declared: set<string>, diagnostics: seq<Diagnostic>)

  /** The text before the first point. */
  function FirstSegment(id: string): string {
    if id == [] || id[0] == '.' then [] else [id[0]] + FirstSegment(id[1..])
  }

  function DeclarationsOf(source: string, blocks: seq<Block>): seq<Declaration> {
    if blocks == [] then []
    else
      var b := blocks[|blocks| - 1];
      DeclarationsOf(source, blocks[..|blocks| - 1])
      + if "ID" in b.fields && b.name != "LCL" then [Declaration(source, b.fields["ID"].value, b.fields["ID"].offset)] else []
  }

  function Declarations(units: seq<Unit>): seq<Declaration> {
    if units == [] then []
    else
      var u := units[|units| - 1];
      Declarations(units[..|units| - 1]) + DeclarationsOf(u.source, u.blocks)
  }

  /** Declare identifiers in order; `None` where one has no text. */
  function Declare(namespaces: set<string>, decls: seq<Declaration>): Option<Ids> {
    if decls == [] then Some(Ids({}, []))
    else
      var d := decls[|decls| - 1];
      match Declare(namespaces, decls[..|decls| - 1])
      case None => None
      case Some(ids) =>
        if d.id.None? then None
        else if d.id.value in ids.declared || FirstSegment(d.id.value) in namespaces then
          Some(ids.(diagnostics := ids.diagnostics + [Problem("error.id.duplicate", d.source, d.offset)]))
        else Some(ids.(declared := ids.declared + {d.id.value}))
  }

  function UnresolvedIn(declared: set<string>, namespaces: set<string>, source: string,
                        refs: seq<Reference>): seq<Diagnostic> {
    if refs == [] then []
    else
      var r := refs[|refs| - 1];
      UnresolvedIn(declared, namespaces, source, refs[..|refs| - 1])
      + if FirstSegment(r.target) in namespaces || r.target in declared then []
        else [Problem("error.reference.unresolved", source, r.offset)]
  }

  function Unresolved(declared: set<string>, namespaces: set<string>, units: seq<Unit>): seq<Diagnostic> {
    if units == [] then []
    else
      var u := units[|units| - 1];
      Unresolved(declared, namespaces, units[..|units| - 1]) + UnresolvedIn(declared, namespaces, u.source, u.refs)
  }

  // ------------------------------------------------------------------ bases

  /** The target of a value that is one reference. */
  function RefTarget(value: Option<string>): Option<string> {
    if value.Some? && Surrounded(value.value, "REF(", ")") && Identifier(Inside(value.value, "REF(", ")"), true)
    then Some(Inside(value.value, "REF(", ")")) else None
  }

  predicate IsBased(b: Block) {
    b.name == "DEFINE" && "BASE" in b.fields && RefTarget(b.fields["BASE"].value).Some?
  }

  /** The bases of the definitions among `blocks`; `None` where a definition has no identifier. */
  function BasesOf(blocks: seq<Block>, rank: nat, before: Bases): Option<Bases> {
    if blocks == [] then Some(before)
    else
      var b := blocks[|blocks| - 1];
      match BasesOf(blocks[..|blocks| - 1], rank, before)
      case None => None
      case Some(bases) =>
        if !IsBased(b) then Some(bases)
        else if "ID" !in b.fields || b.fields["ID"].value.None? then None
        else Some(bases[b.fields["ID"].value.value := Base(RefTarget(b.fields["BASE"].value).value, rank, b.fields["BASE"].offset)])
  }

  function AllBases(units: seq<Unit>): Option<Bases> {
    if units == [] then Some(map[])
    else
      match AllBases(units[..|units| - 1])
      case None => None
      case Some(bases) => BasesOf(units[|units| - 1].blocks, |units| - 1, bases)
  }

  // ------------------------------------------------------------------ the whole evaluation

  /** What is known before BASE cycles are looked for. */
  datatype Work = Work(log: Log, rows: seq<Row>, units: seq<Unit>, bases: Bases)

  /** The checks across the units of a complete project. */
  function Across(log: Log, units: seq<Unit>, namespaces: set<string>): Option<(Log, Bases)> {
    match Declare(namespaces, Declarations(units))
    case None => None
    case Some(ids) =>
      match AllBases(units)
      case None => None
      case Some(bases) =>
        Some((log.(diagnostics := log.diagnostics + ids.diagnostics + Unresolved(ids.declared, namespaces, units)), bases))
  }

  function Imports(ctx: Context, files: map<string, string>, entry: string, root: Unit, parts: Parts): Option<Work>
    requires ctx.Valid()
  {
    match FollowBlocks(ctx, files, root, [entry], parts.named, root.blocks, parts.log)
    case None => None
    case Some(log) =>
      match Namespaces(root.blocks)
      case None => None
      case Some(namespaces) =>
        if !parts.complete then Some(Work(log, parts.rows, parts.units, map[]))
        else
          match Across(log, parts.units, namespaces)
          case None => None
          case Some((after, bases)) => Some(Work(after, parts.rows, parts.units, bases))
  }

  /** `None` where the checker fails instead of answering. */
  function Gather(ctx: Context, files: map<string, string>, entry: string): Option<Work>
    requires ctx.Valid()
  {
    if entry !in files then None
    else
      match Load(ctx, files, entry)
      case None => None
      case Some(root) =>
        var log := Loaded(Log([], []), root);
        if !root.Usable() then Some(Work(log, [], [], map[]))
        else if root.Kind().Some? && root.Kind().value in ctx.registry.partKinds then
          Some(Work(Noted(log, "error.project.placement", entry, root.header.kind.offset), [], [], map[]))
        else if root.Kind() != Some("kind.project") then None
        else
          match AddParts(ctx, files, root, root.blocks, Parts(log, [], true, [root], {}))
          case None => None
          case Some(parts) => Imports(ctx, files, entry, root, parts)
  }
}
