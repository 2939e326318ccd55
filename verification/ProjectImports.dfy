/** When following the imports of a project finds nothing wrong. */
module ProjectImports {
  import opened Base
  import opened Order
  import opened ProjectBases
  import opened ProjectUnits
  import opened ProjectEvaluation

  type Files = map<string, string>

  /** The usable unit at `a` imports `b`. */
  ghost predicate ImportsFrom(ctx: Context, files: Files, a: string, b: string)
    requires ctx.Valid()
  {
    a in files && Load(ctx, files, a).Some? && Load(ctx, files, a).value.Usable()
    && exists i :: Names(ctx, Load(ctx, files, a).value, i, b)
  }

  predicate Names(ctx: Context, unit: Unit, i: int, b: string) {
    0 <= i < |unit.blocks| && IsImport(unit.blocks[i]) && ImportTarget(ctx, unit.source, unit.blocks[i]) == Some(b)
  }

  /** Every import of the unit has a path. */
  predicate ImportsReadable(ctx: Context, unit: Unit) {
    forall i | 0 <= i < |unit.blocks| && IsImport(unit.blocks[i]) :: ImportTarget(ctx, unit.source, unit.blocks[i]).Some?
  }

  /** A chain of imports. */
  ghost predicate ImportPath(ctx: Context, files: Files, p: seq<string>)
    requires ctx.Valid()
  {
    p != [] && forall i | 0 <= i < |p| - 1 :: ImportsFrom(ctx, files, p[i], p[i + 1])
  }

  /** Neither a project nor one of the kinds a part may have. */
  predicate IsLibrary(registry: Registry, unit: Unit) {
    match unit.header.kind.value
    case None => true
    case Some(kind) => kind != "kind.project" && kind !in registry.partKinds
  }

  /** A source that may be imported: a usable library, not a part of the project, whose own imports have paths. */
  predicate Library(ctx: Context, files: Files, named: set<string>, source: string)
    requires ctx.Valid()
  {
    source in files && source !in named
    && Load(ctx, files, source).Some?
    && var unit := Load(ctx, files, source).value;
       unit.diagnostics == [] && IsLibrary(ctx.registry, unit) && ImportsReadable(ctx, unit)
  }

  predicate Libraries(ctx: Context, files: Files, named: set<string>, q: seq<string>)
    requires ctx.Valid()
  {
    forall i | 0 < i < |q| :: Library(ctx, files, named, q[i])
  }

  ghost predicate GoodPath(ctx: Context, files: Files, named: set<string>, p: seq<string>)
    requires ctx.Valid()
  {
    Distinct(p) && Libraries(ctx, files, named, p)
  }

  /** No chain of imports from `entry` comes back to itself or meets anything but libraries. */
  ghost predicate ImportsSound(ctx: Context, files: Files, named: set<string>, entry: string)
    requires ctx.Valid()
  {
    forall p | ImportPath(ctx, files, p) && p[0] == entry :: GoodPath(ctx, files, named, p)
  }

  /** Nothing was emitted. */
  predicate Clean(before: Log, after: Option<Log>) {
    after.Some? && after.value.diagnostics == before.diagnostics
  }

  ghost predicate Emits(before: Log, after: Option<Log>) {
    after.Some? ==> before.diagnostics <= after.value.diagnostics
  }

  lemma {:induction false} FollowBlockEmits(ctx: Context, files: Files, unit: Unit, chain: seq<string>, named: set<string>,
                                            b: Block, log: Log)
    requires ctx.Valid()
    ensures Emits(log, FollowBlock(ctx, files, unit, chain, named, b, log))
    decreases files.Keys - SetOf(chain), 0, 0
  {
    var target := ImportTarget(ctx, unit.source, b);
    if target.Some? && target.value !in chain && target.value !in named && target.value in files {
      var source := target.value;
      var child := Load(ctx, files, source);
      if child.Some? && child.value.Usable() && Importable(ctx.registry, child.value) {
        assert source in files.Keys - SetOf(chain) && source !in files.Keys - SetOf(chain + [source]);
        FollowBlocksEmits(ctx, files, child.value, chain + [source], named, child.value.blocks, Loaded(log, child.value));
      }
    }
  }

  lemma {:induction false} FollowBlocksEmits(ctx: Context, files: Files, unit: Unit, chain: seq<string>, named: set<string>,
                                             blocks: seq<Block>, log: Log)
    requires ctx.Valid()
    ensures Emits(log, FollowBlocks(ctx, files, unit, chain, named, blocks, log))
    decreases files.Keys - SetOf(chain), 1, |blocks|
  {
    if blocks != [] {
      var init := blocks[..|blocks| - 1];
      FollowBlocksEmits(ctx, files, unit, chain, named, init, log);
      var next := FollowBlocks(ctx, files, unit, chain, named, init, log);
      if next.Some? {
        FollowBlockEmits(ctx, files, unit, chain, named, blocks[|blocks| - 1], next.value);
      }
    }
  }

  /** If following all of `blocks` emits nothing, following each import does not either. */
  lemma {:induction false} CleanEach(ctx: Context, files: Files, unit: Unit, chain: seq<string>, named: set<string>,
                                     blocks: seq<Block>, log: Log, i: nat) returns (at: Log)
    requires ctx.Valid() && i < |blocks| && IsImport(blocks[i])
    requires Clean(log, FollowBlocks(ctx, files, unit, chain, named, blocks, log))
    ensures Clean(at, FollowBlock(ctx, files, unit, chain, named, blocks[i], at))
    decreases |blocks|
  {
    var init := blocks[..|blocks| - 1];
    var next := FollowBlocks(ctx, files, unit, chain, named, init, log);
    FollowBlocksEmits(ctx, files, unit, chain, named, init, log);
    FollowBlockEmits(ctx, files, unit, chain, named, blocks[|blocks| - 1], next.value);
    if i == |blocks| - 1 {
      at := next.value;
    } else {
      assert init[i] == blocks[i];
      at := CleanEach(ctx, files, unit, chain, named, init, log, i);
    }
  }

  /** A clean import leads to a library that is new to the chain, and whose own imports are clean. */
  lemma CleanStep(ctx: Context, files: Files, unit: Unit, chain: seq<string>, named: set<string>, b: Block, at: Log)
    returns (child: Unit, log: Log)
    requires ctx.Valid() && Clean(at, FollowBlock(ctx, files, unit, chain, named, b, at))
    ensures var target := ImportTarget(ctx, unit.source, b);
      && target.Some? && target.value !in chain && target.value !in named
      && target.value in files && Load(ctx, files, target.value) == Some(child)
      && child.Usable() && Importable(ctx.registry, child)
      && Clean(log, FollowBlocks(ctx, files, child, chain + [target.value], named, child.blocks, log))
  {
    var source := ImportTarget(ctx, unit.source, b).value;
    child := Load(ctx, files, source).value;
    log := Loaded(at, child);
    assert at.diagnostics + child.diagnostics == at.diagnostics ==> |child.diagnostics| == 0;
    if child.Usable() {
      assert log.diagnostics == at.diagnostics;
    }
  }

  lemma {:induction false} CleanReadable(ctx: Context, files: Files, unit: Unit, chain: seq<string>,
                                         named: set<string>, log: Log)
    requires ctx.Valid() && Clean(log, FollowBlocks(ctx, files, unit, chain, named, unit.blocks, log))
    ensures ImportsReadable(ctx, unit)
  {
    forall i | 0 <= i < |unit.blocks| && IsImport(unit.blocks[i])
      ensures ImportTarget(ctx, unit.source, unit.blocks[i]).Some?
    {
      var at := CleanEach(ctx, files, unit, chain, named, unit.blocks, log, i);
    }
  }

  lemma PathTail(ctx: Context, files: Files, q: seq<string>)
    requires ctx.Valid() && ImportPath(ctx, files, q) && |q| > 1
    ensures ImportPath(ctx, files, q[1..])
  {
    forall k | 0 <= k < |q| - 2
      ensures ImportsFrom(ctx, files, q[1..][k], q[1..][k + 1])
    {
      assert ImportsFrom(ctx, files, q[k + 1], q[k + 2]);
    }
  }

  lemma PathGrows(ctx: Context, files: Files, chain: seq<string>, source: string)
    requires ctx.Valid() && ImportPath(ctx, files, chain) && ImportsFrom(ctx, files, chain[|chain| - 1], source)
    ensures ImportPath(ctx, files, chain + [source])
  {
    var p := chain + [source];
    forall k | 0 <= k < |p| - 1
      ensures ImportsFrom(ctx, files, p[k], p[k + 1])
    {
      if k < |chain| - 1 {
        assert ImportsFrom(ctx, files, chain[k], chain[k + 1]);
      }
    }
  }

  /** The first step of a chain of imports, after a clean walk. */
  lemma CleanFirst(ctx: Context, files: Files, unit: Unit, chain: seq<string>, named: set<string>, log: Log,
                   a: string, b: string)
    returns (child: Unit, next: Log)
    requires ctx.Valid() && Clean(log, FollowBlocks(ctx, files, unit, chain, named, unit.blocks, log))
    requires a in files && Load(ctx, files, a) == Some(unit) && ImportsFrom(ctx, files, a, b)
    ensures b !in chain && Library(ctx, files, named, b) && Load(ctx, files, b) == Some(child)
    ensures Clean(next, FollowBlocks(ctx, files, child, chain + [b], named, child.blocks, next))
  {
    var i :| Names(ctx, unit, i, b);
    var at := CleanEach(ctx, files, unit, chain, named, unit.blocks, log, i);
    child, next := CleanStep(ctx, files, unit, chain, named, unit.blocks[i], at);
    CleanReadable(ctx, files, child, chain + [b], named, next);
  }

  lemma LibrariesFrom(ctx: Context, files: Files, named: set<string>, q: seq<string>)
    requires ctx.Valid() && |q| > 1 && Library(ctx, files, named, q[1]) && Libraries(ctx, files, named, q[1..])
    ensures Libraries(ctx, files, named, q)
  {
    forall k | 0 < k < |q|
      ensures Library(ctx, files, named, q[k])
    {
      assert k > 1 ==> q[k] == q[1..][k - 1];
    }
  }

  /** Following the imports of `source`, reached by `chain`, emits nothing. */
  ghost predicate Walked(ctx: Context, files: Files, named: set<string>, chain: seq<string>, source: string)
    requires ctx.Valid()
  {
    source in files && Load(ctx, files, source).Some?
    && exists log :: CleanWalk(ctx, files, named, chain, Load(ctx, files, source).value, log)
  }

  predicate CleanWalk(ctx: Context, files: Files, named: set<string>, chain: seq<string>, unit: Unit, log: Log)
    requires ctx.Valid()
  {
    Clean(log, FollowBlocks(ctx, files, unit, chain, named, unit.blocks, log))
  }

  lemma WalkedStep(ctx: Context, files: Files, named: set<string>, chain: seq<string>, a: string, b: string)
    requires ctx.Valid() && Walked(ctx, files, named, chain, a) && ImportsFrom(ctx, files, a, b)
    ensures b !in chain && Library(ctx, files, named, b) && Walked(ctx, files, named, chain + [b], b)
  {
    var unit := Load(ctx, files, a).value;
    var log :| CleanWalk(ctx, files, named, chain, unit, log);
    var child, next := CleanFirst(ctx, files, unit, chain, named, log, a, b);
    assert CleanWalk(ctx, files, named, chain + [b], child, next);
  }

  /** After a clean walk, every chain of imports from here is good. */
  lemma {:induction false} CleanPath(ctx: Context, files: Files, named: set<string>, chain: seq<string>, q: seq<string>)
    requires ctx.Valid() && ImportPath(ctx, files, q) && Walked(ctx, files, named, chain, q[0])
    requires Distinct(chain)
    ensures Distinct(chain + q[1..])
    ensures Libraries(ctx, files, named, q)
    decreases |q|
  {
    if |q| == 1 {
      assert chain + q[1..] == chain;
    } else {
      var b, rest := q[1], q[1..];
      assert ImportsFrom(ctx, files, q[0], b);
      WalkedStep(ctx, files, named, chain, q[0], b);
      PathTail(ctx, files, q);
      assert rest[0] == b;
      DistinctMore(chain, b);
      CleanPath(ctx, files, named, chain + [b], rest);
      LibrariesFrom(ctx, files, named, q);
      Regrouped(chain, q);
    }
  }

  lemma Regrouped(chain: seq<string>, q: seq<string>)
    requires |q| > 1
    ensures chain + q[1..] == chain + [q[1]] + q[1..][1..]
  {
  }

  lemma DistinctMore(chain: seq<string>, b: string)
    requires Distinct(chain) && b !in chain
    ensures Distinct(chain + [b])
  {
  }

  lemma SoundStep(ctx: Context, files: Files, named: set<string>, chain: seq<string>, source: string)
    requires ctx.Valid() && ImportPath(ctx, files, chain + [source]) && chain != []
    requires ImportsSound(ctx, files, named, chain[0])
    ensures source !in chain && Library(ctx, files, named, source)
  {
    var p := chain + [source];
    assert p[0] == chain[0];
    assert GoodPath(ctx, files, named, p);
    assert p[|chain|] == source;
    forall k | 0 <= k < |chain|
      ensures chain[k] != source
    {
      assert p[k] != p[|chain|];
    }
  }

  lemma {:induction false} FollowNext(ctx: Context, files: Files, unit: Unit, chain: seq<string>, named: set<string>, blocks: seq<Block>, n: nat,
                                      log: Log)
    requires ctx.Valid() && 0 < n <= |blocks|
    ensures var before := FollowBlocks(ctx, files, unit, chain, named, blocks[..n - 1], log);
      FollowBlocks(ctx, files, unit, chain, named, blocks[..n], log) ==
        if before.None? then None
        else if IsImport(blocks[n - 1]) then FollowBlock(ctx, files, unit, chain, named, blocks[n - 1], before.value)
        else before
  {
    assert blocks[..n][..n - 1] == blocks[..n - 1];
  }

  lemma {:induction false} SoundBlocks(ctx: Context, files: Files, named: set<string>, unit: Unit, chain: seq<string>,
                                       n: nat, log: Log)
    requires ctx.Valid() && ImportPath(ctx, files, chain) && n <= |unit.blocks|
    requires ImportsSound(ctx, files, named, chain[0]) && ImportsReadable(ctx, unit)
    requires var last := chain[|chain| - 1]; last in files && Load(ctx, files, last) == Some(unit) && unit.Usable()
    ensures Clean(log, FollowBlocks(ctx, files, unit, chain, named, unit.blocks[..n], log))
    decreases files.Keys - SetOf(chain), 1, n
  {
    if n > 0 {
      SoundBlocks(ctx, files, named, unit, chain, n - 1, log);
      var before := FollowBlocks(ctx, files, unit, chain, named, unit.blocks[..n - 1], log);
      FollowNext(ctx, files, unit, chain, named, unit.blocks, n, log);
      if IsImport(unit.blocks[n - 1]) {
        SoundBlock(ctx, files, named, unit, chain, n - 1, before.value);
      }
    }
  }

  lemma {:induction false} SoundBlock(ctx: Context, files: Files, named: set<string>, unit: Unit, chain: seq<string>,
                                      i: nat, log: Log)
    requires ctx.Valid() && ImportPath(ctx, files, chain) && i < |unit.blocks| && IsImport(unit.blocks[i])
    requires ImportsSound(ctx, files, named, chain[0]) && ImportsReadable(ctx, unit)
    requires var last := chain[|chain| - 1]; last in files && Load(ctx, files, last) == Some(unit) && unit.Usable()
    ensures Clean(log, FollowBlock(ctx, files, unit, chain, named, unit.blocks[i], log))
    decreases files.Keys - SetOf(chain), 0, 0
  {
    var source := ImportTarget(ctx, unit.source, unit.blocks[i]).value;
    var p := chain + [source];
    assert Names(ctx, unit, i, source);
    assert ImportsFrom(ctx, files, chain[|chain| - 1], source);
    PathGrows(ctx, files, chain, source);
    SoundStep(ctx, files, named, chain, source);
    var child := Load(ctx, files, source).value;
    assert source in files.Keys - SetOf(chain) && source !in files.Keys - SetOf(p);
    SoundBlocks(ctx, files, named, child, p, |child.blocks|, Loaded(log, child));
    assert child.blocks[..|child.blocks|] == child.blocks;
    assert Loaded(log, child).diagnostics == log.diagnostics;
  }

  /**
   * Following the imports of a usable entry emits nothing exactly when every chain of imports from it is free
   * of repetition and meets only libraries that are not parts of the project.
   */
  lemma {:induction false} FollowIsExact(ctx: Context, files: Files, named: set<string>, entry: string, root: Unit, log: Log)
    requires ctx.Valid() && entry in files && Load(ctx, files, entry) == Some(root) && root.Usable()
    ensures Clean(log, FollowBlocks(ctx, files, root, [entry], named, root.blocks, log))
       <==> ImportsReadable(ctx, root) && ImportsSound(ctx, files, named, entry)
  {
    if Clean(log, FollowBlocks(ctx, files, root, [entry], named, root.blocks, log)) {
      CleanReadable(ctx, files, root, [entry], named, log);
      forall p | ImportPath(ctx, files, p) && p[0] == entry
        ensures GoodPath(ctx, files, named, p)
      {
        assert CleanWalk(ctx, files, named, [entry], root, log);
        CleanPath(ctx, files, named, [entry], p);
        assert [entry] + p[1..] == p;
      }
    }
    if ImportsReadable(ctx, root) && ImportsSound(ctx, files, named, entry) {
      SoundBlocks(ctx, files, named, root, [entry], |root.blocks|, log);
      assert root.blocks[..|root.blocks|] == root.blocks;
    }
  }
}
