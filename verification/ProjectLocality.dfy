/** An evaluation looks only at the entry and at files that a PART, IMPORT or EXTENSION names. */
module ProjectLocality {
  import opened Base
  import opened ProjectBases
  import opened ProjectUnits
  import opened ProjectEvaluation

  type Files = map<string, string>

  /** The two sets of files are the same as far as `within` goes. */
  predicate Agree(f: Files, g: Files, within: set<string>) {
    forall s | s in within :: (s in f <==> s in g) && (s in f ==> f[s] == g[s])
  }

  /** Every source the unit names in a PART, IMPORT or EXTENSION is in the set. */
  predicate NamesWithin(ctx: Context, unit: Unit, within: set<string>) {
    forall i | 0 <= i < |unit.blocks| && (unit.blocks[i].name == "PART" || IsImport(unit.blocks[i])) ::
      var target := ImportTarget(ctx, unit.source, unit.blocks[i]); target.Some? ==> target.value in within
  }

  predicate Closed(ctx: Context, files: Files, within: set<string>)
    requires ctx.Valid()
  {
    forall s | s in within && s in files ::
      var unit := Load(ctx, files, s); unit.Some? ==> NamesWithin(ctx, unit.value, within)
  }

  lemma {:induction false} FollowBlockLocal(ctx: Context, f: Files, g: Files, within: set<string>, unit: Unit,
                                            chain: seq<string>, named: set<string>, b: Block, log: Log)
    requires ctx.Valid() && Agree(f, g, within) && Closed(ctx, f, within)
    requires var target := ImportTarget(ctx, unit.source, b); target.Some? ==> target.value in within
    ensures FollowBlock(ctx, f, unit, chain, named, b, log) == FollowBlock(ctx, g, unit, chain, named, b, log)
    decreases f.Keys - SetOf(chain), 0, 0
  {
    var target := ImportTarget(ctx, unit.source, b);
    if target.Some? && target.value !in chain && target.value !in named && target.value in f {
      var source := target.value;
      var child := Load(ctx, f, source);
      assert child == Load(ctx, g, source);
      if child.Some? && child.value.Usable() && Importable(ctx.registry, child.value) {
        assert source in f.Keys - SetOf(chain) && source !in f.Keys - SetOf(chain + [source]);
        FollowBlocksLocal(ctx, f, g, within, child.value, chain + [source], named, |child.value.blocks|, Loaded(log, child.value));
        assert child.value.blocks[..|child.value.blocks|] == child.value.blocks;
      }
    }
  }

  lemma {:induction false} FollowBlocksLocal(ctx: Context, f: Files, g: Files, within: set<string>, unit: Unit,
                                             chain: seq<string>, named: set<string>, n: nat, log: Log)
    requires ctx.Valid() && Agree(f, g, within) && Closed(ctx, f, within)
    requires NamesWithin(ctx, unit, within) && n <= |unit.blocks|
    ensures FollowBlocks(ctx, f, unit, chain, named, unit.blocks[..n], log)
         == FollowBlocks(ctx, g, unit, chain, named, unit.blocks[..n], log)
    decreases f.Keys - SetOf(chain), 1, n
  {
    if n > 0 {
      var blocks := unit.blocks[..n];
      assert blocks[..n - 1] == unit.blocks[..n - 1];
      FollowBlocksLocal(ctx, f, g, within, unit, chain, named, n - 1, log);
      var next := FollowBlocks(ctx, f, unit, chain, named, unit.blocks[..n - 1], log);
      if next.Some? && IsImport(blocks[n - 1]) {
        FollowBlockLocal(ctx, f, g, within, unit, chain, named, blocks[n - 1], next.value);
      }
    }
  }

  lemma {:induction false} AddPartsLocal(ctx: Context, f: Files, g: Files, within: set<string>, root: Unit, n: nat, s: Parts)
    requires ctx.Valid() && Agree(f, g, within) && NamesWithin(ctx, root, within)
    requires n <= |root.blocks| && PartsOk(ctx, root.blocks)
    ensures AddParts(ctx, f, root, root.blocks[..n], s) == AddParts(ctx, g, root, root.blocks[..n], s)
  {
    if n > 0 {
      assert root.blocks[..n][..n - 1] == root.blocks[..n - 1];
      AddPartsLocal(ctx, f, g, within, root, n - 1, s);
      var b := root.blocks[n - 1];
      if b.name == "PART" {
        assert ImportTarget(ctx, root.source, b) == Some(PartTarget(ctx, root.source, b));
      }
    }
  }

  /** Files outside a set that is closed under naming change nothing, whether they are there or not. */
  lemma OnlyNamedFilesMatter(ctx: Context, f: Files, g: Files, entry: string, within: set<string>)
    requires ctx.Valid() && Agree(f, g, within) && Closed(ctx, f, within) && entry in within
    ensures Gather(ctx, f, entry) == Gather(ctx, g, entry)
  {
    if entry in f && Load(ctx, f, entry).Some? {
      var root := Load(ctx, f, entry).value;
      if root.Usable() && root.Kind() == Some("kind.project") {
        assert root.blocks[..|root.blocks|] == root.blocks;
        var start := Parts(Loaded(Log([], []), root), [], true, [root], {});
        AddPartsLocal(ctx, f, g, within, root, |root.blocks|, start);
        var parts := AddParts(ctx, f, root, root.blocks, start);
        if parts.Some? {
          FollowBlocksLocal(ctx, f, g, within, root, [entry], parts.value.named, |root.blocks|, parts.value.log);
        }
      }
    }
  }
}
