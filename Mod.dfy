/**
 * The mod's state and the operations that change it: the parsed exception
 * set, the category flags, the piece-table snapshot, the memoised policy
 * query, the reduction pass, and the prefixes of the intercepted game
 * methods that consult the policy.
 */
module Mod {
  import opened Wrappers
  import opened Text
  import opened Pieces
  import opened Policy
  import opened Reduction
  import opened Hooks

  class BuildResourcesMod {
    // Configuration values, as the host's configuration (and its server sync) set them.
    var exceptionsConfig: string
    var enableSkillBasedReduction: bool
    var enableFreeBuildAtMaxSkill: bool
    var categoryConfigs: map<string, bool>

    // State the mod keeps.
    var exceptionPieces: set<string>
    var lastPiece: Option<string>
    var lastChecked: bool
    var noCost: bool
    var cachedPieceTables: map<string, PieceTable>
    var pieceToTable: map<Piece, string>
    var originalResourceCache: map<Piece, map<string, int>>

    /** Start-up: the configuration defaults bound, everything else empty. */
    constructor ()
      ensures categoryConfigs == DefaultCategoryConfigs && exceptionsConfig == []
      ensures !enableSkillBasedReduction && enableFreeBuildAtMaxSkill
      ensures exceptionPieces == {} && lastPiece == None && !lastChecked && !noCost
      ensures cachedPieceTables == map[] && pieceToTable == map[] && originalResourceCache == map[]
    {
      exceptionsConfig := [];
      enableSkillBasedReduction := false;
      enableFreeBuildAtMaxSkill := true;
      categoryConfigs := DefaultCategoryConfigs;
      exceptionPieces := {};
      lastPiece := None;
      lastChecked := false;
      noCost := false;
      cachedPieceTables := map[];
      pieceToTable := map[];
      originalResourceCache := map[];
    }

    function MemoState(): Memo
      reads this
    {
      Memo(lastPiece, lastChecked)
    }

    /** The name of the table the snapshot binds the piece to, if any. */
    function TableOf(piece: Piece): Option<string>
      reads this
    {
      if piece in pieceToTable then Some(pieceToTable[piece]) else None
    }

    /** What the policy says about piece in the current state, memo aside. */
    function PolicyFor(piece: Piece): bool
      reads this
    {
      Resolve(piece.name, piece.category, TableOf(piece), exceptionPieces, categoryConfigs)
    }

    /**
     * ShouldRequireResources: a hit on the memo's name answers from the
     * memo; a miss resolves the policy and stores the raw name and answer.
     */
    method ShouldRequireResources(piece: Piece) returns (r: bool)
      modifies this`lastPiece, this`lastChecked
      ensures (r, MemoState()) == Lookup(old(MemoState()), piece.name, PolicyFor(piece))
    {
      if lastPiece == Some(piece.name) {
        return lastChecked;
      }
      var rawName := Normalise(piece.name);
      if rawName in exceptionPieces {
        lastPiece, lastChecked := Some(piece.name), false;
        return false;
      }
      if piece in pieceToTable {
        var tableName := pieceToTable[piece];
        if tableName == CultivatorTable {
          if CultivatorFlag in categoryConfigs {
            lastPiece, lastChecked := Some(piece.name), categoryConfigs[CultivatorFlag];
            return categoryConfigs[CultivatorFlag];
          }
        } else if tableName == HoeTable {
          if HoeFlag in categoryConfigs {
            lastPiece, lastChecked := Some(piece.name), categoryConfigs[HoeFlag];
            return categoryConfigs[HoeFlag];
          }
        }
      }
      var category := piece.category;
      if category in categoryConfigs {
        lastPiece, lastChecked := Some(piece.name), categoryConfigs[category];
        return categoryConfigs[category];
      }
      lastPiece, lastChecked := Some(piece.name), true;
      return true;
    }

    /** ParseExceptions: the set is rebuilt from scratch from the configuration string. */
    method ParseExceptions()
      modifies this`exceptionPieces
      ensures exceptionPieces == ExceptionSet(exceptionsConfig)
    {
      exceptionPieces := {};
      var fields := Split(exceptionsConfig, ',');
      for i := 0 to |fields|
        invariant exceptionPieces == set f | f in fields[..i] && Trim(f) != [] :: Trim(f)
      {
        var trimmed := Trim(fields[i]);
        if trimmed != [] {
          exceptionPieces := exceptionPieces + {trimmed};
        }
        assert fields[..i + 1] == fields[..i] + [fields[i]];
      }
      assert fields[..|fields|] == fields;
    }

    /**
     * HandleCategories: scans the pieces of all tables once per category
     * and adds a true flag for each new category that is not blacklisted;
     * existing flags are kept.
     */
    method HandleCategories(tables: seq<PieceTable>)
      modifies this`categoryConfigs
      ensures categoryConfigs == Discover(old(categoryConfigs), CategoriesIn(Flatten(tables)))
    {
      var processed: set<string> := {};
      for i := 0 to |tables|
        invariant processed == CategoriesIn(Flatten(tables[..i]))
        invariant categoryConfigs == Discover(old(categoryConfigs), processed)
      {
        var pieces := tables[i].pieces;
        ghost var before := Flatten(tables[..i]);
        assert before + pieces[..0] == before;
        for j := 0 to |pieces|
          invariant processed == CategoriesIn(before + pieces[..j])
          invariant categoryConfigs == Discover(old(categoryConfigs), processed)
        {
          var obj := pieces[j];
          CategoriesInAppend(before + pieces[..j], obj);
          assert before + pieces[..j + 1] == before + pieces[..j] + [obj];
          if obj == null {
            continue;
          }
          var category := obj.category;
          if category in processed {
            continue;
          }
          DiscoverStep(old(categoryConfigs), processed, category);
          processed := processed + {category};
          if category in Blacklist {
            continue;
          }
          if category !in categoryConfigs {
            categoryConfigs := categoryConfigs[category := true];
          }
        }
        assert tables[..i + 1][..i] == tables[..i];
        assert pieces[..|pieces|] == pieces;
      }
      assert tables[..|tables|] == tables;
    }

    /**
     * CachePieceTables: rebuilds the three maps from empty. The first table
     * of each name is cached and the others are skipped; each piece is bound
     * to the first cached table that lists it, and its original amounts are
     * recorded then.
     */
    method CachePieceTables(tables: seq<PieceTable>)
      modifies this`cachedPieceTables, this`pieceToTable, this`originalResourceCache
      ensures cachedPieceTables.Keys == set i | 0 <= i < |tables| :: tables[i].name
      ensures forall i :: FirstOfName(tables, i) ==>
                tables[i].name in cachedPieceTables && cachedPieceTables[tables[i].name] == tables[i]
      ensures forall p: Piece :: p in pieceToTable <==> ListedBefore(tables, p, |tables|)
      ensures forall p: Piece, i :: OwnedBy(tables, p, i) ==> p in pieceToTable && pieceToTable[p] == tables[i].name
      ensures originalResourceCache.Keys == pieceToTable.Keys
      ensures forall p :: p in originalResourceCache ==> originalResourceCache[p] == Snapshot(p.resources[..])
    {
      cachedPieceTables := map[];
      pieceToTable := map[];
      originalResourceCache := map[];
      for i := 0 to |tables|
        invariant cachedPieceTables == Cached(tables, i)
        invariant pieceToTable == Bindings(tables, i)
        invariant originalResourceCache.Keys == pieceToTable.Keys
        invariant forall p :: p in originalResourceCache ==> originalResourceCache[p] == Snapshot(p.resources[..])
      {
        var table := tables[i];
        if table.name !in cachedPieceTables {
          cachedPieceTables := cachedPieceTables[table.name := table];
          BindPieces(table);
        }
      }
      CachedKeys(tables, |tables|);
      NamesUpToIs(tables, |tables|);
      forall i | FirstOfName(tables, i)
        ensures tables[i].name in cachedPieceTables && cachedPieceTables[tables[i].name] == tables[i]
      {
        CachedFirstValue(tables, |tables|, i);
      }
      forall p: Piece ensures p in pieceToTable <==> ListedBefore(tables, p, |tables|) {
        BindingsKeys(tables, |tables|, p);
      }
      forall p: Piece, i | OwnedBy(tables, p, i) ensures p in pieceToTable && pieceToTable[p] == tables[i].name {
        BindingsOwner(tables, |tables|, p, i);
      }
    }

    /**
     * The inner loop of CachePieceTables, for a table cached for the first
     * time: each listed piece not bound yet is bound to it and its amounts
     * are recorded; earlier bindings stay.
     */
    method BindPieces(table: PieceTable)
      requires originalResourceCache.Keys == pieceToTable.Keys
      requires forall p :: p in originalResourceCache ==> originalResourceCache[p] == Snapshot(p.resources[..])
      modifies this`pieceToTable, this`originalResourceCache
      ensures pieceToTable == Bound(old(pieceToTable), table.pieces, table.name)
      ensures originalResourceCache.Keys == pieceToTable.Keys
      ensures forall p :: p in originalResourceCache ==> originalResourceCache[p] == Snapshot(p.resources[..])
    {
      ghost var bound := pieceToTable;
      for j := 0 to |table.pieces|
        invariant pieceToTable == Bound(bound, table.pieces[..j], table.name)
        invariant originalResourceCache.Keys == pieceToTable.Keys
        invariant forall p :: p in originalResourceCache ==> originalResourceCache[p] == Snapshot(p.resources[..])
      {
        var obj := table.pieces[j];
        assert table.pieces[..j + 1][..j] == table.pieces[..j] && table.pieces[..j + 1][j] == obj;
        assert Bound(bound, table.pieces[..j + 1], table.name)
            == if obj != null && obj !in pieceToTable then pieceToTable[obj := table.name] else pieceToTable;
        if obj != null && obj !in pieceToTable {
          pieceToTable := pieceToTable[obj := table.name];
          var amounts := RecordAmounts(obj);
          originalResourceCache := originalResourceCache[obj := amounts];
        }
      }
      assert table.pieces[..|table.pieces|] == table.pieces;
    }

    /** The inner loop of CachePieceTables: the amounts of one piece, by item name. */
    method RecordAmounts(piece: Piece) returns (amounts: map<string, int>)
      ensures amounts == Snapshot(piece.resources[..])
    {
      amounts := map[];
      for r := 0 to piece.resources.Length
        invariant amounts == Snapshot(piece.resources[..r])
      {
        var req := piece.resources[r];
        assert piece.resources[..r + 1][..r] == piece.resources[..r];
        if req.item.Some? {
          amounts := amounts[req.item.value := req.amount];
        }
      }
      assert piece.resources[..piece.resources.Length] == piece.resources[..];
    }

    /** Every cached piece owns its requirement array (no two share one). */
    ghost predicate OwnArrays()
      reads this`originalResourceCache
    {
      forall p, q :: p in originalResourceCache && q in originalResourceCache && p != q ==> ArrayOf(p) != ArrayOf(q)
    }

    /** The requirement array of a piece; OwnArrays speaks of it through this name only. */
    static ghost function ArrayOf(p: Piece): array<Requirement>
    {
      p.resources
    }

    /**
     * ApplyResourceReductions, run to completion: when a player is present
     * and the reduction is enabled, the cached pieces' arrays end as
     * ReducedContents says and the no-cost flag takes the value of the last
     * write, if there is one. Otherwise nothing changes.
     */
    method ApplyResourceReductions(playerPresent: bool, factor: real)
      requires OwnArrays()
      modifies this`noCost, set p | p in originalResourceCache :: p.resources
      ensures playerPresent && old(enableSkillBasedReduction) ==>
                Contents() == ReducedContents(old(Contents()), originalResourceCache, factor, old(enableFreeBuildAtMaxSkill))
                && noCost == if AnyWrites(old(Contents()), originalResourceCache, factor)
                             then old(enableFreeBuildAtMaxSkill) && factor == 1.0 else old(noCost)
      ensures !(playerPresent && old(enableSkillBasedReduction)) ==> Contents() == old(Contents()) && noCost == old(noCost)
    {
      if !playerPresent || !enableSkillBasedReduction {
        return;
      }
      ReduceCachedPieces(factor, enableFreeBuildAtMaxSkill, set p | p in originalResourceCache :: p.resources);
    }

    /** The contents of every cached piece's requirement array. */
    ghost function Contents(): (c: map<Piece, seq<Requirement>>)
      reads this`originalResourceCache, set p | p in originalResourceCache :: p.resources
      ensures c.Keys == originalResourceCache.Keys
    {
      map p | p in originalResourceCache :: p.resources[..]
    }

    /**
     * The loop of ApplyResourceReductions over the cached pieces, in any
     * order, with the free-build flag read once; arrays holds every cached
     * piece's requirement array.
     */
    method ReduceCachedPieces(factor: real, freeAtMax: bool, ghost arrays: set<array<Requirement>>)
      requires OwnArrays() && forall p :: p in originalResourceCache ==> p.resources in arrays
      modifies this`noCost, arrays
      ensures Contents() == ReducedContents(old(Contents()), originalResourceCache, factor, freeAtMax)
      ensures noCost == if AnyWrites(old(Contents()), originalResourceCache, factor) then freeAtMax && factor == 1.0 else old(noCost)
    {
      ghost var before := Contents();
      ghost var reducible := set p | p in originalResourceCache && Reducible(p);
      ghost var writers := {};
      var todo := originalResourceCache.Keys;
      while todo != {}
        invariant PassedOver(before, Contents(), originalResourceCache, reducible, todo, writers, factor, freeAtMax)
        invariant noCost == if writers != {} then freeAtMax && factor == 1.0 else old(noCost)
        decreases todo
      {
        var piece :| piece in todo;
        writers := ReduceStep(piece, todo, before, reducible, writers, old(noCost), factor, freeAtMax);
        todo := todo - {piece};
      }
      PassedOverContents(before, Contents(), originalResourceCache, reducible, writers, factor, freeAtMax);
      PassedOverWrites(before, Contents(), originalResourceCache, reducible, writers, factor, freeAtMax);
    }

    /** One turn of the loop of ReduceCachedPieces: piece is handled and leaves todo. */
    method ReduceStep(piece: Piece, todo: set<Piece>, ghost before: map<Piece, seq<Requirement>>, ghost reducible: set<Piece>,
                      ghost writers: set<Piece>, ghost noCostBefore: bool, factor: real, freeAtMax: bool)
      returns (ghost writers': set<Piece>)
      requires piece in todo && OwnArrays() && (piece in reducible <==> Reducible(piece))
      requires PassedOver(before, Contents(), originalResourceCache, reducible, todo, writers, factor, freeAtMax)
      requires noCost == if writers != {} then freeAtMax && factor == 1.0 else noCostBefore
      modifies this`noCost, piece.resources
      ensures PassedOver(before, Contents(), originalResourceCache, reducible, todo - {piece}, writers', factor, freeAtMax)
      ensures noCost == if writers' != {} then freeAtMax && factor == 1.0 else noCostBefore
    {
      ghost var now, slots := Contents(), piece.resources[..];
      var wrote := ReduceEntry(piece, factor, freeAtMax);
      PassedOverStep(before, now, Contents(), originalResourceCache, reducible, todo, writers, piece, slots, wrote,
                     factor, freeAtMax);
      writers' := writers;
      if wrote {
        writers' := writers + {piece};
        assert piece in writers';
      }
    }

    /** One step of ApplyResourceReductions: the slots of one cached piece, unless it is a stack or pile. */
    method ReduceEntry(piece: Piece, factor: real, freeAtMax: bool) returns (wrote: bool)
      requires piece in originalResourceCache
      requires forall p :: p in originalResourceCache && p != piece ==> ArrayOf(p) != ArrayOf(piece)
      modifies this`noCost, piece.resources
      ensures Contents() == old(Contents())[piece :=
        if Reducible(piece)
        then ReduceAll(old(piece.resources[..]), originalResourceCache[piece], factor, freeAtMax)
        else old(piece.resources[..])]
      ensures wrote == (Reducible(piece) && WritesAny(old(piece.resources[..]), originalResourceCache[piece], factor))
      ensures noCost == if wrote then freeAtMax && factor == 1.0 else old(noCost)
    {
      wrote := false;
      if !Reducible(piece) {
        return;
      }
      wrote := ReducePiece(piece, originalResourceCache[piece], factor, freeAtMax);
      forall p | p in originalResourceCache && p != piece ensures p.resources[..] == old(p.resources[..]) {
        assert ArrayOf(p) != ArrayOf(piece);
      }
    }

    /** The inner loop of ApplyResourceReductions: the slots of one piece. */
    method ReducePiece(piece: Piece, originals: map<string, int>, factor: real, freeAtMax: bool) returns (wrote: bool)
      modifies this`noCost, piece.resources
      ensures piece.resources[..] == ReduceAll(old(piece.resources[..]), originals, factor, freeAtMax)
      ensures wrote == WritesAny(old(piece.resources[..]), originals, factor)
      ensures noCost == if wrote then freeAtMax && factor == 1.0 else old(noCost)
    {
      wrote := false;
      ghost var before := piece.resources[..];
      for j := 0 to piece.resources.Length
        invariant forall k :: 0 <= k < j ==> piece.resources[k] == Reduce(before[k], originals, factor, freeAtMax)
        invariant forall k :: j <= k < piece.resources.Length ==> piece.resources[k] == before[k]
        invariant wrote == WritesAny(before[..j], originals, factor)
        invariant noCost == if wrote then freeAtMax && factor == 1.0 else old(noCost)
      {
        var req := piece.resources[j];
        assert req == before[j];
        assert before[..j + 1] == before[..j] + [req];
        if req.item.None? {
          assert Reduce(req, originals, factor, freeAtMax) == req;
          continue;
        }
        if req.item.value in originals {
          var original := originals[req.item.value];
          var reduced := Target(original, factor);
          if !(req.amount == reduced || req.amount == 1) {
            var amount := if reduced >= 1 then reduced else 1;
            if freeAtMax && factor == 1.0 {
              noCost := true;
              amount := 1;
            } else {
              noCost := false;
            }
            assert amount == Written(original, factor, freeAtMax);
            piece.resources[j] := req.(amount := amount);
            wrote := true;
          }
        }
        assert piece.resources[j] == Reduce(req, originals, factor, freeAtMax);
      }
      assert before[..piece.resources.Length] == before;
      ReduceAllPointwise(before, piece.resources[..], originals, factor, freeAtMax);
    }

    /**
     * The ConsumeResources prefix: the first slot with an item decides. The
     * game's consumption is skipped when a piece is selected and the policy
     * frees it, or when the no-cost flag is set.
     */
    method ConsumeResourcesPrefix(requirements: seq<Requirement>, selected: Piece?) returns (runOriginal: bool)
      modifies this`lastPiece, this`lastChecked
      ensures !(exists i :: 0 <= i < |requirements| && requirements[i].item.Some?) ==>
                runOriginal && MemoState() == old(MemoState())
      ensures (exists i :: 0 <= i < |requirements| && requirements[i].item.Some?) && selected == null ==>
                runOriginal == !noCost && MemoState() == old(MemoState())
      ensures (exists i :: 0 <= i < |requirements| && requirements[i].item.Some?) && selected != null ==>
                var (needs, memo) := Lookup(old(MemoState()), selected.name, PolicyFor(selected));
                runOriginal == (needs && !noCost) && MemoState() == memo
    {
      for i := 0 to |requirements|
        invariant !(exists k :: 0 <= k < i && requirements[k].item.Some?) || selected == null ==>
                    MemoState() == old(MemoState())
        invariant (exists k :: 0 <= k < i && requirements[k].item.Some?) ==>
                    !noCost && (selected != null ==>
                      Lookup(old(MemoState()), selected.name, PolicyFor(selected)) == (true, MemoState()))
      {
        if requirements[i].item.None? {
          continue;
        }
        if selected != null {
          var needs := ShouldRequireResources(selected);
          if !needs {
            return false;
          }
        }
        if noCost {
          return false;
        }
      }
      return true;
    }

    /**
     * The HaveRequirements prefix: a missing station or DLC answers false
     * before the policy is consulted; in every mode but IsKnown a piece the
     * policy frees, the no-cost flag or the piece's free-build key answers
     * true; otherwise the game's own check runs.
     */
    method HaveRequirementsPrefix(piece: Piece, mode: RequirementMode, host: HostView) returns (v: Verdict)
      modifies this`lastPiece, this`lastChecked
      ensures StationBlocks(piece.craftingStation, mode, host) || DlcBlocks(piece.dlc, host) ==>
                v == Answer(false) && MemoState() == old(MemoState())
      ensures !StationBlocks(piece.craftingStation, mode, host) && !DlcBlocks(piece.dlc, host) && mode == IsKnown ==>
                v == RunOriginal && MemoState() == old(MemoState())
      ensures !StationBlocks(piece.craftingStation, mode, host) && !DlcBlocks(piece.dlc, host) && mode != IsKnown ==>
                var (needs, memo) := Lookup(old(MemoState()), piece.name, PolicyFor(piece));
                MemoState() == memo && v == if !needs || noCost || host.freeBuildKey then Answer(true) else RunOriginal
    {
      if piece.craftingStation.Some? {
        if mode == IsKnown || mode == CanAlmostBuild {
          if piece.craftingStation.value !in host.knownStations {
            return Answer(false);
          }
        } else if !host.stationInRange && !host.noWorkbenchKey {
          return Answer(false);
        }
      }
      if |piece.dlc| > 0 && !host.dlcInstalled {
        return Answer(false);
      }
      if mode != IsKnown {
        var needs := ShouldRequireResources(piece);
        if !needs || noCost || host.freeBuildKey {
          return Answer(true);
        }
      }
      return RunOriginal;
    }

    /** The DropResources prefix: the game drops the materials only when the policy requires them. */
    method DropResourcesPrefix(piece: Piece) returns (runOriginal: bool)
      modifies this`lastPiece, this`lastChecked
      ensures (runOriginal, MemoState()) == Lookup(old(MemoState()), piece.name, PolicyFor(piece))
    {
      var needs := ShouldRequireResources(piece);
      if !needs {
        return false;
      }
      return true;
    }
  }
}
