# Build resource requirements — a verified model

BuildResourceRequirements is a Valheim mod. It decides, piece by piece,
whether building requires resources. It also lowers the resource cost of
every cached piece as the player's crafting skill grows. This project
models the mod's decision and state-update layer in Dafny and proves what
that layer promises. The layer has these parts:

- **the policy query.** `ShouldRequireResources` answers first match wins:
  - a piece whose normalised name is an exception is free;
  - a piece from the cultivator or hoe table follows that tool's flag;
  - otherwise the piece follows its category flag;
  - otherwise resources are required.

  A one-entry memo, keyed by the raw object name, sits in front of it.
- **the exception list.** The configuration string is split on commas, each
  field is trimmed, and blank fields are dropped.
- **category discovery.** Each category the piece tables show that is new
  and not blacklisted gets a flag whose default is "requires resources".
- **the piece-table snapshot.** The first table of each name is cached, and
  each piece is bound to the first cached table that lists it. The piece's
  original resource amounts are recorded at that point.
- **the reduction pass.** It rewrites each cached piece's requirement array
  in place to `max(ceil(original * (1 - f)), 1)`. A skip rule leaves slots
  already at the target or at 1. A free-build rule writes 1 at full skill
  and sets the no-cost flag; every other write clears it.

  The no-cost flag changes only when a slot is written. Levelling from 99
  to 100 runs a pass at factor 0.99 first, which already brings every
  amount of at most 100 down to 1 and clears the flag. The pass at full
  skill then finds nothing to write, so the flag stays false until the
  original amounts are restored (`FreeBuildAfterLevelling`).
- **the intercepted game methods.** Prefixes of `ConsumeResources`,
  `HaveRequirements` and `DropResources` consult the policy. A filter
  decides which skill events start a reduction pass.

Modules:

- `Wrappers`: `Option`.
- `Text`: the .NET string operations the mod uses, and name normalisation.
- `Pieces`: pieces, requirements and piece tables, plus the snapshot and
  binding functions.
- `Policy`: exceptions, resolution, the memo and discovery.
- `Reduction`: the per-slot and whole-pass reduction.
- `Hooks`: host views and skill events.
- `Mod`: the `BuildResourcesMod` class.

The mod's fields are fields of that class. The pieces are objects whose
requirement arrays the pass updates in place. The methods are proved
against specification functions:

- `ExceptionSet`, `Discover`, `Cached`, `Bindings`, `Bound` and `Snapshot`
  for the parsing, discovery and snapshot methods;
- `Lookup` and `Resolve` for the memoised query;
- `Reduce`, `ReduceAll` and `ReducedContents` for the reduction pass.

Those functions' properties are proved as lemmas.

## Model

| member | source | states |
|---|---|---|
| Text.TrimStart | BuildResourceRequirements.cs:165 | String.TrimStart never lengthens its input |
| Text.TrimStartSpec | BuildResourceRequirements.cs:165 | TrimStart returns a suffix, drops only white space, and stops at a non-white-space character |
| Text.TrimEnd | BuildResourceRequirements.cs:165 | String.TrimEnd never lengthens its input |
| Text.TrimEndSpec | BuildResourceRequirements.cs:165 | TrimEnd returns a prefix, drops only white space, and stops at a non-white-space character |
| Text.Trim | BuildResourceRequirements.cs:165 | String.Trim never lengthens its input |
| Text.TrimShape | BuildResourceRequirements.cs:165 | neither end of a trimmed string is white space |
| Text.TrimSlice | BuildResourceRequirements.cs:165 | Trim keeps one contiguous slice, with only white space on either side of it |
| Text.TrimOfTrimmed | BuildResourceRequirements.cs:165 | a string with no padding is its own trim |
| Text.TrimIdempotent | BuildResourceRequirements.cs:165 | trimming twice is trimming once |
| Text.TrimEmptyIff | BuildResourceRequirements.cs:157-166 | Trim yields "" exactly for all-white-space input (both directions) |
| Text.TrimKeepsCharsOf | BuildResourceRequirements.cs:165 | every character Trim keeps was in its input |
| Text.LowerChar | BuildResourceRequirements.cs:410 | lower-casing a character yields no upper-case letter and changes only upper-case letters |
| Text.ToLower | BuildResourceRequirements.cs:410 | ToLowerInvariant keeps the length and leaves no upper-case letter |
| Text.ToLowerOfLower | BuildResourceRequirements.cs:410 | a string without upper-case letters is its own lower-case form |
| Text.ToLowerEqualsIff | BuildResourceRequirements.cs:655 | comparing s.ToLower() with a lower-case literal is a case-insensitive comparison (both directions) |
| Text.RemoveAll | BuildResourceRequirements.cs:410 | Replace(pattern, "") never lengthens its input |
| Text.RemoveAllNoMatch | BuildResourceRequirements.cs:410 | a pattern holding an upper-case letter is never found in a string without one |
| Text.RemoveCloneSuffix | BuildResourceRequirements.cs:342 | removing "(Clone)" from a lower-case name followed by "(Clone)" gives the name back |
| Text.Normalise | BuildResourceRequirements.cs:342 | the lookup key `name.Replace("(Clone)", "").Trim().ToLowerInvariant()` is never longer than the name |
| Text.NormaliseOfPlain | BuildResourceRequirements.cs:410 | a lower-case unpadded name without "(Clone)" is its own normal form |
| Text.NormaliseOfClone | BuildResourceRequirements.cs:342 | a clone of a prefab with a plain lower-case name normalises to the prefab's name |
| Text.NormaliseShape | BuildResourceRequirements.cs:410 | a normalised name has no upper-case letter and no padding at either end |
| Text.LowerKeepsTrimmed | BuildResourceRequirements.cs:410 | lower-casing keeps a trimmed string trimmed |
| Text.NormaliseIdempotent | BuildResourceRequirements.cs:410 | normalising twice is normalising once |
| Text.IndexOf | BuildResourceRequirements.cs:162 | the position found holds the separator, with no separator before it |
| Text.Split | BuildResourceRequirements.cs:162 | Split(',') gives at least one field, and no field holds the separator |
| Text.JoinSplit | BuildResourceRequirements.cs:162 | joining the fields of a split with the separator gives the string back |
| Text.SplitJoin | BuildResourceRequirements.cs:162 | splitting separator-free fields joined by the separator gives the fields back |
| Text.SplitKeepsCharsOf | BuildResourceRequirements.cs:162 | every character of every field comes from the split string |
| Pieces.Snapshot | BuildResourceRequirements.cs:200-207 | every amount the snapshot records for an item is the amount of some slot naming that item |
| Pieces.SnapshotKeys | BuildResourceRequirements.cs:200-207 | the snapshot has an entry for an item exactly when some slot with a non-null item names it |
| Pieces.SnapshotLastWins | BuildResourceRequirements.cs:200-207 | the amount recorded for an item is the one in the last slot naming it |
| Pieces.Flatten | BuildResourceRequirements.cs:244-246 | the scanned objects are exactly the objects the tables list: every listed one is scanned, and every scanned one is listed by some table |
| Pieces.CategoriesInAppend | BuildResourceRequirements.cs:246-253 | scanning one more object adds its category, or nothing when it is null |
| Pieces.NamesUpToIs | BuildResourceRequirements.cs:184 | the names of the first n tables are exactly those tables' names |
| Pieces.FirstOfNameIs | BuildResourceRequirements.cs:184 | a table is the first of its name exactly when no earlier table carries that name (both directions) |
| Pieces.BoundAt | BuildResourceRequirements.cs:189-196 | binding a table's objects binds exactly the old and the listed pieces, keeps old bindings, and binds new pieces to that table |
| Pieces.CachedKeys | BuildResourceRequirements.cs:182-186 | the table cache holds one entry per table name |
| Pieces.CachedFirst | BuildResourceRequirements.cs:184 | a table is cached when reached exactly when it is the first of its name |
| Pieces.CachedFirstValue | BuildResourceRequirements.cs:182-186 | each name is cached with the first table carrying it |
| Pieces.BindingsKeys | BuildResourceRequirements.cs:182-196 | the pieces bound are exactly those some cached table lists |
| Pieces.ListedBeforeLast | BuildResourceRequirements.cs:182-196 | going past a table lists a piece exactly when it was listed already, or the table is cached and lists it |
| Pieces.BindingsOwner | BuildResourceRequirements.cs:189-196 | each piece is bound to the first cached table that lists it |
| Policy.ExceptionSet | BuildResourceRequirements.cs:162-170 | no exception entry is empty, padded or holds a comma |
| Policy.ExceptionSetOfBlank | BuildResourceRequirements.cs:157-170 | a blank or all-white-space configuration gives no exceptions |
| Policy.ExceptionSetOfJoined | BuildResourceRequirements.cs:162-170 | a comma-joined list parses to its fields, trimmed, blanks dropped |
| Policy.Resolve | BuildResourceRequirements.cs:410-460 | a piece whose normalised name is an exception never requires resources; without an exception hit, "free" needs some flag set to false |
| Policy.ResolveToolTable | BuildResourceRequirements.cs:422-445 | a cultivator or hoe piece whose tool flag exists follows that flag, whatever its category says |
| Policy.ResolveToolTableWithoutFlag | BuildResourceRequirements.cs:422-449 | a tool-table piece without its tool flag is resolved as if it were in no table |
| Policy.ResolveCategory | BuildResourceRequirements.cs:447-460 | otherwise the category flag decides, and a category without a flag requires resources |
| Policy.UpperCaseExceptionInert | BuildResourceRequirements.cs:165-168 | an exception entry with an upper-case letter never changes any answer |
| Policy.Lookup | BuildResourceRequirements.cs:397-460 | a memo hit returns the stored answer; a miss returns the policy's answer; the memo ends holding the raw name and the answer |
| Policy.LookupRepeat | BuildResourceRequirements.cs:397-400 | a repeated query gives the same answer and memo, whatever the policy says by then |
| Policy.LookupStale | BuildResourceRequirements.cs:397-419 | a piece asked about before it became an exception still requires resources |
| Policy.Discover | BuildResourceRequirements.cs:244-287 | discovery keeps every flag and adds exactly the seen non-blacklisted new categories, each with the default value true |
| Policy.DiscoverStep | BuildResourceRequirements.cs:255-287 | seeing one more category adds a true flag exactly when it is new and not blacklisted |
| Policy.DiscoverIdempotent | BuildResourceRequirements.cs:272-287 | a second scan of the same categories changes nothing |
| Policy.DiscoverSkipsBlacklist | BuildResourceRequirements.cs:262-266 | a blacklisted category is configured afterwards exactly when it was before |
| Policy.DiscoverNewCategory | BuildResourceRequirements.cs:272-286 | a new modded category gets a flag that requires resources |
| Reduction.Ceil | BuildResourceRequirements.cs:356 | CeilToInt gives the least integer not below its argument |
| Reduction.CeilOfInt | BuildResourceRequirements.cs:356 | the ceiling of an integer is itself |
| Reduction.CeilMonotone | BuildResourceRequirements.cs:356 | the ceiling is monotone |
| Reduction.Target | BuildResourceRequirements.cs:356 | the target is the least integer not below original * (1 - factor) |
| Reduction.TargetMonotone | BuildResourceRequirements.cs:356 | a higher skill factor never gives a higher target |
| Reduction.TargetBounds | BuildResourceRequirements.cs:356 | for a factor in [0, 1] the target lies between 0 and the original |
| Reduction.TargetExample | BuildResourceRequirements.cs:356 | 10 of an item at skill factor 0.3 costs 7 |
| Reduction.Written | BuildResourceRequirements.cs:360-370 | a written amount is at least 1; it is 1 for a free build at full skill; otherwise it is the target when the target is at least 1, and 1 when the target is below 1 |
| Reduction.WrittenMonotone | BuildResourceRequirements.cs:356-366 | a higher skill factor never gives a higher written amount |
| Reduction.WrittenBounds | BuildResourceRequirements.cs:356-366 | for a factor in [0, 1] a written amount lies between 1 and the original |
| Reduction.ReduceAll | BuildResourceRequirements.cs:349-375 | the pass keeps the number of slots of a piece |
| Reduction.ReduceAllPointwise | BuildResourceRequirements.cs:349-375 | a sequence is the reduced piece exactly when each of its slots is the reduced slot (both directions) |
| Reduction.WritesAnyIff | BuildResourceRequirements.cs:349-375 | the pass writes some slot of a piece exactly when there is a slot it writes |
| Reduction.Reduce | BuildResourceRequirements.cs:351-375 | the pass keeps the item and writes exactly the snapshot slots that are neither at the target nor at 1, each with an amount of at least 1; every other slot is untouched |
| Reduction.OneIsSticky | BuildResourceRequirements.cs:357 | an amount of 1 is never written again, whatever the factor |
| Reduction.OneIsStickyExample | BuildResourceRequirements.cs:356-366 | wood brought to 1 by a free build stays at 1 when the skill drops to 0, though its target is then 10 |
| Reduction.FreeBuildNeverUndone | BuildResourceRequirements.cs:356-370 | a slot that held its snapshot amount is not written again by any later pass after a free build at full skill, at any skill factor (other slots of the piece naming the same item can still be written) |
| Reduction.LevelledSlotNotWrittenAtMax | BuildResourceRequirements.cs:356-370 | after a pass at factor 0.99, a slot whose snapshot amount is between 1 and 100 holds 1, so the pass at full skill does not write it |
| Reduction.FreeBuildAfterLevelling | BuildResourceRequirements.cs:336-384 | when every snapshot amount is between 1 and 100, the pass at full skill after a pass at 0.99 writes no slot, so the free-build rule never sets the no-cost flag |
| Reduction.ReduceIdempotent | BuildResourceRequirements.cs:353-366 | a second pass with the same factor leaves a slot as it is and writes nothing (no compounding) |
| Reduction.FreeBuildCollapse | BuildResourceRequirements.cs:356-366 | at full skill with free build, every snapshot slot ends at 1, except one at 0, which stays at 0 |
| Reduction.AllOnesNeverWritten | BuildResourceRequirements.cs:357 | a piece whose slots are all at 1 is never written, whatever the free-build flag |
| Reduction.ReduceAllIdempotent | BuildResourceRequirements.cs:349-375 | reducing a piece twice with the same factor is reducing it once, and the second time writes nothing |
| Reduction.PassedOverStep | BuildResourceRequirements.cs:336-375 | handling one more cached piece keeps the record of the pass so far |
| Reduction.ReducedContents | BuildResourceRequirements.cs:336-384 | a whole pass keeps the set of cached pieces and each piece's slot count, and leaves piles, stacks and pieces without a snapshot as they were |
| Reduction.PassedOverContents | BuildResourceRequirements.cs:336-384 | a pass over every cached piece leaves exactly the reduced contents |
| Reduction.PassedOverWrites | BuildResourceRequirements.cs:336-384 | a pass over every cached piece writes some slot exactly when some reducible piece has a slot to write |
| Reduction.PassIdempotent | BuildResourceRequirements.cs:336-384 | a second full pass with the same factor changes no array and writes nothing, so the no-cost flag keeps its value |
| Reduction.NonReduciblePlain | BuildResourceRequirements.cs:312-327 | every listed stack or pile name is lower-case and unpadded, so it can match a normalised name |
| Reduction.PilesAndStacksNotReducible | BuildResourceRequirements.cs:312-347 | every listed stack or pile is skipped by the pass, under its prefab name and as an instantiated clone |
| Hooks.TriggersReduction | BuildResourceRequirements.cs:621-678 | a crafting level-up, every lowering of all skills, and a console raise or reset naming "all" or "crafting" in any letter case start a pass; nothing else does |
| Mod.BuildResourcesMod.constructor | BuildResourceRequirements.cs:58-84 | start-up binds the default category flags, turns the reduction off, turns free build on, and leaves the exception list, memo and snapshot empty |
| Mod.BuildResourcesMod.ShouldRequireResources | BuildResourceRequirements.cs:395-461 | the answer and the new memo are Lookup's, over the policy resolved in the current state; no other field changes |
| Mod.BuildResourcesMod.ParseExceptions | BuildResourceRequirements.cs:153-173 | the exception set is rebuilt from scratch as ExceptionSet of the configuration string, so a second run gives the same set |
| Mod.BuildResourcesMod.HandleCategories | BuildResourceRequirements.cs:224-304 | the flags end as Discover of the old flags over the categories of every scanned piece |
| Mod.BuildResourcesMod.CachePieceTables | BuildResourceRequirements.cs:176-221 | the cache holds one table per name (the first of it); the bound pieces are exactly those a cached table lists, each bound to its first such table; each bound piece's snapshot records its slots' amounts |
| Mod.BuildResourcesMod.BindPieces | BuildResourceRequirements.cs:189-213 | the bindings grow as Bound says, and the snapshot keeps one entry per bound piece |
| Mod.BuildResourcesMod.RecordAmounts | BuildResourceRequirements.cs:200-207 | the amounts recorded are the snapshot of the piece's slots |
| Mod.BuildResourcesMod.Contents | BuildResourceRequirements.cs:336 | the array contents are tracked for exactly the cached pieces |
| Mod.BuildResourcesMod.ApplyResourceReductions | BuildResourceRequirements.cs:307-391 | with a player and the toggle on, the arrays end as ReducedContents and the no-cost flag takes the value of the last write, if any; otherwise nothing changes |
| Mod.BuildResourcesMod.ReduceCachedPieces | BuildResourceRequirements.cs:336-384 | the loop over the cached pieces, in any order, yields ReducedContents and sets the no-cost flag exactly when some slot is written |
| Mod.BuildResourcesMod.ReduceStep | BuildResourceRequirements.cs:336-384 | one turn of that loop keeps the record of the pass so far |
| Mod.BuildResourcesMod.ReduceEntry | BuildResourceRequirements.cs:338-375 | one cached piece is rewritten when it is reducible and left alone when it is a pile or stack; no other array changes |
| Mod.BuildResourcesMod.ReducePiece | BuildResourceRequirements.cs:349-375 | the piece's array ends as ReduceAll of its old contents; the no-cost flag is set by the last write, and only when there is one |
| Mod.BuildResourcesMod.ConsumeResourcesPrefix | BuildResourceRequirements.cs:469-493 | with no non-null item the game consumes; otherwise consumption is skipped exactly when the selected piece is free or the no-cost flag is set, and the memo is touched only through the policy query |
| Mod.BuildResourcesMod.HaveRequirementsPrefix | BuildResourceRequirements.cs:502-549 | a blocked station or DLC answers false before the policy is asked; IsKnown runs the game's check; other modes answer true for a free piece, the no-cost flag or the free-build key |
| Mod.BuildResourcesMod.DropResourcesPrefix | BuildResourceRequirements.cs:557-571 | the game drops the materials exactly when the policy (through the memo) requires resources |

## Left out

- Plugin plumbing is not modelled: the BepInEx plugin class, Harmony registration, `Config.Bind`, ServerSync replication and the logging helpers. Configuration values are plain fields of the class.
- The coroutines `WaitForGameLoad` and `WaitForConfigSync` are not modelled; they only decide when the modelled operations run.
- The reduction pass yields to the game after every 5 pieces it reduces; skipped piles and stacks are not counted (`processedCount` at BuildResourceRequirements.cs:377 is reached only after the `continue` at :346). The model runs each pass to completion, with the configuration fixed during it. Overlapping passes are a scheduling matter and are not modelled.
- Dictionary iteration order is not modelled. The pass visits the cached pieces in any order, and its final state does not depend on that order.
- Floating point is not modelled. The skill factor is a `real`, `Mathf.CeilToInt` is the exact ceiling, and `Mathf.Approximately(f, 1)` is `f == 1.0`.
- Host queries become parameters: the skill factor, player presence, the selected piece, the known stations, station range, global keys and DLC installation.
- `Resources.FindObjectsOfTypeAll<PieceTable>()` becomes a sequence of tables. An object without a `Piece` component is modelled as a null entry, which every scan skips in the same way.
- The unreachable null-piece branch of `ShouldRequireResources` is not modelled: `piece.name` is read before the null test.
- The `BuildResourcesMod.Instance == null` guards of the patches are not modelled; the model has one mod object.
- The HUD postfix `SetupPieceInfo` is one more caller of the memoised query: for each slot with an item, while the no-cost flag is unset, it calls `ShouldRequireResources(piece)` (BuildResourceRequirements.cs:604), and each memo miss moves `LastPiece` and `LastChecked`. The model covers those calls as `ShouldRequireResources` calls; the colours, text and icons it sets are not modelled.
- The localisation lookup for the description of a new category flag is not modelled; it only changes a description text.
- Text.LowerChar: maps A-Z only; char.ToLowerInvariant also maps letters outside A-Z (accented Latin, Greek, Cyrillic and others).
- Text.ToLower: lower-cases the ASCII letters only; .NET's invariant culture also maps other letters.
- Hooks.TriggersReduction: the console filter is modelled with invariant ASCII casing. The source calls `name.ToLower()` (BuildResourceRequirements.cs:655, :672), which follows the current culture; under a Turkish culture "CRAFTING" lower-cases to "craftıng" with a dotless ı and starts no pass. Culture-dependent casing is not modelled.
- Policy.Discover: a new category flag is bound with `Config.Bind(..., true, ...)` (BuildResourceRequirements.cs:279-285), which returns the value already saved in the configuration file when there is one. The model gives the new flag the default `true`; a saved value for that flag is not modelled.
- Mod.BuildResourcesMod.constructor: the same holds for the flags bound at start-up (BuildResourceRequirements.cs:65-77). The model starts from the defaults written in the source; values saved in the configuration file or synchronised from a server are not modelled.
- Mod.BuildResourcesMod.ApplyResourceReductions: requires that no two cached pieces share a requirement array (`OwnArrays`). Each game piece owns its array, so the model takes this as given rather than tracking aliasing. `Piece.Requirement` is a class in the game (the pass assigns `req.m_amount` through the loop variable at BuildResourceRequirements.cs:360 and :365), but the model makes a requirement a value held in the piece's array. A requirement object shared by two slots or by two pieces, where one write would show in both places, is therefore not modelled.
- Mod.BuildResourcesMod.ShouldRequireResources: the memo is keyed by the object name, exactly as in the source, and is modelled with its staleness rather than corrected (see `Policy.LookupStale`).
