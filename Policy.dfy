/**
 * The "does this piece require resources?" policy: the exception list parsed
 * from its configuration string, the per-category flags and their discovery,
 * the first-match-wins resolution, and the one-entry memo in front of it.
 */
module Policy {
  import opened Wrappers
  import opened Text

  /** Table names whose pieces follow the tool flags instead of their category. */
  const CultivatorTable: string := "_CultivatorPieceTable"
  const HoeTable: string := "_HoePieceTable"
  const CultivatorFlag: string := "Cultivator"
  const HoeFlag: string := "Hoe"

  /** The category flags bound at start-up, with their default values. */
  const DefaultCategoryConfigs: map<string, bool> := map[
    "Misc" := true, "Crafting" := true, "Furniture" := false,
    "BuildingWorkbench" := false, "BuildingStonecutter" := false,
    CultivatorFlag := true, HoeFlag := true]

  /** Categories the discovery scan never creates a flag for. */
  const Blacklist: set<string> := {
    "Misc", "Crafting", "Furniture", "BuildingWorkbench", "BuildingStonecutter",
    "All", "Meads", "Feasts", "Food"}

  // ---------------------------------------------------------------- exceptions

  /**
   * The exception set a configuration string yields: its comma-separated
   * fields, trimmed, the empty ones dropped. Entries keep their case.
   */
  function ExceptionSet(config: string): (r: set<string>)
    ensures forall e :: e in r ==> e != [] && Trim(e) == e && ',' !in e
  {
    var fields := Split(config, ',');
    forall f | f in fields ensures Trim(Trim(f)) == Trim(f) && (',' in Trim(f) ==> ',' in f) {
      TrimIdempotent(f);
      if ',' in Trim(f) { TrimKeepsCharsOf(f, ','); }
    }
    set f | f in fields && Trim(f) != [] :: Trim(f)
  }

  /** A blank or all-white-space configuration string gives no exceptions. */
  lemma ExceptionSetOfBlank(config: string)
    requires AllWhiteSpace(config)
    ensures ExceptionSet(config) == {}
  {
    var fields := Split(config, ',');
    forall k | 0 <= k < |fields| ensures Trim(fields[k]) == [] {
      forall i | 0 <= i < |fields[k]| ensures IsWhiteSpace(fields[k][i]) {
        SplitKeepsCharsOf(config, ',', k, fields[k][i]);
      }
      TrimEmptyIff(fields[k]);
    }
  }

  /** A list written out as comma-joined fields parses back to those fields, trimmed, blanks dropped. */
  lemma ExceptionSetOfJoined(fields: seq<string>)
    requires |fields| >= 1
    requires forall i :: 0 <= i < |fields| ==> ',' !in fields[i]
    ensures ExceptionSet(Join(fields, ',')) == set f | f in fields && Trim(f) != [] :: Trim(f)
  {
    SplitJoin(fields, ',');
  }

  // ---------------------------------------------------------------- resolution

  /**
   * The policy without its memo, first match wins: an exception (looked up
   * by normalised name) never requires resources; a piece from the
   * cultivator or hoe table follows that tool's flag when the flag exists;
   * otherwise the piece's category flag; otherwise resources are required.
   * Fail-safe: without an exception hit, "free" needs some flag set to false.
   */
  function Resolve(name: string, category: string, table: Option<string>,
                   exceptions: set<string>, configs: map<string, bool>): (required: bool)
    ensures Normalise(name) in exceptions ==> !required
    ensures !required ==> Normalise(name) in exceptions || false in configs.Values
  {
    if Normalise(name) in exceptions then false
    else if table == Some(CultivatorTable) && CultivatorFlag in configs then configs[CultivatorFlag]
    else if table == Some(HoeTable) && HoeFlag in configs then configs[HoeFlag]
    else if category in configs then configs[category]
    else true
  }

  /** A tool-table piece follows the tool flag, whatever its category's flag says. */
  lemma ResolveToolTable(name: string, category: string, table: Option<string>,
                         exceptions: set<string>, configs: map<string, bool>)
    requires Normalise(name) !in exceptions
    requires (table == Some(CultivatorTable) && CultivatorFlag in configs)
          || (table == Some(HoeTable) && HoeFlag in configs)
    ensures Resolve(name, category, table, exceptions, configs)
         == configs[if table == Some(CultivatorTable) then CultivatorFlag else HoeFlag]
  {
  }

  /** Without its flag, a tool-table piece is resolved as if it were in no table. */
  lemma ResolveToolTableWithoutFlag(name: string, category: string, table: Option<string>,
                                    exceptions: set<string>, configs: map<string, bool>)
    requires (table == Some(CultivatorTable) && CultivatorFlag !in configs)
          || (table == Some(HoeTable) && HoeFlag !in configs)
    ensures Resolve(name, category, table, exceptions, configs)
         == Resolve(name, category, None, exceptions, configs)
  {
  }

  lemma ResolveCategory(name: string, category: string, table: Option<string>,
                        exceptions: set<string>, configs: map<string, bool>)
    requires Normalise(name) !in exceptions
    requires table != Some(CultivatorTable) || CultivatorFlag !in configs
    requires table != Some(HoeTable) || HoeFlag !in configs
    ensures Resolve(name, category, table, exceptions, configs)
         == (if category in configs then configs[category] else true)
  {
  }

  /**
   * An exception entry holding an upper-case letter is never matched: the
   * lookup key is lower-cased but the entries are not.
   */
  lemma UpperCaseExceptionInert(e: string, name: string, category: string, table: Option<string>,
                                exceptions: set<string>, configs: map<string, bool>)
    requires !NoUpper(e)
    ensures Resolve(name, category, table, exceptions, configs)
         == Resolve(name, category, table, exceptions - {e}, configs)
  {
  }

  // ---------------------------------------------------------------- memo

  /** The one-entry memo: the raw name of the last piece resolved and its answer. */
  datatype Memo = Memo(lastPiece: Option<string>, lastChecked: bool)

  /**
   * A query for the piece called name, whose policy answer now is resolved:
   * a hit on the memo's name returns the stored answer and keeps the memo; a
   * miss returns resolved and stores it.
   */
  function Lookup(m: Memo, name: string, resolved: bool): (res: (bool, Memo))
    ensures res.1 == Memo(Some(name), res.0)
    ensures m.lastPiece == Some(name) ==> res.0 == m.lastChecked
    ensures m.lastPiece != Some(name) ==> res.0 == resolved
  {
    if m.lastPiece == Some(name) then (m.lastChecked, m) else (resolved, Memo(Some(name), resolved))
  }

  /**
   * Asking twice for the same name gives the same answer and memo, whatever
   * the policy says by the second time.
   */
  lemma LookupRepeat(m: Memo, name: string, first: bool, second: bool)
    ensures Lookup(Lookup(m, name, first).1, name, second) == Lookup(m, name, first)
  {
  }

  /**
   * The memo is stale: a piece resolved before it was put on the exception
   * list still requires resources when it is asked about again.
   */
  lemma LookupStale()
    ensures var m := Lookup(Memo(None, false), "wood_wall", Resolve("wood_wall", "Misc", None, {}, DefaultCategoryConfigs)).1;
            Lookup(m, "wood_wall", Resolve("wood_wall", "Misc", None, {"wood_wall"}, DefaultCategoryConfigs)).0
            && !Resolve("wood_wall", "Misc", None, {"wood_wall"}, DefaultCategoryConfigs)
  {
    assert Normalise("wood_wall") == "wood_wall" by {
      assert NoUpper("wood_wall");
      NormaliseOfPlain("wood_wall");
    }
  }

  // ---------------------------------------------------------------- discovery

  /**
   * The category flags after a discovery scan that saw the categories seen:
   * every flag kept as it was, and a new flag set to true for each seen
   * category that is neither blacklisted nor already configured.
   */
  function Discover(configs: map<string, bool>, seen: set<string>): (r: map<string, bool>)
    ensures r.Keys == configs.Keys + (seen - Blacklist)
    ensures forall c :: c in configs ==> r[c] == configs[c]
    ensures forall c :: c in r && c !in configs ==> r[c]
  {
    map c | c in configs.Keys + (seen - Blacklist) :: if c in configs then configs[c] else true
  }

  /** Seeing one more category adds a true flag for it exactly when it is new and not blacklisted. */
  lemma DiscoverStep(configs: map<string, bool>, seen: set<string>, c: string)
    ensures Discover(configs, seen + {c})
         == if c in Blacklist || c in Discover(configs, seen) then Discover(configs, seen)
            else Discover(configs, seen)[c := true]
  {
  }

  /** Scanning the same categories again changes nothing. */
  lemma DiscoverIdempotent(configs: map<string, bool>, seen: set<string>)
    ensures Discover(Discover(configs, seen), seen) == Discover(configs, seen)
  {
  }

  /** A blacklisted category is configured afterwards exactly when it was before. */
  lemma DiscoverSkipsBlacklist(configs: map<string, bool>, seen: set<string>, c: string)
    requires c in Blacklist
    ensures c in Discover(configs, seen) <==> c in configs
  {
  }

  /** A newly seen category, say "ModdedDecor", gets a flag that requires resources. */
  lemma DiscoverNewCategory()
    ensures var r := Discover(DefaultCategoryConfigs, {"ModdedDecor"});
            "ModdedDecor" in r && r["ModdedDecor"]
            && Resolve("table", "ModdedDecor", None, {}, r)
  {
    assert "ModdedDecor" !in Blacklist;
    assert "ModdedDecor" !in DefaultCategoryConfigs;
    assert Normalise("table") == "table" by {
      assert NoUpper("table");
      NormaliseOfPlain("table");
    }
  }
}
