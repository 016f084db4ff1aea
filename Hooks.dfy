/**
 * What the intercepted game methods hand to the mod, with the host queries
 * they make passed in as values, and which skill events start a reduction
 * pass.
 */
module Hooks {
  import opened Wrappers
  import opened Text

  /** Player.RequirementMode. */
  datatype RequirementMode = IsKnown | CanBuild | CanAlmostBuild

  /**
   * The answers of the host queries HaveRequirements makes: the stations the
   * player knows, whether the piece's station is in range, whether the
   * "NoWorkbench" and the piece's free-build global keys are set, whether
   * the piece's DLC is installed.
   */
  datatype HostView = HostView(knownStations: set<string>, stationInRange: bool, noWorkbenchKey: bool,
                               dlcInstalled: bool, freeBuildKey: bool)

  /** A prefix's outcome: let the game's method run, or skip it and answer result. */
  datatype Verdict = RunOriginal | Answer(result: bool)

  /**
   * The crafting-station check: in IsKnown and CanAlmostBuild mode the
   * station must be known, in CanBuild mode it must be in range unless the
   * "NoWorkbench" key is set.
   */
  predicate StationBlocks(station: Option<string>, mode: RequirementMode, host: HostView)
  {
    station.Some? &&
    if mode == IsKnown || mode == CanAlmostBuild then station.value !in host.knownStations
    else !host.stationInRange && !host.noWorkbenchKey
  }

  /** The DLC check: a piece of a DLC that is not installed. */
  predicate DlcBlocks(dlc: string, host: HostView)
  {
    |dlc| > 0 && !host.dlcInstalled
  }

  /** Skills.SkillType, as far as the mod tells its values apart. */
  datatype SkillType = Crafting | OtherSkill(id: nat)

  /** The name Skills.SkillType.Crafting.ToString() gives. */
  const CraftingName: string := "Crafting"

  /** The skill events the mod listens to. */
  datatype SkillEvent =
    | LevelUp(skill: SkillType)
    | LowerAll(factor: real)
    | CheatRaise(name: string)
    | CheatReset(name: string)

  /** The console-command filter: name.ToLower() is "all" or the lower-cased crafting skill name. */
  function CheatNameMatches(name: string): bool
  {
    ToLower(name) == "all" || ToLower(name) == ToLower(CraftingName)
  }

  /**
   * Which events start a reduction pass: a level-up of the crafting skill,
   * every lowering of all skills, and a console raise or reset naming "all"
   * or the crafting skill in any letter case.
   */
  function TriggersReduction(e: SkillEvent): (r: bool)
    ensures e.LevelUp? ==> (r <==> e.skill == Crafting)
    ensures e.LowerAll? ==> r
    ensures (e.CheatRaise? || e.CheatReset?) ==>
              (r <==> EqualsIgnoringCase(e.name, "all") || EqualsIgnoringCase(e.name, "crafting"))
  {
    assert ToLower(CraftingName) == "crafting";
    assert NoUpper("all") && NoUpper("crafting");
    match e
    case LevelUp(skill) => skill == Crafting
    case LowerAll(_) => true
    case CheatRaise(name) => ToLowerEqualsIff(name, "all"); ToLowerEqualsIff(name, "crafting"); CheatNameMatches(name)
    case CheatReset(name) => ToLowerEqualsIff(name, "all"); ToLowerEqualsIff(name, "crafting"); CheatNameMatches(name)
  }
}
