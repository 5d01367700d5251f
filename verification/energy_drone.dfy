/** The Act 1 energy drone (`EnergyDrone` in the community patch): which scenes
    get it, which configuration applies, whether the card pool calls for it,
    its cleanup, and which energy cells its animations switch. */
module EnergyDrone {
  import opened Wrappers
  import opened Text

  datatype Temple = Nature | Undead | Tech | Wizard

  datatype MetaCategory = ChoiceNode | TraderOffer | Rare | OtherCategory(id: int)

  /** The parts of a `CardInfo` the pool scan reads. */
  datatype CardInfo = CardInfo(temple: Temple, energyCost: int, gemsCostCount: nat, metaCategories: set<MetaCategory>)

  /** The plugin's configuration entries `configEnergy`, `configDrone`,
      `configDroneMox`, `configMox` and `configDefaultDrone`. */
  datatype PluginConfig = PluginConfig(energy: bool, drone: bool, droneMox: bool, mox: bool, defaultDrone: bool)

  datatype EnergyConfigInfo = EnergyConfigInfo(
    configEnergy: bool,
    configShowDrone: bool,
    configDroneMox: bool,
    configMox: bool,
    configDefaultDrone: bool)

  /** `new EnergyConfigInfo()`: the property initialisers read the pool flags
      as they are when the object is built. */
  function NewEnergyConfigInfo(poolHasEnergy: bool, poolHasGems: bool, cfg: PluginConfig): (info: EnergyConfigInfo)
    ensures info.configEnergy <==> poolHasEnergy || cfg.energy
    ensures info.configShowDrone <==> poolHasEnergy || cfg.drone
    ensures info.configDroneMox <==> poolHasGems || cfg.droneMox
    ensures info.configMox <==> poolHasGems || cfg.mox
    ensures info.configDefaultDrone == cfg.defaultDrone
  {
    EnergyConfigInfo(poolHasEnergy || cfg.energy, poolHasEnergy || cfg.drone, poolHasGems || cfg.droneMox,
                     poolHasGems || cfg.mox, cfg.defaultDrone)
  }

  /** `ConfigDrone`: the drone appears for energy or for mox. */
  predicate ConfigDrone(info: EnergyConfigInfo) {
    info.configShowDrone || info.configDroneMox
  }

  /** `ZoneConfigs`: one configuration per temple. */
  datatype ZoneConfigs = ZoneConfigs(nature: EnergyConfigInfo, undead: EnergyConfigInfo, tech: EnergyConfigInfo, wizard: EnergyConfigInfo)

  function ZoneConfig(z: ZoneConfigs, t: Temple): EnergyConfigInfo {
    match t
    case Nature => z.nature
    case Undead => z.undead
    case Tech => z.tech
    case Wizard => z.wizard
  }

  /** Every zone built with the same pool flags. */
  function BuildZoneConfigs(poolHasEnergy: bool, poolHasGems: bool, cfg: PluginConfig): (z: ZoneConfigs)
    ensures forall t :: ZoneConfig(z, t) == NewEnergyConfigInfo(poolHasEnergy, poolHasGems, cfg)
  {
    var info := NewEnergyConfigInfo(poolHasEnergy, poolHasGems, cfg);
    ZoneConfigs(info, info, info, info)
  }

  /** The save file's act flags. */
  datatype SaveFile = SaveFile(isPart3: bool, isGrimora: bool, isMagnificus: bool)

  /** The zone `GetEnergyConfig` reads: Part 3 first, then Grimora, then
      Magnificus, else Nature. */
  function ConfigZone(save: SaveFile): (t: Temple)
    ensures save.isPart3 ==> t == Tech
    ensures !save.isPart3 && save.isGrimora ==> t == Undead
    ensures !save.isPart3 && !save.isGrimora && save.isMagnificus ==> t == Wizard
    ensures !save.isPart3 && !save.isGrimora && !save.isMagnificus ==> t == Nature
  {
    if save.isPart3 then Tech
    else if save.isGrimora then Undead
    else if save.isMagnificus then Wizard
    else Nature
  }

  /** `GetEnergyConfig`: the configuration of the current act. Part 3 reads
      the Tech zone; otherwise it is the zone of the temple the pool scan
      uses. */
  function GetEnergyConfig(z: ZoneConfigs, save: SaveFile): (info: EnergyConfigInfo)
    ensures save.isPart3 ==> info == z.tech
    ensures !save.isPart3 && save.isGrimora ==> info == z.undead
    ensures !save.isPart3 && !save.isGrimora && save.isMagnificus ==> info == z.wizard
    ensures !save.isPart3 && !save.isGrimora && !save.isMagnificus ==> info == z.nature
    ensures !save.isPart3 ==> info == ZoneConfig(z, TargetTemple(save))
  {
    ZoneConfig(z, ConfigZone(save))
  }

  /** The temple `TryEnableEnergy` scans the pool for: Grimora first, then
      Magnificus, else Nature; Part 3 is not consulted. */
  function TargetTemple(save: SaveFile): (t: Temple)
    ensures t != Tech
    ensures save.isGrimora ==> t == Undead
    ensures !save.isGrimora && save.isMagnificus ==> t == Wizard
    ensures !save.isGrimora && !save.isMagnificus ==> t == Nature
  {
    if save.isGrimora then Undead else if save.isMagnificus then Wizard else Nature
  }

  /** Outside Part 3 the scanned temple is the configured zone; in Part 3 the
      configuration is Tech while the scan never is. */
  lemma TempleSelectionsAgree(save: SaveFile)
    ensures !save.isPart3 ==> TargetTemple(save) == ConfigZone(save)
    ensures save.isPart3 ==> TargetTemple(save) != ConfigZone(save)
  {
  }

  /** `SceneCanHaveEnergyDrone`, on the lower-cased name: a Part 1 scene that
      is neither the sanctum nor the finale, or a Magnificus or Grimora
      scene. */
  function SceneCanHaveEnergyDrone(sceneName: string): (r: bool)
    ensures var n := Lower(sceneName);
      r ==> Contains(n, "part1") || Contains(n, "magnificus") || Contains(n, "grimora")
    ensures var n := Lower(sceneName);
      Contains(n, "part1") && (Contains(n, "sanctum") || Contains(n, "finale")) ==> !r
    ensures var n := Lower(sceneName);
      Contains(n, "part1") && !Contains(n, "sanctum") && !Contains(n, "finale") ==> r
    ensures var n := Lower(sceneName);
      !Contains(n, "part1") && (Contains(n, "magnificus") || Contains(n, "grimora")) ==> r
  {
    var n := Lower(sceneName);
    if Contains(n, "part1") then !Contains(n, "sanctum") && !Contains(n, "finale")
    else Contains(n, "magnificus") || Contains(n, "grimora")
  }

  /** The scene test ignores letter case. */
  lemma SceneTestIgnoresCase(sceneName: string)
    ensures SceneCanHaveEnergyDrone(Lower(sceneName)) == SceneCanHaveEnergyDrone(sceneName)
  {
    LowerIdempotent(sceneName);
  }

  /** `CurrentSceneCanHaveEnergyDrone`: no active scene, or one without a
      name, never has the drone. */
  function CurrentSceneCanHaveEnergyDrone(activeSceneName: Option<string>): (r: bool)
    ensures r ==> activeSceneName.Some? && |activeSceneName.value| > 0
    ensures activeSceneName.Some? && |activeSceneName.value| > 0 ==> r == SceneCanHaveEnergyDrone(activeSceneName.value)
  {
    if activeSceneName.None? || |activeSceneName.value| == 0 then false
    else SceneCanHaveEnergyDrone(activeSceneName.value)
  }

  /** `CardIsVisible`: a card of the temple that can be offered (choice node,
      trader or rare). */
  function CardIsVisible(info: CardInfo, targetTemple: Temple): (r: bool)
    ensures info.temple != targetTemple ==> !r
    ensures info.temple == targetTemple ==> (r <==> exists c :: c in info.metaCategories && Offerable(c))
  {
    if info.temple != targetTemple then false
    else ChoiceNode in info.metaCategories || TraderOffer in info.metaCategories || Rare in info.metaCategories
  }

  /** The categories under which a card can be offered to the player. */
  predicate Offerable(c: MetaCategory) {
    c == ChoiceNode || c == TraderOffer || c == Rare
  }

  /** `PoolHasEnergy` as `TryEnableEnergy` computes it. */
  function PoolHasEnergy(cards: seq<CardInfo>, t: Temple): (r: bool)
    ensures r <==> exists k :: 0 <= k < |cards| && cards[k].energyCost > 0 && CardIsVisible(cards[k], t)
  {
    if |cards| == 0 then false
    else (cards[0].energyCost > 0 && CardIsVisible(cards[0], t)) || PoolHasEnergy(cards[1..], t)
  }

  /** `PoolHasGems` as `TryEnableEnergy` computes it. */
  function PoolHasGems(cards: seq<CardInfo>, t: Temple): (r: bool)
    ensures r <==> exists k :: 0 <= k < |cards| && cards[k].gemsCostCount > 0 && CardIsVisible(cards[k], t)
  {
    if |cards| == 0 then false
    else (cards[0].gemsCostCount > 0 && CardIsVisible(cards[0], t)) || PoolHasGems(cards[1..], t)
  }

  /** What `TryEnableEnergy` does: nothing outside the drone's scenes;
      otherwise it records the pool flags and wakes the drone when the
      current configuration asks for it. */
  datatype EnableOutcome = SceneSkipped | Enabled(poolHasEnergy: bool, poolHasGems: bool, awakeDrone: bool)

  /** The zone configurations as the static initialiser builds them: during
      type initialisation, before any scan, both pool flags are `false`. */
  function TypeInitZoneConfigs(cfg: PluginConfig): (z: ZoneConfigs)
    ensures forall t :: ZoneConfig(z, t) == NewEnergyConfigInfo(false, false, cfg)
  {
    BuildZoneConfigs(false, false, cfg)
  }

  /** `TryEnableEnergy` as written: the pool is scanned, but the drone decision
      reads the zone configurations, which were built before the scan. */
  function TryEnableEnergyAsWritten(sceneName: string, save: SaveFile, cards: seq<CardInfo>, zones: ZoneConfigs): (r: EnableOutcome)
    ensures r.SceneSkipped? <==> !SceneCanHaveEnergyDrone(sceneName)
    ensures r.Enabled? ==> r.poolHasEnergy == PoolHasEnergy(cards, TargetTemple(save))
    ensures r.Enabled? ==> r.poolHasGems == PoolHasGems(cards, TargetTemple(save))
    ensures r.Enabled? ==> r.awakeDrone == ConfigDrone(GetEnergyConfig(zones, save))
  {
    if !SceneCanHaveEnergyDrone(sceneName) then SceneSkipped
    else
      var t := TargetTemple(save);
      Enabled(PoolHasEnergy(cards, t), PoolHasGems(cards, t), ConfigDrone(GetEnergyConfig(zones, save)))
  }

  /** With the zone configurations of type initialisation, the drone wakes
      exactly when the plugin configuration asks for it, whatever the pool
      holds. */
  lemma AsWrittenIgnoresPool(sceneName: string, save: SaveFile, cards: seq<CardInfo>, cfg: PluginConfig)
    requires SceneCanHaveEnergyDrone(sceneName)
    ensures TryEnableEnergyAsWritten(sceneName, save, cards, TypeInitZoneConfigs(cfg)).awakeDrone <==> cfg.drone || cfg.droneMox
  {
  }

  /** `TryEnableEnergy` as its documentation describes it: the configuration
      is rebuilt from the pool flags just computed, so an obtainable energy or
      mox card wakes the drone. Returns the outcome and the zone
      configurations in force afterwards. */
  function TryEnableEnergy(sceneName: string, save: SaveFile, cards: seq<CardInfo>, cfg: PluginConfig, zones: ZoneConfigs): (r: (EnableOutcome, ZoneConfigs))
    ensures r.0.SceneSkipped? <==> !SceneCanHaveEnergyDrone(sceneName)
    ensures r.0.SceneSkipped? ==> r.1 == zones
    ensures r.0.Enabled? ==> r.0.poolHasEnergy == PoolHasEnergy(cards, TargetTemple(save))
    ensures r.0.Enabled? ==> r.0.poolHasGems == PoolHasGems(cards, TargetTemple(save))
    ensures r.0.Enabled? ==> (r.0.awakeDrone <==> r.0.poolHasEnergy || r.0.poolHasGems || cfg.drone || cfg.droneMox)
    ensures r.0.Enabled? ==> r.0.awakeDrone == ConfigDrone(GetEnergyConfig(r.1, save))
  {
    if !SceneCanHaveEnergyDrone(sceneName) then (SceneSkipped, zones)
    else
      var t := TargetTemple(save);
      var e := PoolHasEnergy(cards, t);
      var g := PoolHasGems(cards, t);
      var z := BuildZoneConfigs(e, g, cfg);
      (Enabled(e, g, ConfigDrone(GetEnergyConfig(z, save))), z)
  }

  /** A Part 1 scene whose pool holds a visible energy card, with the drone
      switched off in the plugin configuration: as written the drone stays
      asleep, as documented it wakes. */
  lemma PoolFlagsReachDrone()
    ensures var cfg := PluginConfig(false, false, false, false, false);
      var save := SaveFile(false, false, false);
      var cards := [CardInfo(Nature, 1, 0, {ChoiceNode})];
      && TryEnableEnergyAsWritten("part1", save, cards, TypeInitZoneConfigs(cfg)) == Enabled(true, false, false)
      && TryEnableEnergy("part1", save, cards, cfg, TypeInitZoneConfigs(cfg)).0 == Enabled(true, false, true)
  {
    var cards := [CardInfo(Nature, 1, 0, {ChoiceNode})];
    assert Lower("part1") == "part1";
    assert "part1" <= "part1";
    assert !Contains("part1", "sanctum") && !Contains("part1", "finale");
    assert PoolHasEnergy(cards, Nature);
  }

  datatype Gem = Orange | Green | Blue

  /** The resource manager fields the cleanup resets. */
  datatype Resources = Resources(playerEnergy: int, playerMaxEnergy: int, gems: seq<Gem>)

  /** The drone: absent (`m_Instance == null`) or present, with or without its
      gems module. */
  datatype Drone = NoDrone | Drone(hasGemsModule: bool)

  /** The drone calls the cleanup makes: close all cells, leave the board,
      switch all gems off. */
  datatype DroneCleanup = DroneCleanup(closeAllCells: bool, leaveBoard: bool, gemsOff: bool)

  /** The `Part1ResourcesManager.CleanUp` prefix. */
  function CleanUp(info: EnergyConfigInfo, res: Resources, drone: Drone): (r: (Resources, DroneCleanup))
    ensures info.configEnergy ==> r.0.playerEnergy == 0 && r.0.playerMaxEnergy == 0
    ensures !info.configEnergy ==> r.0.playerEnergy == res.playerEnergy && r.0.playerMaxEnergy == res.playerMaxEnergy
    ensures r.0.gems == if info.configMox then [] else res.gems
    ensures r.1.closeAllCells <==> ConfigDrone(info) && drone.Drone?
    ensures r.1.leaveBoard == r.1.closeAllCells
    ensures r.1.gemsOff <==> r.1.closeAllCells && info.configDroneMox && drone.hasGemsModule
  {
    var energy := if info.configEnergy then res.(playerEnergy := 0, playerMaxEnergy := 0) else res;
    var cleaned := if info.configMox then energy.(gems := []) else energy;
    var active := ConfigDrone(info) && drone.Drone?;
    (cleaned, DroneCleanup(active, active, active && info.configDroneMox && drone.hasGemsModule))
  }

  /** Cleaning up twice leaves the resources as cleaning up once. */
  lemma CleanUpIdempotent(info: EnergyConfigInfo, res: Resources, drone: Drone)
    ensures CleanUp(info, CleanUp(info, res, drone).0, drone).0 == CleanUp(info, res, drone).0
  {
  }

  /** One `SetCellOn(i, on)` call on the drone. */
  datatype CellCall = SetCellOn(cell: int, on: bool)

  /** The cells a `ShowAddEnergy` of `amount` lights once the energy has
      reached `energy`: `[energy - amount, energy)`, upward. */
  function AddEnergyCells(energy: int, amount: int): (r: seq<CellCall>)
    ensures amount <= 0 ==> r == []
  {
    if amount <= 0 then [] else seq(amount, k => SetCellOn(energy - amount + k, true))
  }

  /** The cells a `ShowSpendEnergy` of `amount` darkens once the energy has
      dropped to `energy`: `[energy, energy + amount)`, downward. */
  function SpendEnergyCells(energy: int, amount: int): (r: seq<CellCall>)
    ensures amount <= 0 ==> r == []
  {
    if amount <= 0 then [] else seq(amount, k => SetCellOn(energy + amount - 1 - k, false))
  }

  /** The drone animations run only for the Part 1 manager, a configuration
      that shows the drone, and an existing drone. */
  predicate AnimatesCells(isPart1Manager: bool, info: EnergyConfigInfo, drone: Drone) {
    isPart1Manager && ConfigDrone(info) && drone.Drone?
  }

  /** The `ShowAddEnergy` postfix's loop. */
  method ShowAddEnergy(active: bool, energy: int, amount: int) returns (calls: seq<CellCall>)
    ensures !active ==> calls == []
    ensures active ==> calls == AddEnergyCells(energy, amount)
    ensures active && amount > 0 ==> |calls| == amount
    ensures forall k :: 0 <= k < |calls| ==> calls[k].on && energy - amount <= calls[k].cell < energy
    ensures forall k :: 0 <= k < |calls| - 1 ==> calls[k].cell + 1 == calls[k + 1].cell
  {
    calls := [];
    if active {
      var lo := energy - amount;
      var i := lo;
      while i < energy
        invariant lo <= i && (i <= energy || i == lo)
        invariant |calls| == i - lo
        invariant forall k :: 0 <= k < |calls| ==> calls[k] == SetCellOn(lo + k, true)
        decreases energy - i
      {
        calls := calls + [SetCellOn(i, true)];
        i := i + 1;
      }
    }
  }

  /** The `ShowSpendEnergy` postfix's loop (the blip's pitch is left out). */
  method ShowSpendEnergy(active: bool, energy: int, amount: int) returns (calls: seq<CellCall>)
    ensures !active ==> calls == []
    ensures active ==> calls == SpendEnergyCells(energy, amount)
    ensures active && amount > 0 ==> |calls| == amount
    ensures forall k :: 0 <= k < |calls| ==> !calls[k].on && energy <= calls[k].cell < energy + amount
    ensures forall k :: 0 <= k < |calls| - 1 ==> calls[k].cell == calls[k + 1].cell + 1
  {
    calls := [];
    if active {
      var hi := energy + amount - 1;
      var i := hi;
      while i >= energy
        invariant i <= hi && (energy - 1 <= i || i == hi)
        invariant |calls| == hi - i
        invariant forall k :: 0 <= k < |calls| ==> calls[k] == SetCellOn(hi - k, false)
        decreases i - energy + 1
      {
        calls := calls + [SetCellOn(i, false)];
        i := i - 1;
      }
    }
  }

  /** Spending what was just added (the energy going from `low + amount`
      back to `low`) darkens exactly the cells that were lit, in the reverse
      order. */
  lemma SpendUndoesAdd(low: int, amount: int)
    ensures |SpendEnergyCells(low, amount)| == |AddEnergyCells(low + amount, amount)|
    ensures forall k :: 0 <= k < |SpendEnergyCells(low, amount)| ==>
      SpendEnergyCells(low, amount)[k] == SetCellOn(AddEnergyCells(low + amount, amount)[amount - 1 - k].cell, false)
  {
  }

  /** The `ShowAddMaxEnergy` postfix: opens the cell of the new maximum. */
  function ShowAddMaxEnergy(active: bool, maxEnergy: int): (cell: Option<int>)
    ensures cell.Some? <==> active
    ensures active ==> AddEnergyCells(maxEnergy, 1) == [SetCellOn(cell.value, true)]
  {
    if active then Some(maxEnergy - 1) else None
  }
}
