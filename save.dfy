/**
 * The save slots of `js/save.js`. `localStorage` holds one record per slot
 * under the key `roguelikeSave_<slot>`; the model keys its map by the slot
 * number itself and treats the JSON encoding as exact. A stored field that
 * may be missing is an `Option`, because loading reads it through `||`.
 */
module Save {
  import opened Wrappers
  import opened Entities
  import opened Wave

  /** Slots `1..6`. */
  const SlotCount := 6

  /** `{ id: w.id, level: w.level }`; a weapon without an id is stored without one. */
  datatype SavedWeapon = SavedWeapon(id: Option<string>, level: int)

  /** The `player` part of a stored record. */
  datatype SavedPlayer = SavedPlayer(
    x: real, y: real, health: real, maxHealth: real, attack: real, speed: real,
    level: int, exp: int, maxExp: int,
    weapons: seq<SavedWeapon>, passives: Option<seq<string>>,
    critChance: Option<real>, critDamage: Option<real>, vampireHeal: Option<real>, expMultiplier: Option<real>,
    healthRegen: Option<real>, multiShot: Option<real>, maxSummons: Option<real>,
    gold: Option<int>, goldMultiplier: Option<real>)

  /** One stored record. */
  datatype SaveRecord = SaveRecord(selectedClass: string, player: SavedPlayer, wave: int, killCount: int, gameTime: real, saveTime: int)

  /** The player fields a record carries. */
  datatype PlayerValues = PlayerValues(
    x: real, y: real, health: real, maxHealth: real, attack: real, speed: real,
    level: int, exp: int, maxExp: int,
    weapons: seq<Weapon>, passives: seq<string>,
    critChance: real, critDamage: real, vampireHeal: real, expMultiplier: real,
    healthRegen: real, multiShot: real, maxSummons: real,
    gold: int, goldMultiplier: real)

  function ValuesOf(p: Player): PlayerValues
    reads p
  {
    PlayerValues(p.x, p.y, p.health, p.maxHealth, p.attack, p.speed, p.level, p.exp, p.maxExp,
                 p.weapons, p.passives, p.critChance, p.critDamage, p.vampireHeal, p.expMultiplier,
                 p.healthRegen, p.multiShot, p.maxSummons, p.gold, p.goldMultiplier)
  }

  /** `v || d` on a stored number: a missing value or `0` gives the default. */
  function Or(v: Option<real>, d: real): (r: real)
    ensures r == d <==> v.None? || v.value == 0.0 || v.value == d
    ensures r != d ==> v == Some(r)
  {
    if v.None? || v.value == 0.0 then d else v.value
  }

  function OrInt(v: Option<int>, d: int): (r: int)
    ensures r == d <==> v.None? || v.value == 0 || v.value == d
    ensures r != d ==> v == Some(r)
  {
    if v.None? || v.value == 0 then d else v.value
  }

  /** `weapons.map(w => ({ id: w.id, level: w.level }))`. */
  function SavedWeapons(ws: seq<Weapon>): (r: seq<SavedWeapon>)
    ensures |r| == |ws| && forall i :: 0 <= i < |ws| ==> r[i] == SavedWeapon(ws[i].id, ws[i].level)
  {
    seq(|ws|, i requires 0 <= i < |ws| => SavedWeapon(ws[i].id, ws[i].level))
  }

  /** Whether `WEAPONS[w.id]` exists. */
  predicate Known(w: SavedWeapon) { w.id.Some? && w.id.value in Weapons }

  /** The weapons a load rebuilds: each known id from its table entry at its saved level, in saved order. */
  function LoadWeapons(saved: seq<SavedWeapon>): seq<Weapon>
  {
    if |saved| == 0 then []
    else
      var last := saved[|saved| - 1];
      LoadWeapons(saved[..|saved| - 1]) + (if Known(last) then [Equip(last.id, last.level)] else [])
  }

  /** Loading keeps exactly the known weapons, each from its table entry at its saved level. */
  lemma {:induction false} LoadWeaponsMembers(saved: seq<SavedWeapon>)
    ensures forall w :: w in LoadWeapons(saved) <==> exists s :: s in saved && Known(s) && w == Equip(s.id, s.level)
    ensures |LoadWeapons(saved)| <= |saved|
  {
    if |saved| > 0 {
      var init := saved[..|saved| - 1];
      LoadWeaponsMembers(init);
      assert saved == init + [saved[|saved| - 1]];
      forall w ensures w in LoadWeapons(saved) <==> exists s :: s in saved && Known(s) && w == Equip(s.id, s.level) {
        if w in LoadWeapons(saved) && w !in LoadWeapons(init) {
          assert saved[|saved| - 1] in saved;
        }
        if exists s :: s in saved && Known(s) && w == Equip(s.id, s.level) {
          var s :| s in saved && Known(s) && w == Equip(s.id, s.level);
          if s != saved[|saved| - 1] {
            assert s in init;
          }
        }
      }
    }
  }

  /** A weapon the table made at some level. */
  predicate FromTable(w: Weapon) { w.id.Some? && w.id.value in Weapons && w == Equip(w.id, w.level) }

  /** Weapons built from the table survive a save and a load unchanged: same ids, same levels, same order. */
  lemma {:induction false} WeaponsRoundTrip(ws: seq<Weapon>)
    requires forall i :: 0 <= i < |ws| ==> FromTable(ws[i])
    ensures LoadWeapons(SavedWeapons(ws)) == ws
  {
    if |ws| > 0 {
      var init := ws[..|ws| - 1];
      WeaponsRoundTrip(init);
      assert SavedWeapons(ws)[..|ws| - 1] == SavedWeapons(init);
      assert ws == init + [ws[|ws| - 1]];
    }
  }

  /** The record `saveGameToSlot` builds from the player. */
  function Record(v: PlayerValues): SavedPlayer
  {
    SavedPlayer(v.x, v.y, v.health, v.maxHealth, v.attack, v.speed, v.level, v.exp, v.maxExp,
                SavedWeapons(v.weapons), Some(v.passives),
                Some(v.critChance), Some(v.critDamage), Some(v.vampireHeal), Some(v.expMultiplier),
                Some(v.healthRegen), Some(v.multiShot), Some(v.maxSummons), Some(v.gold), Some(v.goldMultiplier))
  }

  /** The player `applyLoadedSaveData` rebuilds from a record, with the class's own summon limit as a fallback. */
  function Restore(s: SavedPlayer, classMaxSummons: real): PlayerValues
  {
    PlayerValues(s.x, s.y, s.health, s.maxHealth, s.attack, s.speed, s.level, s.exp, s.maxExp,
                 LoadWeapons(s.weapons), if s.passives.Some? then s.passives.value else [],
                 Or(s.critChance, 0.0), Or(s.critDamage, 2.0), Or(s.vampireHeal, 0.0), Or(s.expMultiplier, 1.0),
                 Or(s.healthRegen, 0.0), Or(s.multiShot, 1.0), Or(s.maxSummons, classMaxSummons),
                 OrInt(s.gold, 0), Or(s.goldMultiplier, 1.0))
  }

  /**
   * Saving and loading a player gives the same player back, except that a
   * field whose `||` default is not zero comes back as that default when it
   * was saved as zero: crit damage 2, the multipliers 1, multi-shot 1, and
   * the class's summon limit.
   */
  lemma RoundTrip(v: PlayerValues, classMaxSummons: real)
    requires forall i :: 0 <= i < |v.weapons| ==> FromTable(v.weapons[i])
    ensures Restore(Record(v), classMaxSummons) == v.(
      critDamage := if v.critDamage == 0.0 then 2.0 else v.critDamage,
      expMultiplier := if v.expMultiplier == 0.0 then 1.0 else v.expMultiplier,
      multiShot := if v.multiShot == 0.0 then 1.0 else v.multiShot,
      maxSummons := if v.maxSummons == 0.0 then classMaxSummons else v.maxSummons,
      goldMultiplier := if v.goldMultiplier == 0.0 then 1.0 else v.goldMultiplier)
    ensures v.critDamage != 0.0 && v.expMultiplier != 0.0 && v.multiShot != 0.0 && v.maxSummons != 0.0 && v.goldMultiplier != 0.0 ==>
      Restore(Record(v), classMaxSummons) == v
  {
    WeaponsRoundTrip(v.weapons);
  }

  /** `game.saveSlotMode`. */
  datatype SlotMode = NoMode | LoadMode | SaveMode | NewGameMode

  /** The stored slots and the slot bookkeeping of `game`. */
  class SaveSlots {
    var storage: map<int, SaveRecord>
    var currentSaveSlot: Option<int>
    var pendingSaveSlot: Option<int>
    var pendingSaveData: Option<SaveRecord>
    var saveSlotMode: SlotMode

    constructor(stored: map<int, SaveRecord>)
      ensures storage == stored && currentSaveSlot == None && pendingSaveSlot == None && pendingSaveData == None
      ensures saveSlotMode == NoMode
    {
      storage := stored;
      currentSaveSlot, pendingSaveSlot, pendingSaveData := None, None, None;
      saveSlotMode := NoMode;
    }

    /** `hasAnySaveData`: some slot `1..6` holds a record. */
    method HasAnySaveData() returns (r: bool)
      ensures r <==> exists i :: 1 <= i <= SlotCount && i in storage
    {
      for i := 1 to SlotCount + 1
        invariant forall j :: 1 <= j < i ==> j !in storage
      {
        if i in storage {
          return true;
        }
      }
      return false;
    }

    /** `getSaveData`: the stored record, or nothing for an empty slot. */
    function GetSaveData(slot: int): (r: Option<SaveRecord>)
      reads this
      ensures r.None? <==> slot !in storage
      ensures r.Some? ==> r.value == storage[slot]
    {
      if slot in storage then Some(storage[slot]) else None
    }

    /** `saveGameToSlot`: only the given slot is written, and it becomes the current one. */
    method SaveGameToSlot(slot: int, game: Game, player: Player, wave: WaveState, now: int)
      requires game.player == player
      modifies this`storage, this`currentSaveSlot
      ensures storage == old(storage)[slot := SaveRecord(game.selectedClass, Record(ValuesOf(player)), wave.current, game.killCount, game.gameTime, now)]
      ensures currentSaveSlot == Some(slot)
    {
      var record := SaveRecord(game.selectedClass, Record(ValuesOf(player)), wave.current, game.killCount, game.gameTime, now);
      storage := storage[slot := record];
      currentSaveSlot := Some(slot);
    }

    /**
     * `handleSlotClick`. Loading an occupied slot makes it current and holds
     * its record for the load that follows the countdown; loading an empty one
     * does nothing. Saving or starting over an occupied slot only asks for
     * confirmation; saving into an empty slot writes it; a new game in an
     * empty slot makes it current.
     */
    method HandleSlotClick(slot: int, game: Game, player: Player, wave: WaveState, now: int)
      requires game.player == player
      modifies this`storage, this`currentSaveSlot, this`pendingSaveSlot, this`pendingSaveData
      ensures var occupied := slot in old(storage);
        match saveSlotMode
        case LoadMode =>
          && storage == old(storage) && pendingSaveSlot == old(pendingSaveSlot)
          && (occupied ==> currentSaveSlot == Some(slot) && pendingSaveData == Some(old(storage)[slot]))
          && (!occupied ==> currentSaveSlot == old(currentSaveSlot) && pendingSaveData == old(pendingSaveData))
        case SaveMode =>
          && pendingSaveData == old(pendingSaveData)
          && (occupied ==> storage == old(storage) && pendingSaveSlot == Some(slot) && currentSaveSlot == old(currentSaveSlot))
          && (!occupied ==>
                && pendingSaveSlot == old(pendingSaveSlot) && currentSaveSlot == Some(slot)
                && storage == old(storage)[slot := SaveRecord(game.selectedClass, Record(ValuesOf(player)), wave.current, game.killCount, game.gameTime, now)])
        case NewGameMode =>
          && storage == old(storage) && pendingSaveData == old(pendingSaveData)
          && (occupied ==> pendingSaveSlot == Some(slot) && currentSaveSlot == old(currentSaveSlot))
          && (!occupied ==> pendingSaveSlot == old(pendingSaveSlot) && currentSaveSlot == Some(slot))
        case NoMode =>
          unchanged(this)
    {
      var saveData := GetSaveData(slot);
      match saveSlotMode {
        case LoadMode =>
          if saveData.Some? {
            currentSaveSlot := Some(slot);
            pendingSaveData := saveData;
          }
        case SaveMode =>
          if saveData.Some? {
            pendingSaveSlot := Some(slot);
          } else {
            SaveGameToSlot(slot, game, player, wave, now);
          }
        case NewGameMode =>
          if saveData.Some? {
            pendingSaveSlot := Some(slot);
          } else {
            currentSaveSlot := Some(slot);
          }
        case NoMode =>
      }
    }

    /**
     * `clearSaveData(slotIndex)`: a truthy slot number (present and not zero)
     * loses its record; the call without an argument that `gameOver` makes
     * removes nothing.
     */
    method ClearSaveData(slot: Option<int>)
      modifies this`storage
      ensures slot.Some? && slot.value != 0 ==> storage == old(storage) - {slot.value}
      ensures slot.None? || slot.value == 0 ==> storage == old(storage)
    {
      if slot.Some? && slot.value != 0 {
        storage := storage - {slot.value};
      }
    }
  }

  /**
   * `applyLoadedSaveData`: a new player of the saved class carrying the
   * saved values (through the `||` defaults), no enemies, the saved kill
   * count and time, and a new wave started at the saved wave number.
   */
  method ApplyLoadedSaveData(save: SaveRecord, game: Game, cls: ClassConfig, now: int) returns (wave: WaveState)
    modifies game
    ensures fresh(game.player) && game.player != null
    ensures ValuesOf(game.player) == Restore(save.player, cls.maxSummons)
    ensures game.selectedClass == save.selectedClass && game.enemies == [] && game.killCount == save.killCount
    ensures game.gameTime == save.gameTime && game.state == "playing"
    ensures game.playerCount == old(game.playerCount) && game.player2 == old(game.player2)
    ensures fresh(wave) && wave.current == save.wave && wave.Started(now) && wave.lastSpawnTime == 0
    ensures save.wave >= 1 ==> wave.Valid()
  {
    game.selectedClass := save.selectedClass;
    var p := LoadPlayer(save.player, cls);
    game.player := p;
    game.enemies := [];
    game.killCount := save.killCount;
    game.gameTime := save.gameTime;
    game.state := "playing";
    wave := new WaveState(save.wave);
    wave.StartNewWave(now);
  }

  /** `new Player(selectedClass)` with the saved values assigned over its starting ones. */
  method LoadPlayer(s: SavedPlayer, cls: ClassConfig) returns (p: Player)
    ensures fresh(p) && ValuesOf(p) == Restore(s, cls.maxSummons)
    ensures p.maxWeapons == 6
  {
    p := new Player(cls, 0.0, 0.0);
    LoadStats(p, s);
    LoadBonuses(p, s, cls);
  }

  /** The values restored as saved: position, health, attack, speed and progress. */
  method LoadStats(p: Player, s: SavedPlayer)
    modifies p`x, p`y, p`health, p`maxHealth, p`attack, p`speed, p`level, p`exp, p`maxExp
    ensures p.x == s.x && p.y == s.y && p.health == s.health && p.maxHealth == s.maxHealth
    ensures p.attack == s.attack && p.speed == s.speed && p.level == s.level && p.exp == s.exp && p.maxExp == s.maxExp
  {
    p.x, p.y, p.health, p.maxHealth, p.attack, p.speed := s.x, s.y, s.health, s.maxHealth, s.attack, s.speed;
    p.level, p.exp, p.maxExp := s.level, s.exp, s.maxExp;
  }

  /** The values restored through `||` defaults, the passives and the weapons. */
  method LoadBonuses(p: Player, s: SavedPlayer, cls: ClassConfig)
    modifies p`critChance, p`critDamage, p`vampireHeal, p`expMultiplier, p`healthRegen, p`multiShot
    modifies p`maxSummons, p`gold, p`goldMultiplier, p`passives, p`weapons
    ensures p.critChance == Or(s.critChance, 0.0) && p.critDamage == Or(s.critDamage, 2.0)
    ensures p.vampireHeal == Or(s.vampireHeal, 0.0) && p.expMultiplier == Or(s.expMultiplier, 1.0)
    ensures p.healthRegen == Or(s.healthRegen, 0.0) && p.multiShot == Or(s.multiShot, 1.0)
    ensures p.maxSummons == Or(s.maxSummons, cls.maxSummons) && p.gold == OrInt(s.gold, 0)
    ensures p.goldMultiplier == Or(s.goldMultiplier, 1.0)
    ensures p.passives == (if s.passives.Some? then s.passives.value else []) && p.weapons == LoadWeapons(s.weapons)
  {
    p.critChance := Or(s.critChance, 0.0);
    p.critDamage := Or(s.critDamage, 2.0);
    p.vampireHeal := Or(s.vampireHeal, 0.0);
    p.expMultiplier := Or(s.expMultiplier, 1.0);
    p.healthRegen := Or(s.healthRegen, 0.0);
    p.multiShot := Or(s.multiShot, 1.0);
    p.maxSummons := Or(s.maxSummons, cls.maxSummons);
    p.gold := OrInt(s.gold, 0);
    p.goldMultiplier := Or(s.goldMultiplier, 1.0);
    p.passives := if s.passives.Some? then s.passives.value else [];
    p.weapons := RestoreWeapons(s.weapons);
  }

  /** The `forEach` that pushes each known saved weapon. */
  method RestoreWeapons(saved: seq<SavedWeapon>) returns (ws: seq<Weapon>)
    ensures ws == LoadWeapons(saved)
  {
    ws := [];
    for i := 0 to |saved|
      invariant ws == LoadWeapons(saved[..i])
    {
      assert saved[..i + 1][..i] == saved[..i];
      var w := saved[i];
      if w.id.Some? && w.id.value in Weapons {
        ws := ws + [Equip(w.id, w.level)];
      }
    }
    assert saved[..|saved|] == saved;
  }
}
