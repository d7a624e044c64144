/**
 * The game-state rules of `js/entities.js`: a player's experience, levels,
 * gold and weapons, and the pickup of a dropped item. `Game` stands for the
 * global `game` object of `js/main.js`, reduced to the fields these rules
 * read and write.
 */
module Entities {
  import opened Wrappers

  /** One entry of the `WEAPONS` table of `js/data.js`, reduced to its identity and evolution fields. */
  datatype WeaponData = WeaponData(id: string, maxLevel: int, evolvesWith: Option<string>, evolvesTo: Option<string>)

  /** The `WEAPONS` table: six base weapons, each evolving with one of six accessories into one of six evolved weapons. */
  const Weapons: map<string, WeaponData> := map[
    "sword" := WeaponData("sword", 5, Some("shield"), Some("holyBlade")),
    "dagger" := WeaponData("dagger", 5, Some("cloak"), Some("shadowBlade")),
    "bow" := WeaponData("bow", 5, Some("quiver"), Some("phoenixBow")),
    "staff" := WeaponData("staff", 5, Some("tome"), Some("arcaneStaff")),
    "axe" := WeaponData("axe", 5, Some("gauntlet"), Some("bloodAxe")),
    "fireball" := WeaponData("fireball", 5, Some("ember"), Some("inferno")),
    "shield" := WeaponData("shield", 5, None, None),
    "cloak" := WeaponData("cloak", 5, None, None),
    "quiver" := WeaponData("quiver", 5, None, None),
    "tome" := WeaponData("tome", 5, None, None),
    "gauntlet" := WeaponData("gauntlet", 5, None, None),
    "ember" := WeaponData("ember", 5, None, None),
    "holyBlade" := WeaponData("holyBlade", 1, None, None),
    "shadowBlade" := WeaponData("shadowBlade", 1, None, None),
    "phoenixBow" := WeaponData("phoenixBow", 1, None, None),
    "arcaneStaff" := WeaponData("arcaneStaff", 1, None, None),
    "bloodAxe" := WeaponData("bloodAxe", 1, None, None),
    "inferno" := WeaponData("inferno", 1, None, None)
  ]

  /** The table is keyed by id, and every partner and every evolution it names is in it. */
  lemma WeaponsClosed()
    ensures forall id :: id in Weapons ==> Weapons[id].id == id
    ensures forall id :: id in Weapons && Weapons[id].evolvesWith.Some? ==>
      && Weapons[id].evolvesTo.Some?
      && Weapons[id].evolvesWith.value in Weapons && Weapons[id].evolvesTo.value in Weapons
      && Weapons[id].evolvesWith.value != id
  {
  }

  /**
   * A weapon the player holds: `{ ...WEAPONS[id], level }`. Spreading a missing
   * table entry leaves only the level, so id and maximum level are optional.
   */
  datatype Weapon = Weapon(id: Option<string>, maxLevel: Option<int>, evolvesWith: Option<string>, evolvesTo: Option<string>, level: int)
  {
    /** `level < maxLevel`, false when the maximum is undefined. */
    predicate BelowMax() { maxLevel.Some? && level < maxLevel.value }
    /** `level >= maxLevel`, false when the maximum is undefined. */
    predicate AtMax() { maxLevel.Some? && level >= maxLevel.value }
  }

  /** `{ ...WEAPONS[id], level }`. */
  function Equip(id: Option<string>, level: int): (w: Weapon)
    ensures w.level == level
    ensures id.Some? && id.value in Weapons ==>
      w.id == id && w.maxLevel == Some(Weapons[id.value].maxLevel)
      && w.evolvesWith == Weapons[id.value].evolvesWith && w.evolvesTo == Weapons[id.value].evolvesTo
    ensures !(id.Some? && id.value in Weapons) ==> w == Weapon(None, None, None, None, level)
  {
    if id.Some? && id.value in Weapons then
      var d := Weapons[id.value];
      Weapon(Some(d.id), Some(d.maxLevel), d.evolvesWith, d.evolvesTo, level)
    else
      Weapon(None, None, None, None, level)
  }

  /** `weapons.find(…)`: the first index whose weapon satisfies `p`. */
  function FindFirst(ws: seq<Weapon>, p: Weapon -> bool): (r: Option<nat>)
    ensures r.Some? ==> r.value < |ws| && p(ws[r.value]) && forall j :: 0 <= j < r.value ==> !p(ws[j])
    ensures r.None? ==> forall j :: 0 <= j < |ws| ==> !p(ws[j])
  {
    if |ws| == 0 then None
    else if p(ws[0]) then Some(0)
    else match FindFirst(ws[1..], p)
      case None => None
      case Some(k) => Some(k + 1)
  }

  /** `weapons.filter(w => w.id !== a && w.id !== b)`. */
  function Without(ws: seq<Weapon>, a: Option<string>, b: Option<string>): seq<Weapon>
  {
    if |ws| == 0 then []
    else (if ws[0].id != a && ws[0].id != b then [ws[0]] else []) + Without(ws[1..], a, b)
  }

  /** The filter keeps exactly the weapons with neither id. */
  lemma {:induction false} WithoutMembers(ws: seq<Weapon>, a: Option<string>, b: Option<string>)
    ensures forall w :: w in Without(ws, a, b) <==> w in ws && w.id != a && w.id != b
  {
    if |ws| > 0 {
      WithoutMembers(ws[1..], a, b);
      assert ws == [ws[0]] + ws[1..];
    }
  }

  /** The filter keeps the survivors in their order: it is the same filter on any split. */
  lemma {:induction false} WithoutAppend(xs: seq<Weapon>, ys: seq<Weapon>, a: Option<string>, b: Option<string>)
    ensures Without(xs + ys, a, b) == Without(xs, a, b) + Without(ys, a, b)
  {
    if |xs| > 0 {
      assert (xs + ys)[1..] == xs[1..] + ys;
      WithoutAppend(xs[1..], ys, a, b);
    } else {
      assert xs + ys == ys;
    }
  }

  /** Removing a weapon that is present makes the list strictly shorter. */
  lemma {:induction false} WithoutShrinks(ws: seq<Weapon>, a: Option<string>, b: Option<string>, i: nat)
    requires i < |ws| && ws[i].id == a
    ensures |Without(ws, a, b)| < |ws|
  {
    if i == 0 {
      WithoutBound(ws[1..], a, b);
    } else {
      WithoutShrinks(ws[1..], a, b, i - 1);
    }
  }

  lemma {:induction false} WithoutBound(ws: seq<Weapon>, a: Option<string>, b: Option<string>)
    ensures |Without(ws, a, b)| <= |ws|
  {
    if |ws| > 0 {
      WithoutBound(ws[1..], a, b);
    }
  }

  /** `evolveWeapon`: both ids leave the list, the evolution joins it at level 1. */
  function Evolve(ws: seq<Weapon>, w1: Weapon, w2: Weapon): seq<Weapon>
  {
    Without(ws, w1.id, w2.id) + [Equip(w1.evolvesTo, 1)]
  }

  /** The partner `checkWeaponEvolution` looks for: `evolvesWith` at its own maximum. */
  function PartnerOf(ws: seq<Weapon>, w: Weapon): (r: Option<nat>)
    requires w.evolvesWith.Some?
    ensures r.Some? ==> r.value < |ws| && ws[r.value].id == w.evolvesWith && ws[r.value].AtMax()
    ensures r.None? ==> forall j :: 0 <= j < |ws| ==> !(ws[j].id == w.evolvesWith && ws[j].AtMax())
  {
    FindFirst(ws, (x: Weapon) => x.id == w.evolvesWith && x.AtMax())
  }

  /** `weapons.find(w => w.id === id)`. */
  function FindId(ws: seq<Weapon>, id: string): (r: Option<nat>)
    ensures r.Some? ==> r.value < |ws| && ws[r.value].id == Some(id) && forall j :: 0 <= j < r.value ==> ws[j].id != Some(id)
    ensures r.None? ==> forall j :: 0 <= j < |ws| ==> ws[j].id != Some(id)
  {
    FindFirst(ws, (w: Weapon) => w.id == Some(id))
  }

  /** `checkWeaponEvolution(weapons[i])` on the list. */
  function AfterEvolution(ws: seq<Weapon>, i: nat): seq<Weapon>
    requires i < |ws|
  {
    var w := ws[i];
    if w.AtMax() && w.evolvesWith.Some? then
      match PartnerOf(ws, w)
      case Some(j) => Evolve(ws, w, ws[j])
      case None => ws
    else ws
  }

  /**
   * An evolution replaces the weapon and its partner, which the table makes
   * distinct, by one evolved weapon; the list never grows.
   */
  lemma EvolutionShrinks(ws: seq<Weapon>, i: nat)
    requires i < |ws|
    ensures |AfterEvolution(ws, i)| <= |ws|
    ensures AfterEvolution(ws, i) != ws ==>
      && ws[i].AtMax() && ws[i].evolvesWith.Some?
      && (exists j :: 0 <= j < |ws| && ws[j].id == ws[i].evolvesWith && ws[j].AtMax())
      && AfterEvolution(ws, i)[|AfterEvolution(ws, i)| - 1] == Equip(ws[i].evolvesTo, 1)
      && forall x :: x in AfterEvolution(ws, i)[..|AfterEvolution(ws, i)| - 1] <==> x in ws && x.id != ws[i].id && x.id != ws[i].evolvesWith
  {
    var w := ws[i];
    if w.AtMax() && w.evolvesWith.Some? {
      match PartnerOf(ws, w)
      case Some(j) =>
        WithoutShrinks(ws, w.id, ws[j].id, i);
        WithoutMembers(ws, w.id, ws[j].id);
        var r := Evolve(ws, w, ws[j]);
        assert r[..|r| - 1] == Without(ws, w.id, ws[j].id);
      case None =>
    }
  }

  /** `addWeapon(id)` on the list, with room for `maxWeapons` weapons. */
  function Added(ws: seq<Weapon>, maxWeapons: int, id: string): seq<Weapon>
  {
    match FindId(ws, id)
    case Some(i) =>
      if ws[i].BelowMax() then AfterEvolution(ws[i := ws[i].(level := ws[i].level + 1)], i) else ws
    case None =>
      if |ws| < maxWeapons then ws + [Equip(Some(id), 1)] else ws
  }

  /** `addWeapon` grows the list only by an append into free room. */
  lemma AddedSize(ws: seq<Weapon>, maxWeapons: int, id: string)
    ensures var r := Added(ws, maxWeapons, id);
      && (|r| <= |ws| || (|r| == |ws| + 1 && |ws| < maxWeapons))
      && (|ws| <= maxWeapons ==> |r| <= maxWeapons)
  {
    match FindId(ws, id)
    case Some(i) =>
      if ws[i].BelowMax() {
        EvolutionShrinks(ws[i := ws[i].(level := ws[i].level + 1)], i);
      }
    case None =>
  }

  /**
   * `addWeapon`: a held weapon below its maximum gains one level (and may then
   * evolve), one at its maximum is left alone, a new id is appended at level 1
   * only while there is room. The list only grows by an append into free room.
   */
  lemma AddedEffect(ws: seq<Weapon>, maxWeapons: int, id: string)
    ensures var r := Added(ws, maxWeapons, id);
      && (|r| <= |ws| || (|r| == |ws| + 1 && |ws| < maxWeapons))
      && (|ws| <= maxWeapons ==> |r| <= maxWeapons)
    ensures forall i :: 0 <= i < |ws| && ws[i].id == Some(id) && (forall j :: 0 <= j < i ==> ws[j].id != Some(id)) ==>
      if ws[i].BelowMax() then Added(ws, maxWeapons, id) == AfterEvolution(ws[i := ws[i].(level := ws[i].level + 1)], i)
      else Added(ws, maxWeapons, id) == ws
    ensures (forall j :: 0 <= j < |ws| ==> ws[j].id != Some(id)) ==>
      Added(ws, maxWeapons, id) == if |ws| < maxWeapons then ws + [Equip(Some(id), 1)] else ws
  {
    AddedSize(ws, maxWeapons, id);
    var found := FindId(ws, id);
    forall i | 0 <= i < |ws| && ws[i].id == Some(id) && (forall j :: 0 <= j < i ==> ws[j].id != Some(id))
      ensures found == Some(i)
    {
    }
  }

  /** A level-up target: `floor(maxExp * 1.2)` in exact arithmetic. */
  function Grown(maxExp: int): int { (6 * maxExp) / 5 }

  /** For the thresholds the game reaches (from 100), each level needs more experience than the last. */
  lemma GrownIncreases(maxExp: int)
    requires maxExp >= 5
    ensures maxExp < Grown(maxExp) <= maxExp + maxExp / 5 + 1
  {
  }

  /** A player's level, experience and threshold. */
  datatype Progress = Progress(level: int, exp: int, maxExp: int)

  /** `levelUp`. */
  function LevelledUp(p: Progress): (q: Progress)
    ensures q.level == p.level + 1 && q.exp == p.exp - p.maxExp && q.maxExp == Grown(p.maxExp)
  {
    Progress(p.level + 1, p.exp - p.maxExp, Grown(p.maxExp))
  }

  /** Adding `gained` experience, then at most one `levelUp`. */
  function Gain(p: Progress, gained: int): Progress
  {
    var q := p.(exp := p.exp + gained);
    if q.exp >= q.maxExp then LevelledUp(q) else q
  }

  /** One call levels up at most once, exactly when the threshold is reached, and keeps the experience total. */
  lemma GainOnce(p: Progress, gained: int)
    ensures Gain(p, gained).level == p.level + (if p.exp + gained >= p.maxExp then 1 else 0)
    ensures Gain(p, gained).exp + (if p.exp + gained >= p.maxExp then p.maxExp else 0) == p.exp + gained
  {
  }

  /**
   * One call levels up at most once, so the player is left at or above the new
   * threshold exactly when the gain also covers that threshold; e.g. 300 at
   * level 1 leaves 200 against 120.
   */
  lemma GainCanOvershoot(p: Progress, gained: int)
    requires p.maxExp >= 0
    ensures var q := Gain(p, gained); q.exp >= q.maxExp <==> p.exp + gained >= p.maxExp + Grown(p.maxExp)
    ensures Gain(Progress(1, 0, 100), 300) == Progress(2, 200, 120)
  {
  }

  /** Below the threshold before, a gain smaller than the next threshold leaves the player below it again. */
  lemma GainStaysBelow(p: Progress, gained: int)
    requires 0 <= p.exp < p.maxExp && 5 <= p.maxExp && 0 <= gained < Grown(p.maxExp)
    ensures 0 <= Gain(p, gained).exp < Gain(p, gained).maxExp
  {
    GrownIncreases(p.maxExp);
  }

  /** The per-class values `new Player(classType)` reads from `CLASSES`. */
  datatype ClassConfig = ClassConfig(health: real, attack: real, speed: real, critChance: real, maxSummons: real)

  class Player {
    var x: real
    var y: real
    var health: real
    var maxHealth: real
    var attack: real
    var speed: real
    var level: int
    var exp: int
    var maxExp: int
    var expMultiplier: real
    var critChance: real
    var critDamage: real
    var vampireHeal: real
    var healthRegen: real
    var multiShot: real
    var maxSummons: real
    var passives: seq<string>
    var gold: int
    var goldMultiplier: real
    var weapons: seq<Weapon>
    const maxWeapons: int

    /** The starting values a new player of the given class gets. */
    constructor(cls: ClassConfig, x0: real, y0: real)
      ensures x == x0 && y == y0
      ensures health == cls.health && maxHealth == cls.health && attack == cls.attack && speed == cls.speed
      ensures level == 1 && exp == 0 && maxExp == 100 && expMultiplier == 1.0
      ensures critChance == cls.critChance && critDamage == 2.0 && vampireHeal == 0.0 && healthRegen == 0.0 && multiShot == 1.0
      ensures maxSummons == cls.maxSummons && passives == []
      ensures gold == 0 && goldMultiplier == 1.0 && weapons == [] && maxWeapons == 6
    {
      x, y := x0, y0;
      health, maxHealth, attack, speed := cls.health, cls.health, cls.attack, cls.speed;
      level, exp, maxExp, expMultiplier := 1, 0, 100, 1.0;
      critChance, critDamage, vampireHeal, healthRegen, multiShot := cls.critChance, 2.0, 0.0, 0.0, 1.0;
      maxSummons, passives := cls.maxSummons, [];
      gold, goldMultiplier, weapons, maxWeapons := 0, 1.0, [], 6;
    }

    function Standing(): Progress
      reads this
    {
      Progress(level, exp, maxExp)
    }

    /** `levelUp`: one more level, the threshold paid out of the experience, and the level-up screen. */
    method LevelUp(game: Game)
      modifies this`level, this`exp, this`maxExp, game`state
      ensures Standing() == LevelledUp(old(Standing()))
      ensures game.state == LevelUpScreen
    {
      level := level + 1;
      exp := exp - maxExp;
      maxExp := Grown(maxExp);
      game.state := LevelUpScreen;
    }

    /**
     * `gainExp`: this player gains `floor(amount * expMultiplier)`; in a
     * two-player game a living partner gains `floor(amount * its own
     * multiplier)`. Each levels up at most once.
     */
    method GainExp(amount: real, game: Game)
      modifies this`level, this`exp, this`maxExp, game`state
      modifies game.SharedWith(this)`level, game.SharedWith(this)`exp, game.SharedWith(this)`maxExp
      ensures var other := old(game.Partner(this));
        && (old(game.SharesWith(this)) ==>
              other.Standing() == Gain(old(other.Standing()), (amount * old(other.expMultiplier)).Floor))
      ensures Standing() == Gain(old(Standing()), (amount * old(expMultiplier)).Floor)
      ensures game.state == (if Standing().level > old(level) || (old(game.SharesWith(this)) && old(game.Partner(this)).level > old(game.Partner(this).level))
                             then LevelUpScreen else old(game.state))
    {
      var shares := game.SharesWith(this);
      var gained := (amount * expMultiplier).Floor;
      exp := exp + gained;
      if shares {
        var other := game.Partner(this);
        other.exp := other.exp + (amount * other.expMultiplier).Floor;
        if other.exp >= other.maxExp {
          other.LevelUp(game);
        }
      }
      if exp >= maxExp {
        LevelUp(game);
      }
    }

    /**
     * `gainGold`: this player gains `floor(amount * goldMultiplier)`, and in a
     * two-player game a living partner gains the same amount.
     */
    method GainGold(amount: real, game: Game) returns (gained: int)
      modifies this`gold, game.SharedWith(this)`gold
      ensures gained == (amount * old(goldMultiplier)).Floor
      ensures gold == old(gold) + gained
      ensures old(game.SharesWith(this)) ==> old(game.Partner(this)).gold == old(game.Partner(this).gold) + gained
    {
      gained := (amount * goldMultiplier).Floor;
      gold := gold + gained;
      if game.SharesWith(this) {
        var other := game.Partner(this);
        other.gold := other.gold + gained;
      }
    }

    /** `addWeapon`. */
    method AddWeapon(weaponId: string)
      modifies this`weapons
      ensures weapons == Added(old(weapons), maxWeapons, weaponId)
      ensures |old(weapons)| <= maxWeapons ==> |weapons| <= maxWeapons
    {
      AddedSize(weapons, maxWeapons, weaponId);
      var found := FindId(weapons, weaponId);
      match found {
        case Some(i) =>
          if weapons[i].BelowMax() {
            weapons := weapons[i := weapons[i].(level := weapons[i].level + 1)];
            CheckWeaponEvolution(i);
          }
        case None =>
          if |weapons| < maxWeapons {
            weapons := weapons + [Equip(Some(weaponId), 1)];
          }
      }
    }

    /** `checkWeaponEvolution(weapons[i])`. */
    method CheckWeaponEvolution(i: nat)
      requires i < |weapons|
      modifies this`weapons
      ensures weapons == AfterEvolution(old(weapons), i)
    {
      var w := weapons[i];
      if w.AtMax() && w.evolvesWith.Some? {
        var partner := PartnerOf(weapons, w);
        if partner.Some? {
          EvolveWeapon(w, weapons[partner.value]);
        }
      }
    }

    /** `evolveWeapon`. */
    method EvolveWeapon(w1: Weapon, w2: Weapon)
      modifies this`weapons
      ensures weapons == Evolve(old(weapons), w1, w2)
    {
      weapons := Without(weapons, w1.id, w2.id);
      weapons := weapons + [Equip(w1.evolvesTo, 1)];
    }
  }

  /** The value `levelUp` gives `game.state`. */
  const LevelUpScreen := "levelup"

  /** What a dropped item is: `'gold'`, `'buff'` or `'item'`. */
  datatype DropKind = GoldDrop | BuffDrop | ItemDrop

  /** The kind of each enemy `new Enemy(x, y, type)` makes. */
  datatype EnemyType = Normal | Fast | Tank | Elite | Boss

  /** An enemy; its strength, which depends on the wave number, is not part of this model. */
  datatype Enemy = Enemy(x: real, y: real, kind: EnemyType)

  class DroppedItem {
    const kind: DropKind
    const value: real
    const spawnTime: int
    var collected: bool

    constructor(kind0: DropKind, value0: real, now: int)
      ensures kind == kind0 && value == value0 && spawnTime == now && !collected
    {
      kind, value, spawnTime := kind0, value0, now;
      collected := false;
    }

    /** `isDead`: collected, or older than the despawn time. */
    predicate IsDead(now: int, despawnTime: int): (dead: bool)
      reads this
      ensures collected ==> dead
      ensures now <= spawnTime + despawnTime ==> (dead <==> collected)
    {
      collected || now - spawnTime > despawnTime
    }

    /** An item dead at one time is dead at every later time. */
    lemma StaysDead(now: int, later: int, despawnTime: int)
      requires now <= later && IsDead(now, despawnTime)
      ensures IsDead(later, despawnTime)
    {
    }

    /**
     * `pickup`: takes effect once. The first call marks the item
     * collected and pays a gold drop's value through `gainGold`; any later
     * call changes nothing.
     */
    method Pickup(player: Player, game: Game)
      modifies this`collected, player`gold, game.SharedWith(player)`gold
      ensures collected
      ensures forall now, t :: IsDead(now, t)
      ensures old(collected) ==> player.gold == old(player.gold)
      ensures !old(collected) && kind == GoldDrop ==> player.gold == old(player.gold) + (value * old(player.goldMultiplier)).Floor
      ensures !old(collected) && kind != GoldDrop ==> player.gold == old(player.gold)
      ensures old(game.SharesWith(player)) ==> var other := old(game.Partner(player));
        other.gold == old(other.gold) + (if !old(collected) && kind == GoldDrop then (value * old(player.goldMultiplier)).Floor else 0)
    {
      if collected {
        return;
      }
      collected := true;
      if kind == GoldDrop {
        var _ := player.GainGold(value, game);
      }
    }
  }

  /** The fields of `game` the player rules read and write. */
  class Game {
    var state: string
    var playerCount: int
    var player: Player?
    var player2: Player?
    var enemies: seq<Enemy>
    var killCount: int
    var gameTime: real
    var selectedClass: string

    constructor(p: Player)
      ensures state == "playing" && playerCount == 1 && player == p && player2 == null
      ensures enemies == [] && killCount == 0 && gameTime == 0.0
    {
      state, playerCount, player, player2 := "playing", 1, p, null;
      enemies, killCount, gameTime, selectedClass := [], 0, 0.0, "";
    }

    /** `(this === game.player) ? game.player2 : game.player`. */
    function Partner(p: Player): Player?
      reads this
    {
      if p == player then player2 else player
    }

    /** The partner `gainExp` and `gainGold` also pay: the other player when `p` shares with it, else nobody. */
    function SharedWith(p: Player): set<Player?>
      reads this, Partner(p)
    {
      if SharesWith(p) then {Partner(p)} else {}
    }

    /** A two-player game whose other player exists, is alive and is not `p`. */
    predicate SharesWith(p: Player)
      reads this, Partner(p)
    {
      playerCount == 2 && Partner(p) != null && Partner(p).health > 0.0 && Partner(p) != p
    }
  }
}
