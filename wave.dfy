/**
 * The wave system of `js/wave.js`: a wave's size, spawning one enemy per
 * tick at a fixed interval with the elite and the boss last, and the break
 * between waves. Time is the `now` each call receives; the spawn position
 * and the random draw of an ordinary enemy's kind are parameters too.
 */
module Wave {
  import opened Entities

  /** The `wave` section of `CONFIG` in `js/config.js`. */
  const BaseEnemyCount := 5
  const EnemyIncrement := 2
  const TimeBetweenSpawns := 800
  const TimeBetweenWaves := 3000
  const BossWaveInterval := 10
  /** The extra enemies of a boss wave. */
  const BossWaveBonus := 5

  /** The `game.state` a completed wave shows. */
  const WaveCompleteScreen := "waveComplete"

  predicate IsBossWave(current: int) { current % BossWaveInterval == 0 }

  /** Enemies in wave `current`. */
  function WaveSize(current: int): (n: int)
    ensures current >= 1 ==> n >= BaseEnemyCount
    ensures n == BaseEnemyCount + (current - 1) * EnemyIncrement + (if IsBossWave(current) then BossWaveBonus else 0)
  {
    var n := BaseEnemyCount + (current - 1) * EnemyIncrement;
    if IsBossWave(current) then n + BossWaveBonus else n
  }

  /** `normalEnemiesNeeded`: the position of the elite, after every ordinary enemy and before the boss. */
  function EliteIndex(current: int, total: int): int {
    total - (if IsBossWave(current) then 1 else 0) - 1
  }

  /**
   * The kinds spawned so far in a wave of `total`: the elite exactly at
   * `EliteIndex`, the boss exactly at the last place of a boss wave, and
   * ordinary kinds everywhere else.
   */
  ghost predicate SpawnOrder(spawned: seq<EnemyType>, current: int, total: int) {
    forall k :: 0 <= k < |spawned| ==>
      && (spawned[k] == Elite <==> k == EliteIndex(current, total))
      && (spawned[k] == Boss <==> IsBossWave(current) && k == total - 1)
  }

  /** The draw `rand` picks an ordinary kind: tank above 0.85, fast above 0.7. */
  function DrawKind(rand: real): (t: EnemyType)
    ensures t in {Normal, Fast, Tank}
  {
    if rand > 0.85 then Tank else if rand > 0.7 then Fast else Normal
  }

  /** A finished wave holds exactly one elite and, exactly on boss waves, one boss, in the last places. */
  lemma FullWave(spawned: seq<EnemyType>, current: int)
    requires current >= 1 && |spawned| == WaveSize(current) && SpawnOrder(spawned, current, WaveSize(current))
    ensures var total := WaveSize(current);
      && (IsBossWave(current) ==> spawned[total - 2] == Elite && spawned[total - 1] == Boss)
      && (!IsBossWave(current) ==> spawned[total - 1] == Elite && Boss !in spawned)
      && multiset(spawned)[Elite] == 1
  {
    var total := WaveSize(current);
    var e := EliteIndex(current, total);
    assert spawned == spawned[..e] + [Elite] + spawned[e + 1..];
    assert Elite !in spawned[..e];
    assert Elite !in spawned[e + 1..];
    if !IsBossWave(current) {
      assert forall k :: 0 <= k < |spawned| ==> spawned[k] != Boss;
    }
  }

  /** The state of `game.wave`. `spawned` records, for the proofs, the kinds spawned in the current wave. */
  class WaveState {
    var current: int
    var enemiesRemaining: int
    var enemiesSpawned: int
    var totalEnemies: int
    var lastSpawnTime: int
    var isSpawning: bool
    var eliteSpawned: bool
    var bossSpawned: bool
    var waveStartTime: int
    var inBreak: bool
    ghost var spawned: seq<EnemyType>

    /**
     * What the wave code keeps: the wave number is positive, never more than
     * the wave's enemies are spawned, and those spawned so far are in order,
     * with the two flags recording whether the elite and the boss are among them.
     */
    ghost predicate Valid()
      reads this
    {
      && current >= 1
      && 0 <= enemiesSpawned <= totalEnemies
      && (totalEnemies == 0 || totalEnemies == WaveSize(current))
      && |spawned| == enemiesSpawned
      && SpawnOrder(spawned, current, totalEnemies)
      && (eliteSpawned <==> Elite in spawned)
      && (bossSpawned <==> Boss in spawned)
    }

    /** The initial `game.wave` of `js/main.js`, or the one a loaded game starts from, at wave `first`. */
    constructor(first: int)
      ensures first >= 1 ==> Valid()
      ensures current == first && enemiesRemaining == 0 && enemiesSpawned == 0 && totalEnemies == 0
      ensures lastSpawnTime == 0 && !isSpawning && !eliteSpawned && !bossSpawned && waveStartTime == 0 && !inBreak
    {
      current, enemiesRemaining, enemiesSpawned, totalEnemies := first, 0, 0, 0;
      lastSpawnTime, isSpawning, eliteSpawned, bossSpawned, waveStartTime, inBreak := 0, false, false, false, 0, false;
      spawned := [];
    }

    /** A wave just started at `now`: its full size to spawn, nothing spawned yet. */
    ghost predicate Started(now: int)
      reads this
    {
      && isSpawning && !inBreak && !eliteSpawned && !bossSpawned
      && enemiesSpawned == 0 && spawned == [] && waveStartTime == now
      && totalEnemies == WaveSize(current) && enemiesRemaining == totalEnemies
    }

    /** `startNewWave`. */
    method StartNewWave(now: int)
      modifies this
      ensures Started(now) && (current >= 1 ==> Valid())
      ensures current == old(current) && lastSpawnTime == old(lastSpawnTime)
    {
      isSpawning := true;
      inBreak := false;
      eliteSpawned := false;
      bossSpawned := false;
      enemiesSpawned := 0;
      spawned := [];
      waveStartTime := now;
      totalEnemies := BaseEnemyCount + (current - 1) * EnemyIncrement;
      enemiesRemaining := totalEnemies;
      if current % BossWaveInterval == 0 {
        totalEnemies := totalEnemies + BossWaveBonus;
        enemiesRemaining := totalEnemies;
      }
    }

    /** The kind the next spawn takes, given the draw for an ordinary enemy. */
    function NextKind(rand: real): EnemyType
      reads this
    {
      if enemiesSpawned >= EliteIndex(current, totalEnemies) && !eliteSpawned then Elite
      else if IsBossWave(current) && enemiesSpawned >= totalEnemies - 1 && !bossSpawned then Boss
      else DrawKind(rand)
    }

    /** The next spawn keeps the order: elite at its index, boss last, ordinary kinds between. */
    lemma NextKindInOrder(rand: real)
      requires Valid() && enemiesSpawned < totalEnemies
      ensures SpawnOrder(spawned + [NextKind(rand)], current, totalEnemies)
      ensures (NextKind(rand) == Elite) == (enemiesSpawned == EliteIndex(current, totalEnemies))
      ensures (NextKind(rand) == Boss) == (IsBossWave(current) && enemiesSpawned == totalEnemies - 1)
    {
      var k := enemiesSpawned;
      var e := EliteIndex(current, totalEnemies);
      if k > e && e >= 0 {
        assert spawned[e] == Elite;
      }
      if IsBossWave(current) && eliteSpawned {
        assert spawned[e] == Elite;
      }
      var s := spawned + [NextKind(rand)];
      forall j | 0 <= j < |s|
        ensures (s[j] == Elite <==> j == e) && (s[j] == Boss <==> IsBossWave(current) && j == totalEnemies - 1)
      {
        if j < |spawned| {
          assert s[j] == spawned[j];
        }
      }
    }

    /**
     * `updateWaveSpawning` at time `now`. In a break, once it has lasted
     * `TimeBetweenWaves` the next wave starts. While spawning, a finished wave
     * stops spawning; otherwise, once `TimeBetweenSpawns` has passed since the
     * last spawn, one enemy of kind `NextKind(rand)` joins `game.enemies` at
     * `(x, y)`. Nothing else changes.
     */
    method UpdateWaveSpawning(game: Game, now: int, x: real, y: real, rand: real)
      requires Valid()
      modifies this, game`enemies
      ensures Valid()
      ensures old(inBreak) ==>
        if now - old(waveStartTime) >= TimeBetweenWaves then
          current == old(current) + 1 && Started(now) && lastSpawnTime == old(lastSpawnTime) && game.enemies == old(game.enemies)
        else unchanged(this) && game.enemies == old(game.enemies)
      ensures !old(inBreak) && (!old(isSpawning) || (old(enemiesSpawned) < old(totalEnemies) && now - old(lastSpawnTime) < TimeBetweenSpawns)) ==>
        unchanged(this) && game.enemies == old(game.enemies)
      ensures !old(inBreak) && old(isSpawning) && old(enemiesSpawned) >= old(totalEnemies) ==>
        !isSpawning && game.enemies == old(game.enemies) && enemiesSpawned == old(enemiesSpawned)
        && current == old(current) && totalEnemies == old(totalEnemies) && spawned == old(spawned)
        && lastSpawnTime == old(lastSpawnTime) && !inBreak && waveStartTime == old(waveStartTime)
        && enemiesRemaining == old(enemiesRemaining) && eliteSpawned == old(eliteSpawned) && bossSpawned == old(bossSpawned)
      ensures !old(inBreak) && old(isSpawning) && old(enemiesSpawned) < old(totalEnemies) && now - old(lastSpawnTime) >= TimeBetweenSpawns ==>
        && game.enemies == old(game.enemies) + [Enemy(x, y, old(NextKind(rand)))]
        && enemiesSpawned == old(enemiesSpawned) + 1 && spawned == old(spawned) + [old(NextKind(rand))]
        && lastSpawnTime == now && isSpawning && !inBreak
        && current == old(current) && totalEnemies == old(totalEnemies)
        && waveStartTime == old(waveStartTime) && enemiesRemaining == old(enemiesRemaining)
    {
      if inBreak {
        if now - waveStartTime >= TimeBetweenWaves {
          current := current + 1;
          StartNewWave(now);
        }
        return;
      }
      if !isSpawning {
        return;
      }
      if enemiesSpawned >= totalEnemies {
        isSpawning := false;
        return;
      }
      if now - lastSpawnTime < TimeBetweenSpawns {
        return;
      }
      Spawn(game, now, x, y, rand);
    }

    /** One spawn: the kind, its flag, the enemy, the counter and the time. */
    method Spawn(game: Game, now: int, x: real, y: real, rand: real)
      requires Valid() && isSpawning && !inBreak && enemiesSpawned < totalEnemies
      modifies this, game`enemies
      ensures Valid()
      ensures game.enemies == old(game.enemies) + [Enemy(x, y, old(NextKind(rand)))]
      ensures enemiesSpawned == old(enemiesSpawned) + 1 && spawned == old(spawned) + [old(NextKind(rand))]
      ensures lastSpawnTime == now && isSpawning && !inBreak
      ensures current == old(current) && totalEnemies == old(totalEnemies)
      ensures waveStartTime == old(waveStartTime) && enemiesRemaining == old(enemiesRemaining)
    {
      NextKindInOrder(rand);
      var normalEnemiesNeeded := totalEnemies - (if current % BossWaveInterval == 0 then 1 else 0) - 1;
      var kind := DrawKind(rand);
      if enemiesSpawned >= normalEnemiesNeeded && !eliteSpawned {
        kind := Elite;
        eliteSpawned := true;
      } else if current % BossWaveInterval == 0 && enemiesSpawned >= totalEnemies - 1 && !bossSpawned {
        kind := Boss;
        bossSpawned := true;
      }
      game.enemies := game.enemies + [Enemy(x, y, kind)];
      spawned := spawned + [kind];
      enemiesSpawned := enemiesSpawned + 1;
      lastSpawnTime := now;
    }

    /**
     * `checkWaveComplete`: the break starts, at `now` and with the
     * wave-complete screen, exactly when the wave is neither spawning nor in
     * a break, every enemy is spawned and none is left alive.
     */
    method CheckWaveComplete(game: Game, now: int)
      requires Valid()
      modifies this`inBreak, this`waveStartTime, game`state
      ensures Valid()
      ensures var done := !old(isSpawning) && !old(inBreak) && |game.enemies| == 0 && enemiesSpawned >= totalEnemies;
        && (done ==> inBreak && waveStartTime == now && game.state == WaveCompleteScreen)
        && (!done ==> inBreak == old(inBreak) && waveStartTime == old(waveStartTime) && game.state == old(game.state))
    {
      if isSpawning || inBreak {
        return;
      }
      if |game.enemies| == 0 && enemiesSpawned >= totalEnemies {
        inBreak := true;
        waveStartTime := now;
        game.state := WaveCompleteScreen;
      }
    }
  }
}
