/** One tick of the whole game: the player's update, every enemy's update
    with the dead ones removed and scored, the spawn clock, and the end of
    the run. */
module GameRules {
  import opened Settings
  import opened EnemyRules
  import opened PlayerRules

  /** The state of a game. `nextId` is the id the next spawned enemy gets. */
  datatype World = World(
    player: PlayerState, foes: seq<Foe>,
    spawnTimer: int, score: int, running: bool, nextId: nat)

  /** The world a new game starts from: the player in the middle of the
      screen, no enemies. */
  function NewWorld(): World {
    World(NewPlayer(SCREEN_WIDTH / 2, SCREEN_HEIGHT / 2), [], 0, 0, true, 0)
  }

  // ---------------------------------------------------------------------
  // Spawning

  /** The screen edge a new enemy comes from. */
  datatype Side = Top | Right | Bottom | Left

  /** The two random draws of `spawn_enemy`: the side, and the coordinate
      along it. */
  datatype Spawn = Spawn(side: Side, offset: int)

  function EdgeLength(side: Side): int {
    if side == Top || side == Bottom then SCREEN_WIDTH - ENEMY_WIDTH else SCREEN_HEIGHT - ENEMY_HEIGHT
  }

  /** The range the random coordinate is drawn from. */
  predicate ValidSpawn(s: Spawn) {
    0 <= s.offset <= EdgeLength(s.side)
  }

  /** The enemy's box at (x, y) shares some interior with the screen. */
  predicate OverlapsScreen(x: int, y: int) {
    x < SCREEN_WIDTH && 0 < x + ENEMY_WIDTH && y < SCREEN_HEIGHT && 0 < y + ENEMY_HEIGHT
  }

  /** The enemy's box at (x, y) touches the screen, boundary included. */
  predicate TouchesScreen(x: int, y: int) {
    x <= SCREEN_WIDTH && 0 <= x + ENEMY_WIDTH && y <= SCREEN_HEIGHT && 0 <= y + ENEMY_HEIGHT
  }

  /** The enemy's box lies wholly beside one side of the screen. */
  predicate AlongAnEdge(x: int, y: int) {
    (0 <= x && x + ENEMY_WIDTH <= SCREEN_WIDTH) || (0 <= y && y + ENEMY_HEIGHT <= SCREEN_HEIGHT)
  }

  /** The position `spawn_enemy` places a new enemy at: just outside the
      screen, its box against the border and wholly beside one side. */
  function SpawnPosition(s: Spawn): (pos: (int, int))
    requires ValidSpawn(s)
    ensures !OverlapsScreen(pos.0, pos.1)
    ensures TouchesScreen(pos.0, pos.1)
    ensures AlongAnEdge(pos.0, pos.1)
  {
    match s.side
    case Top => (s.offset, -ENEMY_HEIGHT)
    case Right => (SCREEN_WIDTH, s.offset)
    case Bottom => (s.offset, SCREEN_HEIGHT)
    case Left => (-ENEMY_WIDTH, s.offset)
  }

  /** Conversely, every such position is one `spawn_enemy` can choose. */
  lemma EverySpawnSiteReachable(x: int, y: int)
    requires !OverlapsScreen(x, y) && TouchesScreen(x, y) && AlongAnEdge(x, y)
    ensures exists s :: ValidSpawn(s) && SpawnPosition(s) == (x, y)
  {
    var s :=
      if 0 <= x && x + ENEMY_WIDTH <= SCREEN_WIDTH then
        (if y == SCREEN_HEIGHT then Spawn(Bottom, x) else Spawn(Top, x))
      else
        (if x == SCREEN_WIDTH then Spawn(Right, y) else Spawn(Left, y));
    assert ValidSpawn(s) && SpawnPosition(s) == (x, y);
  }

  /** The spawn clock: counts ticks, and on reaching SPAWN_INTERVAL asks for
      a spawn and starts again from zero. */
  function SpawnClock(t: int): (r: (int, bool)) {
    if t + 1 >= SPAWN_INTERVAL then (0, true) else (t + 1, false)
  }

  /** How many spawns `n` ticks of the clock ask for, from `t`, and where the
      clock ends. */
  function SpawnsOver(t: int, n: nat): (r: (int, nat))
    decreases n
  {
    if n == 0 then (t, 0)
    else
      var (t', spawned) := SpawnClock(t);
      var rest := SpawnsOver(t', n - 1);
      (rest.0, rest.1 + if spawned then 1 else 0)
  }

  /** From a clock in range, `n` ticks produce one spawn per completed
      interval, neither more nor fewer. */
  lemma {:induction false} SpawnCadence(t: int, n: nat)
    requires 0 <= t < SPAWN_INTERVAL
    ensures SpawnsOver(t, n).1 == (t + n) / SPAWN_INTERVAL
    ensures SpawnsOver(t, n).0 == (t + n) % SPAWN_INTERVAL
    decreases n
  {
    if n > 0 {
      var (t', spawned) := SpawnClock(t);
      SpawnCadence(t', n - 1);
      if spawned {
        assert t + 1 == SPAWN_INTERVAL;
        assert (t + n) / SPAWN_INTERVAL == 1 + (n - 1) / SPAWN_INTERVAL;
        assert (t + n) % SPAWN_INTERVAL == (n - 1) % SPAWN_INTERVAL;
      }
    }
  }

  // ---------------------------------------------------------------------
  // The enemies' pass

  /** The result of the enemies' pass over the list: the enemies still in
      it, the player's health, and how many were removed. */
  datatype Pass = Pass(survivors: seq<Foe>, playerHealth: int, removed: nat)

  /** The loop of `Game.update` over the enemies, in list order: each enemy
      updates (and may hit the player); one that is not alive afterwards is
      removed from the list. */
  function EnemyPass(foes: seq<Foe>, playerHealth: int, inRange: set<nat>): (r: Pass)
    ensures r.removed + |r.survivors| == |foes|
    ensures r.playerHealth <= playerHealth
    ensures forall e :: e in r.survivors ==> e.alive
    decreases |foes|
  {
    if foes == [] then Pass([], playerHealth, 0)
    else Advance(EnemyPass(foes[..|foes| - 1], playerHealth, inRange), foes[|foes| - 1], inRange)
  }

  /** The pass extended by one more enemy: it updates, then is kept or
      counted as removed. */
  function Advance(pass: Pass, f: Foe, inRange: set<nat>): Pass {
    var (e, h') := EnemyTick(f, pass.playerHealth, f.id in inRange);
    if e.alive then Pass(pass.survivors + [e], h', pass.removed)
    else Pass(pass.survivors, h', pass.removed + 1)
  }

  /** The live enemies, in order. */
  function Living(foes: seq<Foe>): (r: seq<Foe>)
    ensures |r| <= |foes|
    ensures forall e :: e in r <==> e in foes && e.alive
    decreases |foes|
  {
    if foes == [] then []
    else if foes[0].alive then [foes[0]] + Living(foes[1..])
    else Living(foes[1..])
  }

  /** Every enemy after its own update, in the same order: each keeps its
      id, health and liveness, and only its attack cooldown moves. */
  function UpdatedAll(foes: seq<Foe>, inRange: set<nat>): (r: seq<Foe>)
    ensures |r| == |foes|
    ensures forall i :: 0 <= i < |foes| ==> r[i] == Ticked(foes[i], foes[i].id in inRange)
    ensures forall i :: 0 <= i < |foes| ==> r[i] == foes[i].(attackCooldown := r[i].attackCooldown)
    decreases |foes|
  {
    if foes == [] then []
    else [Ticked(foes[0], foes[0].id in inRange)] + UpdatedAll(foes[1..], inRange)
  }

  /** Updating one more enemy adds its update at the end. */
  lemma UpdatedAllAppend(foes: seq<Foe>, e: Foe, inRange: set<nat>)
    ensures UpdatedAll(foes + [e], inRange) == UpdatedAll(foes, inRange) + [Ticked(e, e.id in inRange)]
  {
    var longer := foes + [e];
    assert forall i :: 0 <= i < |foes| ==> longer[i] == foes[i];
  }

  /** How many enemies strike the player this tick. */
  function Attackers(foes: seq<Foe>, inRange: set<nat>): nat
    decreases |foes|
  {
    if foes == [] then 0
    else (if Attacks(foes[0], foes[0].id in inRange) then 1 else 0) + Attackers(foes[1..], inRange)
  }

  lemma {:induction false} LivingAppend(foes: seq<Foe>, e: Foe)
    ensures Living(foes + [e]) == Living(foes) + if e.alive then [e] else []
    decreases |foes|
  {
    if foes != [] {
      assert (foes + [e])[1..] == foes[1..] + [e];
      LivingAppend(foes[1..], e);
    }
  }

  lemma {:induction false} AttackersAppend(foes: seq<Foe>, e: Foe, inRange: set<nat>)
    ensures Attackers(foes + [e], inRange) == Attackers(foes, inRange) + if Attacks(e, e.id in inRange) then 1 else 0
    decreases |foes|
  {
    if foes != [] {
      assert (foes + [e])[1..] == foes[1..] + [e];
      AttackersAppend(foes[1..], e, inRange);
    }
  }

  /** The pass removes exactly the enemies that are not alive, keeps the
      others in their order (each after its update), scores one removal per
      dead enemy, and costs the player ENEMY_ATTACK_DAMAGE per attacker. */
  lemma {:induction false} PassRemovesExactlyTheDead(foes: seq<Foe>, playerHealth: int, inRange: set<nat>)
    ensures EnemyPass(foes, playerHealth, inRange).survivors == UpdatedAll(Living(foes), inRange)
    ensures EnemyPass(foes, playerHealth, inRange).removed == |foes| - |Living(foes)|
    ensures EnemyPass(foes, playerHealth, inRange).playerHealth ==
      playerHealth - ENEMY_ATTACK_DAMAGE * Attackers(foes, inRange)
    decreases |foes|
  {
    if foes != [] {
      var init := foes[..|foes| - 1];
      var last := foes[|foes| - 1];
      assert foes == init + [last];
      PassRemovesExactlyTheDead(init, playerHealth, inRange);
      LivingAppend(init, last);
      AttackersAppend(init, last, inRange);
      var ticked := Ticked(last, last.id in inRange);
      assert EnemyTick(last, EnemyPass(init, playerHealth, inRange).playerHealth, last.id in inRange).0 == ticked;
      if last.alive {
        UpdatedAllAppend(Living(init), last, inRange);
      }
    }
  }

  // ---------------------------------------------------------------------
  // The tick

  /** The player's part of a tick: it moves, and its punch animates and
      lands on the enemies. */
  function PlayerStage(w: World, keys: Keys, touching: set<nat>): World {
    var (p, foes) := PlayerTick(w.player, keys, w.foes, touching);
    w.(player := p, foes := foes)
  }

  /** The enemies' part: each updates in list order and may strike the
      player; the dead leave the list and score KILL_SCORE each. */
  function EnemyStage(w: World, inRange: set<nat>): World {
    var pass := EnemyPass(w.foes, w.player.health, inRange);
    w.(player := w.player.(health := pass.playerHealth), foes := pass.survivors,
       score := w.score + KILL_SCORE * pass.removed)
  }

  /** The spawn clock's part: a tick passes and, when the interval is up, an
      enemy with the next id joins the end of the list. */
  function SpawnStage(w: World, spawn: Spawn): World
    requires ValidSpawn(spawn)
  {
    var (timer, spawning) := SpawnClock(w.spawnTimer);
    var (x, y) := SpawnPosition(spawn);
    if spawning then w.(foes := w.foes + [Spawned(w.nextId, x, y)], spawnTimer := timer, nextId := w.nextId + 1)
    else w.(spawnTimer := timer)
  }

  /** The end of the run: a player with no health left stops the game. */
  function OverStage(w: World): World {
    if w.player.health <= 0 then w.(running := false) else w
  }

  /** `Game.update`: the player updates (and punches), the enemies' pass
      runs and scores KILL_SCORE per removed enemy, the spawn clock ticks
      and may add one enemy at the end of the list, and the run ends once
      the player's health is zero or below. */
  function GameStep(w: World, keys: Keys, touching: set<nat>, inRange: set<nat>, spawn: Spawn): World
    requires ValidSpawn(spawn)
  {
    OverStage(SpawnStage(EnemyStage(PlayerStage(w, keys, touching), inRange), spawn))
  }

  /** The events the game handles before each tick: the punch key pressed,
      the window closed. */
  datatype Events = Events(punch: bool, quit: bool)

  /** One frame of the game loop: `handle_events`, then `Game.update`. */
  function GameFrame(w: World, events: Events, keys: Keys, touching: set<nat>, inRange: set<nat>, spawn: Spawn): World
    requires ValidSpawn(spawn)
  {
    GameStep(Handled(w, events), keys, touching, inRange, spawn)
  }

  /** `handle_events`: a quit event stops the loop, a space press asks the
      player to punch. */
  function Handled(w: World, events: Events): World {
    var quitting := if events.quit then w.(running := false) else w;
    if events.punch then quitting.(player := Punched(quitting.player)) else quitting
  }

  /** What one tick does to the world. The enemies after the player's
      update are `punched`; of them exactly the dead are removed, each for
      KILL_SCORE points, and the survivors keep their order. The player's
      health drops by ENEMY_ATTACK_DAMAGE per attacker and nothing else of
      the player is touched by the enemies. At most one enemy is added, at
      the end, exactly when the spawn clock fires. A run that has ended stays
      ended, and one that goes on has a player with positive health. */
  lemma StepAccounting(w: World, keys: Keys, touching: set<nat>, inRange: set<nat>, spawn: Spawn)
    requires ValidSpawn(spawn)
    ensures var (p, punched) := PlayerTick(w.player, keys, w.foes, touching);
      var r := GameStep(w, keys, touching, inRange, spawn);
      var survivors := UpdatedAll(Living(punched), inRange);
      r.score == w.score + KILL_SCORE * (|punched| - |Living(punched)|) &&
      r.player == p.(health := p.health - ENEMY_ATTACK_DAMAGE * Attackers(punched, inRange)) &&
      r.foes[..|survivors|] == survivors &&
      (SpawnClock(w.spawnTimer).1 ==>
        r.foes == survivors + [Spawned(w.nextId, SpawnPosition(spawn).0, SpawnPosition(spawn).1)]) &&
      (!SpawnClock(w.spawnTimer).1 ==> r.foes == survivors) &&
      |r.foes| <= |w.foes| + 1 &&
      r.spawnTimer == SpawnClock(w.spawnTimer).0 &&
      (r.running <==> w.running && r.player.health > 0)
  {
    var (p, punched) := PlayerTick(w.player, keys, w.foes, touching);
    var mid := PlayerStage(w, keys, touching);
    assert mid.player == p && mid.foes == punched;
    AfterPlayerStage(mid, inRange, spawn);
  }

  /** The accounting of a tick from the end of the player's stage on. */
  lemma AfterPlayerStage(mid: World, inRange: set<nat>, spawn: Spawn)
    requires ValidSpawn(spawn)
    ensures var r := OverStage(SpawnStage(EnemyStage(mid, inRange), spawn));
      var survivors := UpdatedAll(Living(mid.foes), inRange);
      r.score == mid.score + KILL_SCORE * (|mid.foes| - |Living(mid.foes)|) &&
      r.player == mid.player.(health := mid.player.health - ENEMY_ATTACK_DAMAGE * Attackers(mid.foes, inRange)) &&
      r.foes[..|survivors|] == survivors &&
      (SpawnClock(mid.spawnTimer).1 ==>
        r.foes == survivors + [Spawned(mid.nextId, SpawnPosition(spawn).0, SpawnPosition(spawn).1)]) &&
      (!SpawnClock(mid.spawnTimer).1 ==> r.foes == survivors) &&
      |r.foes| <= |mid.foes| + 1 &&
      r.spawnTimer == SpawnClock(mid.spawnTimer).0 &&
      (r.running <==> mid.running && r.player.health > 0)
  {
    var survivors := UpdatedAll(Living(mid.foes), inRange);
    var after := EnemyStage(mid, inRange);
    PassRemovesExactlyTheDead(mid.foes, mid.player.health, inRange);
    assert after.foes == survivors;
    SpawnAndOver(after, spawn);
  }

  /** The spawn clock and the end-of-run test: the enemies are kept as a
      prefix, and at most one is added, at the end, when the clock fires. */
  lemma SpawnAndOver(w: World, spawn: Spawn)
    requires ValidSpawn(spawn)
    ensures var r := OverStage(SpawnStage(w, spawn));
      r.score == w.score &&
      r.player == w.player &&
      r.foes[..|w.foes|] == w.foes &&
      (SpawnClock(w.spawnTimer).1 ==>
        r.foes == w.foes + [Spawned(w.nextId, SpawnPosition(spawn).0, SpawnPosition(spawn).1)]) &&
      (!SpawnClock(w.spawnTimer).1 ==> r.foes == w.foes) &&
      r.spawnTimer == SpawnClock(w.spawnTimer).0 &&
      (r.running <==> w.running && r.player.health > 0)
  {
    var r := OverStage(SpawnStage(w, spawn));
    if SpawnClock(w.spawnTimer).1 {
      assert r.foes[..|w.foes|] == w.foes;
    }
  }

  // ---------------------------------------------------------------------
  // The world invariant

  predicate DistinctIds(foes: seq<Foe>) {
    forall i, j {:trigger IdsDiffer(foes, i, j)} :: 0 <= i < j < |foes| ==> IdsDiffer(foes, i, j)
  }

  /** Entries `i` and `j` carry different ids. */
  predicate IdsDiffer(foes: seq<Foe>, i: int, j: int)
    requires 0 <= i < |foes| && 0 <= j < |foes|
  {
    foes[i].id != foes[j].id
  }

  /** An enemy in the list between ticks: alive with health in
      (0, ENEMY_MAX_HEALTH] and its cooldown in [0, ENEMY_ATTACK_COOLDOWN). */
  predicate SoundFoe(e: Foe) {
    e.alive && 0 < e.health <= ENEMY_MAX_HEALTH && 0 <= e.attackCooldown < ENEMY_ATTACK_COOLDOWN
  }

  /** What holds of a game between ticks. */
  predicate Invariant(w: World) {
    OnScreen(w.player) && PunchConsistent(w.player) &&
    0 <= w.spawnTimer < SPAWN_INTERVAL &&
    DistinctIds(w.foes) &&
    (forall e :: e in w.foes ==> e.id < w.nextId && SoundFoe(e))
  }

  lemma NewWorldInvariant()
    ensures Invariant(NewWorld())
  {
  }

  lemma {:induction false} LivingKeepsDistinct(foes: seq<Foe>)
    requires DistinctIds(foes)
    ensures DistinctIds(Living(foes))
    decreases |foes|
  {
    if foes != [] {
      var tail := foes[1..];
      forall i, j | 0 <= i < j < |tail| ensures IdsDiffer(tail, i, j) {
        assert IdsDiffer(foes, i + 1, j + 1);
      }
      LivingKeepsDistinct(tail);
      if foes[0].alive {
        var rest := Living(tail);
        var r := Living(foes);
        assert r == [foes[0]] + rest;
        forall i, j | 0 <= i < j < |r| ensures IdsDiffer(r, i, j) {
          if i == 0 {
            assert rest[j - 1] in tail;
            var k :| 0 <= k < |tail| && tail[k] == rest[j - 1];
            assert IdsDiffer(foes, 0, k + 1);
          } else {
            assert IdsDiffer(rest, i - 1, j - 1);
          }
        }
      }
    }
  }

  /** Handling the events keeps the invariant. */
  lemma HandledKeepsInvariant(w: World, events: Events)
    requires Invariant(w)
    ensures Invariant(Handled(w, events))
  {
  }

  /** After the player's punch, every live enemy is still sound. */
  lemma PunchedLivingSound(before: seq<Foe>, punched: seq<Foe>, bound: nat)
    requires |punched| == |before|
    requires forall i :: 0 <= i < |before| ==> punched[i] == before[i] || punched[i] == Damaged(before[i], PUNCH_DAMAGE)
    requires forall e :: e in before ==> e.id < bound && SoundFoe(e)
    ensures forall e :: e in Living(punched) ==> e.id < bound && SoundFoe(e)
  {
    forall e | e in Living(punched) ensures e.id < bound && SoundFoe(e) {
      var i :| 0 <= i < |punched| && punched[i] == e;
      assert before[i] in before;
    }
  }

  /** The enemies' own updates keep every enemy sound and the ids distinct. */
  lemma UpdatedAllSound(foes: seq<Foe>, inRange: set<nat>, bound: nat)
    requires DistinctIds(foes)
    requires forall e :: e in foes ==> e.id < bound && SoundFoe(e)
    ensures DistinctIds(UpdatedAll(foes, inRange))
    ensures forall e :: e in UpdatedAll(foes, inRange) ==> e.id < bound && SoundFoe(e)
  {
    var r := UpdatedAll(foes, inRange);
    forall i, j | 0 <= i < j < |r| ensures IdsDiffer(r, i, j) {
      assert IdsDiffer(foes, i, j);
    }
    forall e | e in r ensures e.id < bound && SoundFoe(e) {
      var k :| 0 <= k < |r| && r[k] == e;
      assert foes[k] in foes;
    }
  }

  /** A fresh enemy with the next id keeps the list's ids distinct. */
  lemma AppendKeepsSound(foes: seq<Foe>, newcomer: Foe, bound: nat)
    requires DistinctIds(foes) && forall e :: e in foes ==> e.id < bound && SoundFoe(e)
    requires newcomer.id == bound && SoundFoe(newcomer)
    ensures DistinctIds(foes + [newcomer])
    ensures forall e :: e in foes + [newcomer] ==> e.id < bound + 1 && SoundFoe(e)
  {
    var r := foes + [newcomer];
    forall i, j | 0 <= i < j < |r| ensures IdsDiffer(r, i, j) {
      assert foes[i] in foes;
      if j < |foes| {
        assert IdsDiffer(foes, i, j);
      }
    }
  }

  /** The enemies left by a tick are sound, with distinct ids below the next
      id. */
  lemma StepKeepsFoesSound(w: World, keys: Keys, touching: set<nat>, inRange: set<nat>, spawn: Spawn)
    requires Invariant(w) && ValidSpawn(spawn)
    ensures var r := GameStep(w, keys, touching, inRange, spawn);
      DistinctIds(r.foes) && forall e :: e in r.foes ==> e.id < r.nextId && SoundFoe(e)
  {
    var (p, punched) := PlayerTick(w.player, keys, w.foes, touching);
    StepAccounting(w, keys, touching, inRange, spawn);
    var survivors := UpdatedAll(Living(punched), inRange);
    forall i, j | 0 <= i < j < |punched| ensures IdsDiffer(punched, i, j) {
      assert IdsDiffer(w.foes, i, j);
    }
    LivingKeepsDistinct(punched);
    PunchedLivingSound(w.foes, punched, w.nextId);
    UpdatedAllSound(Living(punched), inRange, w.nextId);
    if SpawnClock(w.spawnTimer).1 {
      var (x, y) := SpawnPosition(spawn);
      AppendKeepsSound(survivors, Spawned(w.nextId, x, y), w.nextId);
    }
  }

  /** A tick keeps the invariant, whatever the inputs. */
  lemma StepKeepsInvariant(w: World, keys: Keys, touching: set<nat>, inRange: set<nat>, spawn: Spawn)
    requires Invariant(w) && ValidSpawn(spawn)
    ensures Invariant(GameStep(w, keys, touching, inRange, spawn))
  {
    StepKeepsFoesSound(w, keys, touching, inRange, spawn);
  }

  /** A frame keeps the invariant, whatever the events and inputs. */
  lemma FrameKeepsInvariant(w: World, events: Events, keys: Keys, touching: set<nat>, inRange: set<nat>, spawn: Spawn)
    requires Invariant(w) && ValidSpawn(spawn)
    ensures Invariant(GameFrame(w, events, keys, touching, inRange, spawn))
  {
    HandledKeepsInvariant(w, events);
    StepKeepsInvariant(Handled(w, events), keys, touching, inRange, spawn);
  }
}
